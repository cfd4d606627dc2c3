/**
 * The record normaliser `normalize(name)`: the key under which orders and
 * tracker rows are compared. `NormalizeSteps` is the source's pipeline, one
 * function per stage: drop non-ASCII code points, replace `&` by "and",
 * `" ".join(s.split())`, `strip()`, `lower()`. `Normalize` computes the same
 * key in a single left-to-right pass (`NormalizeIsSteps` proves the two
 * equal); the rest of the model uses it.
 */
module Normalizer {
  import opened Text

  /** The characters with a code point below 128, in order. */
  function AsciiOnly(s: string): (r: string)
  {
    if s == [] then []
    else (if IsAscii(s[0]) then [s[0]] else []) + AsciiOnly(s[1..])
  }

  /** `s.replace("&", "and")`. */
  function ReplaceAmp(s: string): (r: string)
  {
    if s == [] then []
    else (if s[0] == '&' then "and" else [s[0]]) + ReplaceAmp(s[1..])
  }

  /** Length of the leading run of non-white-space characters. */
  function WordEnd(s: string): (k: nat)
    ensures k <= |s|
    ensures forall i :: 0 <= i < k ==> !IsSpace(s[i])
    ensures k < |s| ==> IsSpace(s[k])
    ensures s != [] && !IsSpace(s[0]) ==> k >= 1
  {
    if s == [] || IsSpace(s[0]) then 0 else 1 + WordEnd(s[1..])
  }

  /** Python's `s.split()` with no separator: the maximal runs of non-white-space. */
  function Split(s: string): seq<string>
    decreases |s|
  {
    var t := TrimLeft(s);
    if t == [] then []
    else
      var k := WordEnd(t);
      [t[..k]] + Split(t[k..])
  }

  /** `" ".join(words)`. */
  function Join(words: seq<string>): string {
    if |words| == 0 then ""
    else if |words| == 1 then words[0]
    else words[0] + " " + Join(words[1..])
  }

  /** The source's five stages, in the source's order. */
  function NormalizeSteps(name: string): string {
    if name == "" then ""
    else Lower(Strip(Join(Split(ReplaceAmp(AsciiOnly(name))))))
  }

  /**
   * One pass over `s`: non-ASCII characters vanish, a run of white space
   * becomes one owed space (`pending`) once a word has been emitted
   * (`started`), `&` becomes "and" and letters are lower-cased.
   */
  function Scan(s: string, started: bool, pending: bool): string {
    if s == [] then ""
    else if !IsAscii(s[0]) then Scan(s[1..], started, pending)
    else if IsSpace(s[0]) then Scan(s[1..], started, started)
    else
      (if pending then " " else "")
      + (if s[0] == '&' then "and" else [ToLower(s[0])])
      + Scan(s[1..], true, false)
  }

  function Normalize(name: string): string {
    if name == "" then "" else Scan(name, false, false)
  }

  /** The only white space is a plain space, never at either end, never doubled. */
  ghost predicate Collapsed(t: string) {
    && (forall i :: 0 <= i < |t| && IsSpace(t[i]) ==> t[i] == ' ')
    && (t != [] ==> !IsSpace(t[0]) && !IsSpace(t[|t| - 1]))
    && (forall i :: 0 <= i < |t| - 1 ==> !(IsSpace(t[i]) && IsSpace(t[i + 1])))
  }

  /** Only ASCII characters and no `&`. */
  ghost predicate Clean(t: string) {
    forall i :: 0 <= i < |t| ==> IsAscii(t[i]) && t[i] != '&'
  }

  /** What `split` yields: non-empty runs without white space. */
  ghost predicate IsWord(w: string) {
    w != [] && forall i :: 0 <= i < |w| ==> !IsSpace(w[i])
  }

  /** What every normalised key looks like. */
  ghost predicate IsNormalForm(t: string) {
    && Collapsed(t)
    && Clean(t)
    && (forall i :: 0 <= i < |t| ==> !IsUpper(t[i]))
  }

  /** The first step of `split`: a word, then the split of what follows it. */
  lemma SplitStep(s: string)
    requires TrimLeft(s) != []
    ensures var t := TrimLeft(s); var k := WordEnd(t);
      Split(s) == [t[..k]] + Split(t[k..]) && IsWord(t[..k])
  {
  }

  lemma {:induction false} SplitWords(s: string)
    ensures forall j :: 0 <= j < |Split(s)| ==> IsWord(Split(s)[j])
    decreases |s|
  {
    var t := TrimLeft(s);
    if t != [] {
      var k := WordEnd(t);
      SplitStep(s);
      SplitWords(t[k..]);
    }
  }

  lemma CleanSlice(s: string, a: nat, b: nat)
    requires Clean(s) && a <= b <= |s|
    ensures Clean(s[a..b])
  {
    forall i | 0 <= i < b - a ensures IsAscii(s[a..b][i]) && s[a..b][i] != '&' {
      assert s[a..b][i] == s[a + i];
    }
  }

  lemma {:induction false} SplitClean(s: string)
    requires Clean(s)
    ensures forall j :: 0 <= j < |Split(s)| ==> Clean(Split(s)[j])
    decreases |s|
  {
    var t := TrimLeft(s);
    if t != [] {
      var k := WordEnd(t);
      SplitStep(s);
      TrimLeftDrops(s);
      CleanSlice(s, |s| - |t|, |s|);
      CleanSlice(t, 0, k);
      CleanSlice(t, k, |t|);
      assert t[0..k] == t[..k] && t[k..|t|] == t[k..];
      SplitClean(t[k..]);
      var ws := Split(s);
      forall j | 0 <= j < |ws| ensures Clean(ws[j]) {
        if j == 0 {
          assert ws[j] == t[..k];
        } else {
          assert ws[j] == Split(t[k..])[j - 1];
        }
      }
    }
  }

  lemma {:induction false} JoinCollapsed(words: seq<string>)
    requires forall j :: 0 <= j < |words| ==> IsWord(words[j])
    ensures Collapsed(Join(words))
    ensures words != [] ==> Join(words) != []
    ensures (forall j :: 0 <= j < |words| ==> Clean(words[j])) ==> Clean(Join(words))
  {
    if |words| > 1 {
      var w := words[0];
      assert IsWord(w);
      JoinCollapsed(words[1..]);
      var rest := Join(words[1..]);
      var t := w + " " + rest;
      assert IsWord(words[1..][0]);
      forall i | 0 <= i < |t| - 1 ensures !(IsSpace(t[i]) && IsSpace(t[i + 1])) {
        if i < |w| - 1 {
          assert t[i] == w[i];
        } else if i == |w| - 1 {
          assert t[i] == w[i];
        } else if i == |w| {
          assert t[i + 1] == rest[0];
        } else {
          assert t[i] == rest[i - |w| - 1] && t[i + 1] == rest[i - |w|];
        }
      }
      forall i | 0 <= i < |t| ensures IsSpace(t[i]) ==> t[i] == ' ' {
        if i < |w| {
          assert t[i] == w[i];
        } else if i > |w| {
          assert t[i] == rest[i - |w| - 1];
        }
      }
      assert t[0] == w[0] && t[|t| - 1] == rest[|rest| - 1];
      if forall j :: 0 <= j < |words| ==> Clean(words[j]) {
        assert Clean(w);
        assert Clean(rest) by {
          forall j | 0 <= j < |words[1..]| ensures Clean(words[1..][j]) {
            assert words[1..][j] == words[j + 1];
          }
        }
        forall i | 0 <= i < |t| ensures IsAscii(t[i]) && t[i] != '&' {
          if i < |w| {
            assert t[i] == w[i];
          } else if i > |w| {
            assert t[i] == rest[i - |w| - 1];
          }
        }
      }
    }
  }

  /** `" ".join(s.split())` has collapsed white space, and is clean when `s` is. */
  lemma CollapseShape(s: string)
    ensures Collapsed(Join(Split(s)))
    ensures Clean(s) ==> Clean(Join(Split(s)))
  {
    SplitWords(s);
    if Clean(s) {
      SplitClean(s);
    }
    JoinCollapsed(Split(s));
  }

  lemma StripCollapsed(t: string)
    requires Collapsed(t)
    ensures Strip(t) == t
  {
    assert TrimLeft(t) == t;
    assert TrimRight(t) == t;
  }

  lemma {:induction false} AsciiOnlyFixed(t: string)
    requires forall i :: 0 <= i < |t| ==> IsAscii(t[i])
    ensures AsciiOnly(t) == t
  {
    if t != [] {
      AsciiOnlyFixed(t[1..]);
    }
  }

  lemma {:induction false} ReplaceAmpFixed(t: string)
    requires forall i :: 0 <= i < |t| ==> t[i] != '&'
    ensures ReplaceAmp(t) == t
  {
    if t != [] {
      ReplaceAmpFixed(t[1..]);
    }
  }

  lemma LowerFixed(t: string)
    requires forall i :: 0 <= i < |t| ==> !IsUpper(t[i])
    ensures Lower(t) == t
  {
  }

  /** After the first word of a collapsed string come one space and a collapsed, non-empty rest. */
  lemma CollapsedRest(t: string, k: nat)
    requires Collapsed(t) && t != [] && k == WordEnd(t) && k < |t|
    ensures k + 1 < |t| && t[k] == ' ' && !IsSpace(t[k + 1])
    ensures Collapsed(t[k + 1..])
  {
    GapAfterWord(t, k);
    CollapsedSuffix(t, k + 1);
  }

  /** In a collapsed string, white space is a single plain space followed by a non-space. */
  lemma GapAfterWord(t: string, k: nat)
    requires Collapsed(t) && k < |t| && IsSpace(t[k])
    ensures k + 1 < |t| && t[k] == ' ' && !IsSpace(t[k + 1])
  {
    assert k != |t| - 1;
  }

  /** A suffix of a collapsed string that starts on a non-space is collapsed. */
  lemma CollapsedSuffix(t: string, m: nat)
    requires Collapsed(t) && m < |t| && !IsSpace(t[m])
    ensures Collapsed(t[m..])
  {
    var rest := t[m..];
    SpacingSuffix(t, m);
    assert rest[0] == t[m] && rest[|rest| - 1] == t[|t| - 1];
  }

  /** The two spacing conditions of `Collapsed` pass to every suffix. */
  lemma SpacingSuffix(t: string, m: nat)
    requires m <= |t|
    requires forall i :: 0 <= i < |t| && IsSpace(t[i]) ==> t[i] == ' '
    requires forall i :: 0 <= i < |t| - 1 ==> !(IsSpace(t[i]) && IsSpace(t[i + 1]))
    ensures forall i :: 0 <= i < |t[m..]| && IsSpace(t[m..][i]) ==> t[m..][i] == ' '
    ensures forall i :: 0 <= i < |t[m..]| - 1 ==> !(IsSpace(t[m..][i]) && IsSpace(t[m..][i + 1]))
  {
    var rest := t[m..];
    forall i | 0 <= i < |rest| - 1 ensures !(IsSpace(rest[i]) && IsSpace(rest[i + 1])) {
      assert rest[i] == t[m + i] && rest[i + 1] == t[m + i + 1];
    }
    forall i | 0 <= i < |rest| ensures IsSpace(rest[i]) ==> rest[i] == ' ' {
      assert rest[i] == t[m + i];
    }
  }

  /** A single leading space is skipped by `split`. */
  lemma SplitAfterSpace(u: string)
    requires u != [] && IsSpace(u[0]) && (|u| == 1 || !IsSpace(u[1]))
    ensures Split(u) == Split(u[1..])
  {
    assert TrimLeft(u) == TrimLeft(u[1..]);
    if |u| > 1 {
      assert TrimLeft(u[1..]) == u[1..];
    }
  }

  lemma Decompose(t: string, k: nat)
    requires k < |t|
    ensures t == t[..k] + [t[k]] + t[k + 1..]
  {
  }

  /** Splitting a collapsed string and joining the words again gives it back. */
  lemma {:induction false} SplitJoinCollapsed(t: string)
    requires Collapsed(t)
    ensures Join(Split(t)) == t
    ensures t != [] ==> Split(t) != []
    decreases |t|
  {
    if t != [] {
      assert TrimLeft(t) == t;
      var k := WordEnd(t);
      if k == |t| {
        assert t[k..] == [] && TrimLeft(t[k..]) == [];
        assert t[..k] == t;
        assert Split(t) == [t];
      } else {
        CollapsedRest(t, k);
        var rest := t[k + 1..];
        assert t[k..][1..] == rest;
        SplitAfterSpace(t[k..]);
        SplitJoinCollapsed(rest);
        assert Split(t) == [t[..k]] + Split(rest);
        assert Join(Split(t)) == t[..k] + " " + rest;
        Decompose(t, k);
      }
    }
  }

  lemma {:induction false} AsciiOnlyClean(s: string)
    ensures forall i :: 0 <= i < |AsciiOnly(s)| ==> IsAscii(AsciiOnly(s)[i])
  {
    if s != [] {
      AsciiOnlyClean(s[1..]);
      var r := AsciiOnly(s);
      var h: string := if IsAscii(s[0]) then [s[0]] else [];
      forall i | 0 <= i < |r| ensures IsAscii(r[i]) {
        if i >= |h| {
          assert r[i] == AsciiOnly(s[1..])[i - |h|];
        }
      }
    }
  }

  /** The text handed to the split step is ASCII and free of `&`. */
  lemma {:induction false} ReplaceAmpClean(s: string)
    requires forall i :: 0 <= i < |s| ==> IsAscii(s[i])
    ensures Clean(ReplaceAmp(s))
  {
    if s != [] {
      ReplaceAmpClean(s[1..]);
      var r := ReplaceAmp(s);
      var h: string := if s[0] == '&' then "and" else [s[0]];
      forall i | 0 <= i < |r| ensures IsAscii(r[i]) && r[i] != '&' {
        if i >= |h| {
          assert r[i] == ReplaceAmp(s[1..])[i - |h|];
        } else {
          assert r[i] == h[i];
        }
      }
    }
  }

  lemma LowerNormalForm(c: string)
    requires Collapsed(c) && Clean(c)
    ensures IsNormalForm(Lower(c))
  {
    var n := Lower(c);
    forall i | 0 <= i < |n| - 1 ensures !(IsSpace(n[i]) && IsSpace(n[i + 1])) {
      assert n[i] == ToLower(c[i]) && n[i + 1] == ToLower(c[i + 1]);
    }
    forall i | 0 <= i < |n| ensures IsSpace(n[i]) ==> n[i] == ' ' {
      assert n[i] == ToLower(c[i]);
    }
    forall i | 0 <= i < |n| ensures IsAscii(n[i]) && n[i] != '&' {
      assert n[i] == ToLower(c[i]);
    }
  }

  /** `" ".join(x.split())` as one pass, the white-space part of `Scan`. */
  function Emit(x: string, started: bool, pending: bool): string {
    if x == [] then ""
    else if IsSpace(x[0]) then Emit(x[1..], started, started)
    else (if pending then " " else "") + [x[0]] + Emit(x[1..], true, false)
  }

  /** Leading white space only decides whether a space is owed. */
  lemma {:induction false} EmitSpaces(x: string, started: bool, pending: bool)
    ensures Emit(x, started, pending)
      == Emit(TrimLeft(x), started, if |TrimLeft(x)| < |x| then started else pending)
  {
    if x != [] && IsSpace(x[0]) {
      EmitSpaces(x[1..], started, started);
    }
  }

  /** A word is copied whole, with the owed space in front of it. */
  lemma EmitWord(x: string, started: bool, pending: bool)
    requires x != [] && !IsSpace(x[0])
    ensures var k := WordEnd(x);
      Emit(x, started, pending) == (if pending then " " else "") + x[..k] + Emit(x[k..], true, false)
  {
    var k := WordEnd(x);
    assert x == x[..k] + x[k..];
    EmitRun(x[..k], x[k..], started, pending);
  }

  lemma SplitTrimmed(x: string)
    ensures Split(x) == Split(TrimLeft(x))
  {
    var u := TrimLeft(x);
    assert TrimLeft(u) == u;
  }

  lemma JoinCons(w: string, ws: seq<string>)
    requires ws != []
    ensures Join([w] + ws) == w + " " + Join(ws)
  {
    assert ([w] + ws)[1..] == ws;
  }

  /** `split` takes the leading word off a string that starts with one. */
  lemma SplitHead(x: string)
    requires x != [] && !IsSpace(x[0])
    ensures Split(x) == [x[..WordEnd(x)]] + Split(x[WordEnd(x)..])
  {
    assert TrimLeft(x) == x;
  }

  /** After a word, the pass owes a space exactly when another word follows. */
  lemma EmitGap(r: string)
    requires r == [] || IsSpace(r[0])
    ensures Emit(r, true, false) == Emit(TrimLeft(r), true, r != [])
    ensures Split(r) == Split(TrimLeft(r))
  {
    EmitSpaces(r, true, false);
    SplitTrimmed(r);
    if r != [] {
      assert TrimLeft(r) == TrimLeft(r[1..]);
    }
  }

  lemma Regroup(a: string, b: string, c: string, d: string)
    ensures a + b + (c + d) == a + (b + c + d)
  {
  }

  /** One word and the gap after it: what the pass emits and what `split` returns. */
  lemma WordThenGap(x: string, started: bool, pending: bool)
    requires x != [] && !IsSpace(x[0])
    ensures var k := WordEnd(x); var u := TrimLeft(x[k..]);
      && Emit(x, started, pending) == (if pending then " " else "") + x[..k] + Emit(u, true, u != [])
      && Split(x) == [x[..k]] + Split(u)
  {
    var k := WordEnd(x);
    var r := x[k..];
    EmitWord(x, started, pending);
    SplitHead(x);
    EmitGap(r);
    if TrimLeft(r) == [] {
      assert Emit(TrimLeft(r), true, r != []) == "" == Emit(TrimLeft(r), true, false);
    }
  }

  /** From the start of a word, the pass produces the joined words, after the owed space. */
  lemma {:induction false} EmitSplit(x: string, started: bool, pending: bool)
    requires x == [] || !IsSpace(x[0])
    ensures Emit(x, started, pending)
      == if x == [] then "" else (if pending then " " else "") + Join(Split(x))
    decreases |x|
  {
    if x != [] {
      var k := WordEnd(x);
      var w := x[..k];
      var u := TrimLeft(x[k..]);
      var owed: string := if pending then " " else "";
      WordThenGap(x, started, pending);
      if u == [] {
        assert Split(u) == [];
        assert [w] + Split(u) == [w];
        assert owed + w + "" == owed + w;
      } else {
        EmitSplit(u, true, true);
        JoinCons(w, Split(u));
        Regroup(owed, w, " ", Join(Split(u)));
      }
    }
  }

  /** The white-space pass equals `" ".join(x.split())`. */
  lemma EmitIsJoinSplit(x: string)
    ensures Emit(x, false, false) == Join(Split(x))
  {
    EmitSpaces(x, false, false);
    EmitSplit(TrimLeft(x), false, false);
    SplitTrimmed(x);
    if TrimLeft(x) == [] {
      assert Split(TrimLeft(x)) == [];
    }
  }

  lemma LowerConcat(a: string, b: string)
    ensures Lower(a + b) == Lower(a) + Lower(b)
  {
  }

  /** The first character's share of the ASCII filter and the `&` expansion. */
  lemma CleanCons(s: string)
    requires s != []
    ensures ReplaceAmp(AsciiOnly(s))
      == (if !IsAscii(s[0]) then "" else if s[0] == '&' then "and" else [s[0]])
         + ReplaceAmp(AsciiOnly(s[1..]))
  {
    var c := s[0];
    var a := AsciiOnly(s[1..]);
    if IsAscii(c) {
      assert AsciiOnly(s) == [c] + a;
      ReplaceAmpCons(c, a);
    } else {
      assert AsciiOnly(s) == a;
      assert "" + ReplaceAmp(a) == ReplaceAmp(a);
    }
  }

  lemma ReplaceAmpCons(c: char, a: string)
    ensures ReplaceAmp([c] + a) == (if c == '&' then "and" else [c]) + ReplaceAmp(a)
  {
    assert ([c] + a)[0] == c && ([c] + a)[1..] == a;
  }

  /** A run of non-white-space is copied whole, with the owed space in front of it. */
  lemma {:induction false} EmitRun(w: string, y: string, started: bool, pending: bool)
    requires w != [] && forall i :: 0 <= i < |w| ==> !IsSpace(w[i])
    ensures Emit(w + y, started, pending) == (if pending then " " else "") + w + Emit(y, true, false)
    decreases |w|
  {
    var owed: string := if pending then " " else "";
    var rest := w[1..];
    assert (w + y)[0] == w[0] && (w + y)[1..] == rest + y;
    assert Emit(w + y, started, pending) == owed + [w[0]] + Emit(rest + y, true, false);
    if rest == [] {
      assert rest + y == y && [w[0]] == w;
    } else {
      EmitRun(rest, y, true, false);
      assert Emit(rest + y, true, false) == "" + rest + Emit(y, true, false);
      assert [w[0]] + rest == w;
      assert owed + [w[0]] + ("" + rest + Emit(y, true, false)) == owed + ([w[0]] + rest) + Emit(y, true, false);
    }
  }

  lemma ScanWordChar(s: string, started: bool, pending: bool)
    requires s != [] && IsAscii(s[0]) && !IsSpace(s[0])
    requires Scan(s[1..], true, false) == Lower(Emit(ReplaceAmp(AsciiOnly(s[1..])), true, false))
    ensures Scan(s, started, pending) == Lower(Emit(ReplaceAmp(AsciiOnly(s)), started, pending))
  {
    var c := s[0];
    var y := ReplaceAmp(AsciiOnly(s[1..]));
    var owed: string := if pending then " " else "";
    var e := Emit(y, true, false);
    var word: string := if c == '&' then "and" else [c];
    var low: string := if c == '&' then "and" else [ToLower(c)];
    assert Scan(s, started, pending) == owed + low + Lower(e);
    CleanCons(s);
    assert ReplaceAmp(AsciiOnly(s)) == word + y;
    EmitRun(word, y, started, pending);
    LowerConcat(owed + word, e);
    LowerConcat(owed, word);
    assert Lower(owed) == owed;
    assert Lower(word) == low;
  }

  /** `Scan` is the lower-cased white-space pass over the ASCII-only, `&`-expanded text. */
  lemma {:induction false} ScanIsEmit(s: string, started: bool, pending: bool)
    ensures Scan(s, started, pending) == Lower(Emit(ReplaceAmp(AsciiOnly(s)), started, pending))
    decreases |s|
  {
    if s != [] {
      var c := s[0];
      var y := ReplaceAmp(AsciiOnly(s[1..]));
      CleanCons(s);
      if !IsAscii(c) {
        ScanIsEmit(s[1..], started, pending);
        assert "" + y == y;
      } else if IsSpace(c) {
        ScanIsEmit(s[1..], started, started);
        assert ([c] + y)[0] == c && ([c] + y)[1..] == y;
      } else {
        ScanIsEmit(s[1..], true, false);
        ScanWordChar(s, started, pending);
      }
    }
  }

  /** The single pass yields exactly the key of the source's five-stage pipeline. */
  lemma NormalizeIsSteps(name: string)
    ensures Normalize(name) == NormalizeSteps(name)
  {
    if name != "" {
      var x := ReplaceAmp(AsciiOnly(name));
      ScanIsEmit(name, false, false);
      EmitIsJoinSplit(x);
      CollapseShape(x);
      StripCollapsed(Join(Split(x)));
    }
  }

  lemma StepsShape(name: string)
    ensures IsNormalForm(NormalizeSteps(name))
  {
    if name != "" {
      var x := ReplaceAmp(AsciiOnly(name));
      var c := Join(Split(x));
      CollapseShape(x);
      StripCollapsed(c);
      AsciiOnlyClean(name);
      ReplaceAmpClean(AsciiOnly(name));
      LowerNormalForm(c);
      assert NormalizeSteps(name) == Lower(c);
    }
  }

  /** The source's pipeline leaves a key in normal form unchanged. */
  lemma StepsFixNormalForm(n: string)
    requires IsNormalForm(n)
    ensures NormalizeSteps(n) == n
  {
    if n != "" {
      AsciiOnlyFixed(n);
      ReplaceAmpFixed(n);
      SplitJoinCollapsed(n);
      StripCollapsed(n);
      LowerFixed(n);
    }
  }

  /** Every key `normalize` produces is ASCII, lower-case, `&`-free and has collapsed white space. */
  lemma NormalizeShape(name: string)
    ensures IsNormalForm(Normalize(name))
  {
    NormalizeIsSteps(name);
    StepsShape(name);
  }

  /** Normalising a key again changes nothing. */
  lemma NormalizeIdempotent(name: string)
    ensures Normalize(Normalize(name)) == Normalize(name)
  {
    var n := Normalize(name);
    NormalizeShape(name);
    NormalizeIsSteps(n);
    StepsFixNormalForm(n);
  }

  /** Leading white space, as `strip` removes it, leaves no trace in the scan. */
  lemma {:induction false} ScanSkipsLeading(s: string, k: nat)
    requires k <= |s| && forall j :: 0 <= j < k ==> IsSpace(s[j])
    ensures Scan(s, false, false) == Scan(s[k..], false, false)
  {
    if k > 0 {
      ScanSkipsLeading(s[1..], k - 1);
      assert s[1..][k - 1..] == s[k..];
    }
  }

  lemma {:induction false} ScanSpaces(y: string, started: bool, pending: bool)
    requires forall j :: 0 <= j < |y| ==> IsSpace(y[j])
    ensures Scan(y, started, pending) == ""
  {
    if y != [] {
      ScanSpaces(y[1..], started, if IsAscii(y[0]) then started else pending);
    }
  }

  /** Trailing white space leaves no trace either. */
  lemma {:induction false} ScanSkipsTrailing(x: string, y: string, started: bool, pending: bool)
    requires forall j :: 0 <= j < |y| ==> IsSpace(y[j])
    ensures Scan(x + y, started, pending) == Scan(x, started, pending)
  {
    if x == [] {
      assert x + y == y;
      ScanSpaces(y, started, pending);
    } else {
      assert (x + y)[0] == x[0] && (x + y)[1..] == x[1..] + y;
      if !IsAscii(x[0]) {
        ScanSkipsTrailing(x[1..], y, started, pending);
      } else if IsSpace(x[0]) {
        ScanSkipsTrailing(x[1..], y, started, started);
      } else {
        ScanSkipsTrailing(x[1..], y, true, false);
      }
    }
  }

  /** Normalising the stripped name gives the same key: the key is a function of the display name. */
  lemma NormalizeStrip(s: string)
    ensures Normalize(Strip(s)) == Normalize(s)
  {
    if s != [] {
      var t := Strip(s);
      var i := StripPiece(s);
      ScanSkipsLeading(s, i);
      assert s[i..] == t + s[i + |t|..];
      ScanSkipsTrailing(t, s[i + |t|..], false, false);
    }
  }

  /** A character outside ASCII leaves the scan's output and state as they were. */
  lemma {:induction false} ScanSkipsNonAscii(a: string, c: char, b: string, started: bool, pending: bool)
    requires !IsAscii(c)
    ensures Scan(a + [c] + b, started, pending) == Scan(a + b, started, pending)
    decreases |a|
  {
    var x := a + [c] + b;
    if a == [] {
      assert x[0] == c && x[1..] == b && a + b == b;
    } else {
      assert x[0] == a[0] && x[1..] == a[1..] + [c] + b;
      assert (a + b)[0] == a[0] && (a + b)[1..] == a[1..] + b;
      if !IsAscii(a[0]) {
        ScanSkipsNonAscii(a[1..], c, b, started, pending);
      } else if IsSpace(a[0]) {
        ScanSkipsNonAscii(a[1..], c, b, started, started);
      } else {
        ScanSkipsNonAscii(a[1..], c, b, true, false);
      }
    }
  }

  /**
   * `normalize` drops every character outside ASCII, accented letters
   * included, rather than transliterating it: the key of "Café" is "caf".
   */
  lemma NormalizeDropsNonAscii(a: string, c: char, b: string)
    requires !IsAscii(c)
    ensures Normalize(a + [c] + b) == Normalize(a + b)
  {
    ScanSkipsNonAscii(a, c, b, false, false);
    if a + b == [] {
      assert a + [c] + b == [c];
    }
  }
}
