/**
 * The name reconciler: `build_name_map`, which sends each normalised order
 * place name to a normalised tracker name. The web front end tries an exact
 * match, then containment either way, then a fuzzy match; the command-line
 * tool tries an exact match, then its hand-written override table, then
 * containment, and has no fuzzy step. Containment scans a Python `set`, whose
 * order is not fixed, so the model lets the scan visit the keys in any order.
 */
module NameReconciler {
  import opened Wrappers
  import opened Text

  /** `sc_n in csv_n or csv_n in sc_n`. */
  predicate Related(orderKey: string, trackerKey: string) {
    IsSubstring(trackerKey, orderKey) || IsSubstring(orderKey, trackerKey)
  }

  ghost predicate HasRelated(orderKey: string, trackers: set<string>) {
    exists t :: t in trackers && Related(orderKey, t)
  }

  /** What the fuzzy variant may do with one order key. */
  ghost predicate FuzzyChoice(k: string, trackers: set<string>, close: string -> Option<string>, m: map<string, string>) {
    if k in trackers then k in m && m[k] == k
    else if HasRelated(k, trackers) then k in m && m[k] in trackers && Related(k, m[k])
    else if close(k).Some? then k in m && m[k] == close(k).value
    else k !in m
  }

  /**
   * The web front end's `build_name_map`. `close` stands for
   * `difflib.get_close_matches(k, tracker names, n=1, cutoff=0.6)`: it offers
   * at most one tracker name.
   */
  method BuildNameMap(orderNorms: set<string>, trackerNorms: set<string>, close: string -> Option<string>)
    returns (mapping: map<string, string>)
    requires forall q :: close(q).Some? ==> close(q).value in trackerNorms
    ensures mapping.Keys <= orderNorms
    ensures forall k :: k in mapping ==> mapping[k] in trackerNorms
    ensures forall k :: k in orderNorms ==> FuzzyChoice(k, trackerNorms, close, mapping)
  {
    mapping := map[];
    var todo := orderNorms;
    while todo != {}
      invariant todo <= orderNorms
      invariant mapping.Keys <= orderNorms - todo
      invariant forall k :: k in mapping ==> mapping[k] in trackerNorms
      invariant forall k :: k in orderNorms - todo ==> FuzzyChoice(k, trackerNorms, close, mapping)
      decreases |todo|
    {
      var csvN :| csvN in todo;
      todo := todo - {csvN};
      ghost var done := orderNorms - todo - {csvN};
      assert orderNorms - todo == done + {csvN};
      if csvN in trackerNorms {
        FuzzyPut(done, trackerNorms, close, mapping, csvN, csvN, mapping[csvN := csvN]);
        mapping := mapping[csvN := csvN];
        continue;
      }
      var matched := false;
      var rest := trackerNorms;
      ghost var before := mapping;
      while rest != {}
        invariant rest <= trackerNorms
        invariant !matched && mapping == before
        invariant forall t :: t in trackerNorms - rest ==> !Related(csvN, t)
        decreases |rest|
      {
        var scN :| scN in rest;
        rest := rest - {scN};
        if IsSubstring(scN, csvN) || IsSubstring(csvN, scN) {
          assert Related(csvN, scN);
          FuzzyPut(done, trackerNorms, close, mapping, csvN, scN, mapping[csvN := scN]);
          mapping := mapping[csvN := scN];
          matched := true;
          break;
        }
      }
      if !matched {
        var matches := close(csvN);
        if matches.Some? {
          FuzzyPut(done, trackerNorms, close, mapping, csvN, matches.value, mapping[csvN := matches.value]);
          mapping := mapping[csvN := matches.value];
        }
      }
    }
  }

  /** Setting another key leaves every decided key's entry as it was. */
  lemma FuzzyFrame(done: set<string>, trackers: set<string>, close: string -> Option<string>, m: map<string, string>, j: string, v: string)
    requires j !in done
    requires forall k :: k in done ==> FuzzyChoice(k, trackers, close, m)
    ensures forall k :: k in done ==> FuzzyChoice(k, trackers, close, m[j := v])
  {
    forall k | k in done ensures FuzzyChoice(k, trackers, close, m[j := v]) {
      assert FuzzyChoice(k, trackers, close, m);
    }
  }

  /** One placement of the fuzzy loop keeps every decided key decided and every target a tracker name. */
  lemma FuzzyPut(done: set<string>, trackers: set<string>, close: string -> Option<string>, m: map<string, string>, j: string, v: string, m': map<string, string>)
    requires j !in done
    requires v in trackers
    requires m' == m[j := v]
    requires forall k :: k in m ==> m[k] in trackers
    requires forall k :: k in done ==> FuzzyChoice(k, trackers, close, m)
    requires FuzzyChoice(j, trackers, close, m')
    ensures forall k :: k in m' ==> m'[k] in trackers
    ensures forall k :: k in done + {j} ==> FuzzyChoice(k, trackers, close, m')
  {
    FuzzyFrame(done, trackers, close, m, j, v);
  }

  /** `MANUAL_NAME_MAP` of the command-line tool. */
  const ManualNameMap: map<string, string> := map[
    "shawerma 3a saj" := "shawerma saj",
    "everybuddy nutrition supplements" := "everybuddy",
    "pachi pizza and pasta" := "pachi pizza",
    "azul pastry" := "azul",
    "ikura japanese cuisine" := "ikura",
    "the fit bar" := "the fit bar jo",
    "sofia turkish restaurant" := "sofia",
    "secrets cakes" := "secrets cake",
    "flour and fire" := "flour and fire"]

  /** The override applies to `k` only when its target is a tracker name. */
  predicate ManualApplies(k: string, trackers: set<string>) {
    k in ManualNameMap && ManualNameMap[k] in trackers
  }

  /** What the manual-map variant may do with one order key. */
  ghost predicate ManualChoice(k: string, trackers: set<string>, m: map<string, string>) {
    if k in trackers then k in m && m[k] == k
    else if ManualApplies(k, trackers) then k in m && m[k] == ManualNameMap[k]
    else if HasRelated(k, trackers) then k in m && m[k] in trackers && Related(k, m[k])
    else k !in m
  }

  lemma ManualFrame(done: set<string>, trackers: set<string>, m: map<string, string>, j: string, v: string)
    requires j !in done
    requires forall k :: k in done ==> ManualChoice(k, trackers, m)
    ensures forall k :: k in done ==> ManualChoice(k, trackers, m[j := v])
  {
    forall k | k in done ensures ManualChoice(k, trackers, m[j := v]) {
      assert ManualChoice(k, trackers, m);
    }
  }

  /** One placement of the manual-map loop keeps every decided key decided and every target a tracker name. */
  lemma ManualPut(done: set<string>, trackers: set<string>, m: map<string, string>, j: string, v: string, m': map<string, string>)
    requires j !in done
    requires v in trackers
    requires m' == m[j := v]
    requires forall k :: k in m ==> m[k] in trackers
    requires forall k :: k in done ==> ManualChoice(k, trackers, m)
    requires ManualChoice(j, trackers, m')
    ensures forall k :: k in m' ==> m'[k] in trackers
    ensures forall k :: k in done + {j} ==> ManualChoice(k, trackers, m')
  {
    ManualFrame(done, trackers, m, j, v);
  }

  /** The command-line tool's `build_name_map`. */
  method BuildNameMapManual(orderNorms: set<string>, trackerNorms: set<string>) returns (mapping: map<string, string>)
    ensures mapping.Keys <= orderNorms
    ensures forall k :: k in mapping ==> mapping[k] in trackerNorms
    ensures forall k :: k in orderNorms ==> ManualChoice(k, trackerNorms, mapping)
  {
    mapping := map[];
    var todo := orderNorms;
    while todo != {}
      invariant todo <= orderNorms
      invariant mapping.Keys <= orderNorms - todo
      invariant forall k :: k in mapping ==> mapping[k] in trackerNorms
      invariant forall k :: k in orderNorms - todo ==> ManualChoice(k, trackerNorms, mapping)
      decreases |todo|
    {
      var csvN :| csvN in todo;
      todo := todo - {csvN};
      ghost var done := orderNorms - todo - {csvN};
      assert orderNorms - todo == done + {csvN};
      if csvN in trackerNorms {
        ManualPut(done, trackerNorms, mapping, csvN, csvN, mapping[csvN := csvN]);
        mapping := mapping[csvN := csvN];
        continue;
      }
      if csvN in ManualNameMap && ManualNameMap[csvN] in trackerNorms {
        var target := ManualNameMap[csvN];
        assert ManualApplies(csvN, trackerNorms);
        ManualPut(done, trackerNorms, mapping, csvN, target, mapping[csvN := target]);
        mapping := mapping[csvN := target];
        continue;
      }
      var rest := trackerNorms;
      ghost var before := mapping;
      while rest != {}
        invariant rest <= trackerNorms
        invariant mapping == before
        invariant forall t :: t in trackerNorms - rest ==> !Related(csvN, t)
        decreases |rest|
      {
        var scN :| scN in rest;
        rest := rest - {scN};
        if IsSubstring(scN, csvN) || IsSubstring(csvN, scN) {
          assert Related(csvN, scN);
          ManualPut(done, trackerNorms, mapping, csvN, scN, mapping[csvN := scN]);
          mapping := mapping[csvN := scN];
          break;
        }
      }
    }
  }

  /** The unmatched set the tool reports, `order_norms - keys`, is exactly the keys no step could place. */
  lemma Unmatched(orderNorms: set<string>, trackerNorms: set<string>, mapping: map<string, string>, k: string)
    requires forall o :: o in orderNorms ==> ManualChoice(o, trackerNorms, mapping)
    ensures k in orderNorms - mapping.Keys
        <==> k in orderNorms && k !in trackerNorms && !ManualApplies(k, trackerNorms) && !HasRelated(k, trackerNorms)
  {
  }

  /** The empty string is contained in, and contains, nothing but itself and everything respectively. */
  lemma EmptyRelated(s: string)
    ensures Related("", s) && Related(s, "")
  {
    EmptyIsSubstring(s);
  }

  /** An order key that normalised to "" is placed by either variant as soon as there is any tracker name. */
  lemma EmptyOrderKeyMatched(trackerNorms: set<string>, close: string -> Option<string>, m: map<string, string>, t: string)
    requires t in trackerNorms
    requires FuzzyChoice("", trackerNorms, close, m) || ManualChoice("", trackerNorms, m)
    ensures "" in m
  {
    EmptyRelated(t);
  }

  /** A tracker name "" makes every order key matched, in either variant. */
  lemma EmptyTrackerKeyMatchesAll(k: string, trackerNorms: set<string>, close: string -> Option<string>, m: map<string, string>)
    requires "" in trackerNorms
    requires FuzzyChoice(k, trackerNorms, close, m) || ManualChoice(k, trackerNorms, m)
    ensures k in m
  {
    EmptyRelated(k);
  }

  /** With no override applying, the two variants map the same keys by exact and containment matching (the related key each picks may differ); only the fuzzy step adds keys. */
  lemma VariantsAgree(k: string, trackerNorms: set<string>, close: string -> Option<string>, m1: map<string, string>, m2: map<string, string>)
    requires FuzzyChoice(k, trackerNorms, close, m1) && ManualChoice(k, trackerNorms, m2)
    requires !ManualApplies(k, trackerNorms)
    ensures k in m2 ==> k in m1
    ensures k in m1 && k !in m2 ==> !HasRelated(k, trackerNorms) && k !in trackerNorms && m1[k] == close(k).value
    ensures k in trackerNorms ==> m1[k] == m2[k] == k
  {
  }
}
