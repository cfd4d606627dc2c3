/**
 * Report ordering: the tracker entries are listed with the "active" ones
 * first, then by display name. The two front ends disagree on what active
 * means: the web front end asks for a name-map target whose day counters sum
 * to more than zero, the command-line tool only for an entry in the
 * counters. `sorted` compares the key pairs `(0 or 1, display_name)`.
 */
module ReportAssembler {
  import opened Text
  import opened Calendar
  import opened OrderIngest
  import opened TrackerIngest
  import opened DayAggregator

  /** One `(norm_name, data)` item of the tracker table. */
  datatype Entry = Entry(key: string, rec: TrackerRecord)

  /** The first half of the sort key. */
  function Rank(e: Entry, active: set<string>): int {
    if e.key in active then 0 else 1
  }

  /** Python's `<=` on the key pairs. */
  predicate KeyLe(a: Entry, b: Entry, active: set<string>) {
    || Rank(a, active) < Rank(b, active)
    || (Rank(a, active) == Rank(b, active) && StrLe(a.rec.displayName, b.rec.displayName))
  }

  predicate Sorted(s: seq<Entry>, active: set<string>) {
    forall i :: 0 <= i < |s| - 1 ==> KeyLe(s[i], s[i + 1], active)
  }

  lemma KeyLeTotal(a: Entry, b: Entry, active: set<string>)
    ensures KeyLe(a, b, active) || KeyLe(b, a, active)
  {
    StrLeTotal(a.rec.displayName, b.rec.displayName);
  }

  lemma KeyLeTransitive(a: Entry, b: Entry, c: Entry, active: set<string>)
    requires KeyLe(a, b, active) && KeyLe(b, c, active)
    ensures KeyLe(a, c, active)
  {
    if Rank(a, active) == Rank(b, active) == Rank(c, active) {
      StrLeTransitive(a.rec.displayName, b.rec.displayName, c.rec.displayName);
    }
  }

  /** Puts `e` before the first entry it does not follow, so equal keys keep their input order. */
  function Insert(e: Entry, s: seq<Entry>, active: set<string>): (r: seq<Entry>)
    requires Sorted(s, active)
    ensures multiset(r) == multiset(s) + multiset{e}
    ensures Sorted(r, active)
    ensures r[0] == e || (s != [] && r[0] == s[0])
  {
    if s == [] then [e]
    else if KeyLe(e, s[0], active) then [e] + s
    else
      KeyLeTotal(e, s[0], active);
      var rest := Insert(e, s[1..], active);
      assert s == [s[0]] + s[1..];
      [s[0]] + rest
  }

  /** `sorted(items, key=...)`: the entries ordered by their key pairs. */
  function SortReport(items: seq<Entry>, active: set<string>): (r: seq<Entry>)
    ensures multiset(r) == multiset(items)
    ensures Sorted(r, active)
  {
    if items == [] then []
    else
      assert items == [items[0]] + items[1..];
      Insert(items[0], SortReport(items[1..], active), active)
  }

  lemma {:induction false} SortedAll(s: seq<Entry>, active: set<string>)
    requires Sorted(s, active)
    ensures forall i, j :: 0 <= i < j < |s| ==> KeyLe(s[i], s[j], active)
  {
    if |s| > 1 {
      SortedAll(s[1..], active);
      forall j | 1 < j < |s| ensures KeyLe(s[0], s[j], active) {
        assert KeyLe(s[1..][0], s[1..][j - 1], active);
        KeyLeTransitive(s[0], s[1], s[j], active);
      }
    }
  }

  /** The report lists every entry once, active entries before all others, and names in order within each group. */
  lemma ReportOrder(items: seq<Entry>, active: set<string>)
    ensures multiset(SortReport(items, active)) == multiset(items)
    ensures var r := SortReport(items, active);
      forall i, j :: 0 <= i < j < |r| && r[j].key in active ==> r[i].key in active
    ensures var r := SortReport(items, active);
      forall i, j :: 0 <= i < j < |r| && (r[i].key in active <==> r[j].key in active)
        ==> StrLe(r[i].rec.displayName, r[j].rec.displayName)
  {
    SortedAll(SortReport(items, active), active);
  }

  /** `sum(daily_counts.get(k, [0]))`. */
  function DaySum(counts: map<string, seq<int>>, k: string): int {
    SeqSum(if k in counts then counts[k] else [0])
  }

  /** The web front end's active keys: name-map targets with a non-zero day sum. */
  function AppActive(nameMap: map<string, string>, counts: map<string, seq<int>>): set<string> {
    set k | k in nameMap.Values && DaySum(counts, k) > 0
  }

  /** The command-line tool's active keys: those with counters. */
  function CliActive(counts: map<string, seq<int>>): set<string> {
    counts.Keys
  }

  lemma {:induction false} SeqSumAtLeast(s: seq<int>, d: int)
    requires forall i :: 0 <= i < |s| ==> s[i] >= 0
    requires 0 <= d < |s|
    ensures SeqSum(s) >= s[d]
  {
    if d == 0 {
      NonNegSum(s[1..]);
    } else {
      SeqSumAtLeast(s[1..], d - 1);
    }
  }

  lemma {:induction false} NonNegSum(s: seq<int>)
    requires forall i :: 0 <= i < |s| ==> s[i] >= 0
    ensures SeqSum(s) >= 0
  {
    if s != [] {
      NonNegSum(s[1..]);
    }
  }

  /** On the counters `count_orders_by_day` builds, the two notions of active coincide. */
  lemma ActiveAgree(orders: seq<Order>, nameMap: map<string, string>, weekStart: Minutes, counts: map<string, seq<int>>)
    requires Reflects(counts, orders, nameMap, weekStart)
    ensures AppActive(nameMap, counts) == CliActive(counts)
  {
    forall k | k in counts ensures k in AppActive(nameMap, counts) {
      CountedKeysIff(orders, nameMap, weekStart, k);
      var i :| 0 <= i < |orders| && Counted(orders[i], nameMap, weekStart) && nameMap[orders[i].norm] == k;
      TallyHasOrder(orders, i, nameMap, weekStart);
      SeqSumAtLeast(counts[k], DayOfWeek(orders[i].date));
      assert nameMap[orders[i].norm] in nameMap.Values;
    }
    assert SeqSum([0]) == 0 by {
      assert [0][1..] == [];
    }
    assert forall k :: k in AppActive(nameMap, counts) ==> k in counts;
  }

  /** Given the same name map and the counters built from it, the two sort keys order the tracker identically. */
  lemma ReportsAgree(items: seq<Entry>, orders: seq<Order>, nameMap: map<string, string>, weekStart: Minutes, counts: map<string, seq<int>>)
    requires Reflects(counts, orders, nameMap, weekStart)
    ensures SortReport(items, AppActive(nameMap, counts)) == SortReport(items, CliActive(counts))
  {
    ActiveAgree(orders, nameMap, weekStart, counts);
  }

  /** `daily_counts.get(norm_name, [0] * 7)`: seven slots, each the number of that day's orders. */
  function OrdersPerDay(counts: map<string, seq<int>>, k: string): seq<int> {
    if k in counts then counts[k] else [0, 0, 0, 0, 0, 0, 0]
  }

  lemma OrdersPerDayTallies(orders: seq<Order>, nameMap: map<string, string>, weekStart: Minutes, counts: map<string, seq<int>>, k: string)
    requires Reflects(counts, orders, nameMap, weekStart)
    ensures |OrdersPerDay(counts, k)| == 7
    ensures forall d :: 0 <= d < 7 ==> OrdersPerDay(counts, k)[d] == Tally(orders, nameMap, weekStart, k, d)
  {
    if k !in counts {
      ZeroTally(orders, nameMap, weekStart, k);
    }
  }
}
