/**
 * The day aggregator: `count_orders_by_day`. For one week it fills a
 * dictionary from tracker name to seven per-day counters (Sunday first),
 * creating a zeroed vector the first time a name is counted.
 */
module DayAggregator {
  import opened Calendar
  import opened OrderIngest

  /** An order adds to the counters: inside `[weekStart, weekStart + 7 days)` and mapped to a non-empty tracker name. */
  predicate Counted(o: Order, nameMap: map<string, string>, weekStart: Minutes) {
    && weekStart <= o.date < weekStart + MinutesPerWeek
    && o.norm in nameMap
    && nameMap[o.norm] != ""
  }

  /** How many of the orders land in slot `d` of the counters of `k`. */
  function Tally(orders: seq<Order>, nameMap: map<string, string>, weekStart: Minutes, k: string, d: int): nat {
    if orders == [] then 0
    else
      var o := orders[|orders| - 1];
      Tally(orders[..|orders| - 1], nameMap, weekStart, k, d)
        + if Counted(o, nameMap, weekStart) && nameMap[o.norm] == k && DayOfWeek(o.date) == d then 1 else 0
  }

  /** The tracker names that receive at least one order. */
  function CountedKeys(orders: seq<Order>, nameMap: map<string, string>, weekStart: Minutes): set<string> {
    if orders == [] then {}
    else
      var o := orders[|orders| - 1];
      CountedKeys(orders[..|orders| - 1], nameMap, weekStart)
        + if Counted(o, nameMap, weekStart) then {nameMap[o.norm]} else {}
  }

  /** How many orders are counted at all. */
  function CountedTotal(orders: seq<Order>, nameMap: map<string, string>, weekStart: Minutes): nat {
    if orders == [] then 0
    else
      CountedTotal(orders[..|orders| - 1], nameMap, weekStart)
        + if Counted(orders[|orders| - 1], nameMap, weekStart) then 1 else 0
  }

  function SeqSum(s: seq<int>): int {
    if s == [] then 0 else s[0] + SeqSum(s[1..])
  }

  /** The sum of every counter of every name. */
  ghost function MapTotal(m: map<string, seq<int>>): int
    decreases |m.Keys|
  {
    if m == map[] then 0
    else
      var k :| k in m;
      SeqSum(m[k]) + MapTotal(m - {k})
  }

  /** `counts` holds exactly what the orders put there. */
  ghost predicate Reflects(counts: map<string, seq<int>>, orders: seq<Order>, nameMap: map<string, string>, weekStart: Minutes) {
    && counts.Keys == CountedKeys(orders, nameMap, weekStart)
    && (forall k :: k in counts ==> |counts[k]| == 7)
    && (forall k, d :: k in counts && 0 <= d < 7 ==> counts[k][d] == Tally(orders, nameMap, weekStart, k, d))
    && MapTotal(counts) == CountedTotal(orders, nameMap, weekStart)
  }

  /** `count_orders_by_day`. */
  method CountOrdersByDay(orders: seq<Order>, nameMap: map<string, string>, weekStart: Minutes)
    returns (counts: map<string, seq<int>>)
    ensures counts.Keys == CountedKeys(orders, nameMap, weekStart)
    ensures forall k :: k in counts ==> |counts[k]| == 7
    ensures forall k, d :: k in counts && 0 <= d < 7 ==> counts[k][d] == Tally(orders, nameMap, weekStart, k, d)
    ensures MapTotal(counts) == CountedTotal(orders, nameMap, weekStart)
  {
    var weekEnd := weekStart + MinutesPerWeek;
    counts := map[];
    for i := 0 to |orders|
      invariant Reflects(counts, orders[..i], nameMap, weekStart)
    {
      var o := orders[i];
      if o.date < weekStart || o.date >= weekEnd {
        SkipStep(counts, orders, i, nameMap, weekStart);
        continue;
      }
      if o.norm !in nameMap || nameMap[o.norm] == "" {
        SkipStep(counts, orders, i, nameMap, weekStart);
        continue;
      }
      var scName := nameMap[o.norm];
      var dow := DayOfWeek(o.date);
      var vec := if scName in counts then counts[scName] else [0, 0, 0, 0, 0, 0, 0];
      CountStep(counts, orders, i, nameMap, weekStart, vec);
      counts := counts[scName := vec[dow := vec[dow] + 1]];
    }
    assert orders[..|orders|] == orders;
  }

  lemma SkipStep(counts: map<string, seq<int>>, orders: seq<Order>, i: int, nameMap: map<string, string>, weekStart: Minutes)
    requires 0 <= i < |orders| && !Counted(orders[i], nameMap, weekStart)
    requires Reflects(counts, orders[..i], nameMap, weekStart)
    ensures Reflects(counts, orders[..i + 1], nameMap, weekStart)
  {
    PrefixStep(orders, i, nameMap, weekStart);
  }

  /** One counted order adds one to slot `DayOfWeek` of its name's vector, creating the vector at zero first. */
  lemma CountStep(counts: map<string, seq<int>>, orders: seq<Order>, i: int, nameMap: map<string, string>, weekStart: Minutes, vec: seq<int>)
    requires 0 <= i < |orders| && Counted(orders[i], nameMap, weekStart)
    requires Reflects(counts, orders[..i], nameMap, weekStart)
    requires var k := nameMap[orders[i].norm]; vec == if k in counts then counts[k] else [0, 0, 0, 0, 0, 0, 0]
    ensures var k := nameMap[orders[i].norm]; var dow := DayOfWeek(orders[i].date);
      Reflects(counts[k := vec[dow := vec[dow] + 1]], orders[..i + 1], nameMap, weekStart)
  {
    var o := orders[i];
    var k := nameMap[o.norm];
    var dow := DayOfWeek(o.date);
    PrefixStep(orders, i, nameMap, weekStart);
    if k !in counts {
      ZeroSum(vec);
    }
    BumpSum(vec, dow);
    MapTotalUpdate(counts, k, vec[dow := vec[dow] + 1]);
    SlotStep(counts, orders, i, nameMap, weekStart, vec);
  }

  lemma SlotStep(counts: map<string, seq<int>>, orders: seq<Order>, i: int, nameMap: map<string, string>, weekStart: Minutes, vec: seq<int>)
    requires 0 <= i < |orders| && Counted(orders[i], nameMap, weekStart)
    requires Reflects(counts, orders[..i], nameMap, weekStart)
    requires var k := nameMap[orders[i].norm]; vec == if k in counts then counts[k] else [0, 0, 0, 0, 0, 0, 0]
    ensures var k := nameMap[orders[i].norm]; var dow := DayOfWeek(orders[i].date);
      var next := counts[k := vec[dow := vec[dow] + 1]];
      forall k2, d :: k2 in next && 0 <= d < 7 ==> next[k2][d] == Tally(orders[..i + 1], nameMap, weekStart, k2, d)
  {
    var o := orders[i];
    var k := nameMap[o.norm];
    var dow := DayOfWeek(o.date);
    PrefixStep(orders, i, nameMap, weekStart);
    if k !in counts {
      ZeroTally(orders[..i], nameMap, weekStart, k);
    }
    var next := counts[k := vec[dow := vec[dow] + 1]];
    forall k2, d | k2 in next && 0 <= d < 7
      ensures next[k2][d] == Tally(orders[..i + 1], nameMap, weekStart, k2, d)
    {
      if k2 != k {
        assert next[k2] == counts[k2];
      } else {
        assert vec[d] == Tally(orders[..i], nameMap, weekStart, k, d);
        assert next[k] == vec[dow := vec[dow] + 1];
      }
    }
  }

  /** What one more order does to the three specification functions. */
  lemma PrefixStep(orders: seq<Order>, i: int, nameMap: map<string, string>, weekStart: Minutes)
    requires 0 <= i < |orders|
    ensures var o := orders[i];
      (&& CountedKeys(orders[..i + 1], nameMap, weekStart)
         == CountedKeys(orders[..i], nameMap, weekStart) + (if Counted(o, nameMap, weekStart) then {nameMap[o.norm]} else {})
      && CountedTotal(orders[..i + 1], nameMap, weekStart)
         == CountedTotal(orders[..i], nameMap, weekStart) + (if Counted(o, nameMap, weekStart) then 1 else 0)
      && (forall k, d ::
            Tally(orders[..i + 1], nameMap, weekStart, k, d)
            == Tally(orders[..i], nameMap, weekStart, k, d)
               + (if Counted(o, nameMap, weekStart) && nameMap[o.norm] == k && DayOfWeek(o.date) == d then 1 else 0)))
  {
    assert orders[..i + 1][..i] == orders[..i];
  }

  /** A name that has received nothing has every tally zero. */
  lemma {:induction false} ZeroTally(orders: seq<Order>, nameMap: map<string, string>, weekStart: Minutes, k: string)
    requires k !in CountedKeys(orders, nameMap, weekStart)
    ensures forall d :: Tally(orders, nameMap, weekStart, k, d) == 0
  {
    if orders != [] {
      ZeroTally(orders[..|orders| - 1], nameMap, weekStart, k);
    }
  }

  lemma {:induction false} ZeroSum(s: seq<int>)
    requires forall i :: 0 <= i < |s| ==> s[i] == 0
    ensures SeqSum(s) == 0
  {
    if s != [] {
      ZeroSum(s[1..]);
    }
  }

  lemma {:induction false} BumpSum(s: seq<int>, d: int)
    requires 0 <= d < |s|
    ensures SeqSum(s[d := s[d] + 1]) == SeqSum(s) + 1
  {
    if d > 0 {
      assert s[d := s[d] + 1][1..] == s[1..][d - 1 := s[d] + 1];
      BumpSum(s[1..], d - 1);
    }
  }

  /** The total does not depend on which name `MapTotal` happens to pick first. */
  lemma {:induction false} MapTotalPick(m: map<string, seq<int>>, k: string)
    requires k in m
    ensures MapTotal(m) == SeqSum(m[k]) + MapTotal(m - {k})
    decreases |m.Keys|
  {
    var j :| j in m && MapTotal(m) == SeqSum(m[j]) + MapTotal(m - {j});
    if j != k {
      var mj := m - {j};
      var mk := m - {k};
      assert |mj.Keys| < |m.Keys| by { assert mj.Keys < m.Keys; }
      assert |mk.Keys| < |m.Keys| by { assert mk.Keys < m.Keys; }
      MapTotalPick(mj, k);
      MapTotalPick(mk, j);
      assert mj - {k} == mk - {j};
    }
  }

  lemma MapTotalUpdate(m: map<string, seq<int>>, k: string, v: seq<int>)
    ensures MapTotal(m[k := v]) == MapTotal(m) - (if k in m then SeqSum(m[k]) else 0) + SeqSum(v)
  {
    MapTotalPick(m[k := v], k);
    assert m[k := v] - {k} == m - {k};
    if k in m {
      MapTotalPick(m, k);
    } else {
      assert m - {k} == m;
    }
  }

  /** A name has counters exactly when some order in the week is mapped to it. */
  lemma {:induction false} CountedKeysIff(orders: seq<Order>, nameMap: map<string, string>, weekStart: Minutes, k: string)
    ensures k in CountedKeys(orders, nameMap, weekStart)
        <==> exists i :: 0 <= i < |orders| && Counted(orders[i], nameMap, weekStart) && nameMap[orders[i].norm] == k
  {
    if orders != [] {
      var init := orders[..|orders| - 1];
      CountedKeysIff(init, nameMap, weekStart, k);
      if exists i :: 0 <= i < |init| && Counted(init[i], nameMap, weekStart) && nameMap[init[i].norm] == k {
        var i :| 0 <= i < |init| && Counted(init[i], nameMap, weekStart) && nameMap[init[i].norm] == k;
        assert orders[i] == init[i];
      }
      if exists i :: 0 <= i < |orders| && Counted(orders[i], nameMap, weekStart) && nameMap[orders[i].norm] == k {
        var i :| 0 <= i < |orders| && Counted(orders[i], nameMap, weekStart) && nameMap[orders[i].norm] == k;
        if i < |init| {
          assert init[i] == orders[i];
        }
      }
    }
  }

  /** Orders outside the week, unmatched, or matched to "" never change any counter. */
  lemma {:induction false} UncountedIgnored(orders: seq<Order>, o: Order, nameMap: map<string, string>, weekStart: Minutes, k: string, d: int)
    requires !Counted(o, nameMap, weekStart)
    ensures Tally(orders + [o], nameMap, weekStart, k, d) == Tally(orders, nameMap, weekStart, k, d)
    ensures CountedKeys(orders + [o], nameMap, weekStart) == CountedKeys(orders, nameMap, weekStart)
    ensures CountedTotal(orders + [o], nameMap, weekStart) == CountedTotal(orders, nameMap, weekStart)
  {
    assert (orders + [o])[..|orders|] == orders;
  }

  /** Every counted order adds at least one to its own slot. */
  lemma {:induction false} TallyHasOrder(orders: seq<Order>, i: int, nameMap: map<string, string>, weekStart: Minutes)
    requires 0 <= i < |orders| && Counted(orders[i], nameMap, weekStart)
    ensures Tally(orders, nameMap, weekStart, nameMap[orders[i].norm], DayOfWeek(orders[i].date)) >= 1
  {
    var n := |orders| - 1;
    if i < n {
      var init := orders[..n];
      assert init[i] == orders[i];
      TallyHasOrder(init, i, nameMap, weekStart);
    }
  }
}
