/**
 * The week selector: `determine_week`. It counts orders per Sunday-start
 * week in a dictionary that remembers insertion order, then takes Python's
 * `max` over the keys, which keeps the first key with the largest count.
 */
module WeekSelector {
  import opened Calendar
  import opened OrderIngest

  function WeekOf(o: Order): Minutes {
    WeekSunday(o.date)
  }

  /** How many orders fall in the week starting at `s`. */
  function WeekCount(orders: seq<Order>, s: Minutes): nat {
    if orders == [] then 0
    else WeekCount(orders[..|orders| - 1], s) + if WeekOf(orders[|orders| - 1]) == s then 1 else 0
  }

  /** The weeks of the orders, each once, in order of first appearance: the key order of `week_counts`. */
  function Weeks(orders: seq<Order>): seq<Minutes> {
    if orders == [] then []
    else
      var w := Weeks(orders[..|orders| - 1]);
      var s := WeekOf(orders[|orders| - 1]);
      if s in w then w else w + [s]
  }

  /** `determine_week`, less the month name and year. With no orders the week is the one holding `now`. */
  method DetermineWeek(orders: seq<Order>, now: Minutes) returns (weekStart: Minutes)
    ensures IsMidnightSunday(weekStart)
    ensures orders == [] ==> weekStart == WeekSunday(now)
    ensures orders != [] ==> exists i :: 0 <= i < |orders| && WeekOf(orders[i]) == weekStart
    ensures forall i :: 0 <= i < |orders| ==> WeekCount(orders, WeekOf(orders[i])) <= WeekCount(orders, weekStart)
    ensures forall i :: 0 <= i < |orders| && WeekCount(orders, WeekOf(orders[i])) == WeekCount(orders, weekStart)
              ==> exists j :: 0 <= j <= i && WeekOf(orders[j]) == weekStart
  {
    if |orders| == 0 {
      return WeekSunday(now);
    }
    var weekCounts: map<Minutes, nat> := map[];
    var seen: seq<Minutes> := [];
    for i := 0 to |orders|
      invariant seen == Weeks(orders[..i])
      invariant forall s :: s in weekCounts ==> s in seen
      invariant forall m :: 0 <= m < |seen| ==> seen[m] in weekCounts
      invariant forall s :: s in weekCounts ==> weekCounts[s] == WeekCount(orders[..i], s)
    {
      WeeksStep(orders, i);
      var ws := WeekOf(orders[i]);
      if ws in weekCounts {
        weekCounts := weekCounts[ws := weekCounts[ws] + 1];
      } else {
        ZeroWeekCount(orders[..i], ws);
        weekCounts := weekCounts[ws := 1];
        seen := seen + [ws];
      }
    }
    assert orders[..|orders|] == orders;
    WeeksMembers(orders, WeekOf(orders[0]));
    var b;
    b, weekStart := FirstMax(seen, weekCounts);
    ChosenWeek(orders, b);
  }

  /** `max(keys, key=count.get)`: the first key whose count is largest. */
  method FirstMax(keys: seq<Minutes>, count: map<Minutes, nat>) returns (b: nat, best: Minutes)
    requires keys != []
    requires forall m :: 0 <= m < |keys| ==> keys[m] in count
    ensures b < |keys| && best == keys[b]
    ensures forall m :: 0 <= m < |keys| ==> count[keys[m]] <= count[best]
    ensures forall m :: 0 <= m < b ==> count[keys[m]] < count[best]
  {
    b := 0;
    best := keys[0];
    for j := 1 to |keys|
      invariant b < j && best == keys[b]
      invariant forall m :: 0 <= m < j ==> count[keys[m]] <= count[best]
      invariant forall m :: 0 <= m < b ==> count[keys[m]] < count[best]
    {
      if count[keys[j]] > count[best] {
        b, best := j, keys[j];
      }
    }
  }

  /** The first listed week with the largest count is an orders' week, beats every week, and wins ties by first appearance. */
  lemma ChosenWeek(orders: seq<Order>, b: nat)
    requires b < |Weeks(orders)|
    requires forall m :: 0 <= m < |Weeks(orders)| ==> WeekCount(orders, Weeks(orders)[m]) <= WeekCount(orders, Weeks(orders)[b])
    requires forall m :: 0 <= m < b ==> WeekCount(orders, Weeks(orders)[m]) < WeekCount(orders, Weeks(orders)[b])
    ensures exists i :: 0 <= i < |orders| && WeekOf(orders[i]) == Weeks(orders)[b]
    ensures forall i :: 0 <= i < |orders| ==> WeekCount(orders, WeekOf(orders[i])) <= WeekCount(orders, Weeks(orders)[b])
    ensures forall i :: 0 <= i < |orders| && WeekCount(orders, WeekOf(orders[i])) == WeekCount(orders, Weeks(orders)[b])
              ==> exists j :: 0 <= j <= i && WeekOf(orders[j]) == Weeks(orders)[b]
  {
    var seen := Weeks(orders);
    WeeksMembers(orders, seen[b]);
    forall i | 0 <= i < |orders|
      ensures WeekCount(orders, WeekOf(orders[i])) <= WeekCount(orders, seen[b])
      ensures WeekCount(orders, WeekOf(orders[i])) == WeekCount(orders, seen[b])
              ==> exists j :: 0 <= j <= i && WeekOf(orders[j]) == seen[b]
    {
      WeeksMembers(orders, WeekOf(orders[i]));
      var q :| 0 <= q < |seen| && seen[q] == WeekOf(orders[i]);
      if WeekCount(orders, WeekOf(orders[i])) == WeekCount(orders, seen[b]) {
        WeeksOrder(orders, b, q, i);
      }
    }
  }

  /** What one more order does to `Weeks` and `WeekCount`. */
  lemma WeeksStep(orders: seq<Order>, i: int)
    requires 0 <= i < |orders|
    ensures Weeks(orders[..i + 1])
         == if WeekOf(orders[i]) in Weeks(orders[..i]) then Weeks(orders[..i]) else Weeks(orders[..i]) + [WeekOf(orders[i])]
    ensures forall s :: WeekCount(orders[..i + 1], s) == WeekCount(orders[..i], s) + if WeekOf(orders[i]) == s then 1 else 0
  {
    assert orders[..i + 1][..i] == orders[..i];
  }

  lemma {:induction false} ZeroWeekCount(orders: seq<Order>, s: Minutes)
    requires s !in Weeks(orders)
    ensures WeekCount(orders, s) == 0
  {
    if orders != [] {
      ZeroWeekCount(orders[..|orders| - 1], s);
    }
  }

  /** A week is listed exactly when some order falls in it. */
  lemma {:induction false} WeeksMembers(orders: seq<Order>, s: Minutes)
    ensures s in Weeks(orders) <==> exists i :: 0 <= i < |orders| && WeekOf(orders[i]) == s
  {
    if orders != [] {
      var init := orders[..|orders| - 1];
      WeeksMembers(init, s);
      if exists i :: 0 <= i < |init| && WeekOf(init[i]) == s {
        var i :| 0 <= i < |init| && WeekOf(init[i]) == s;
        assert orders[i] == init[i];
      }
      if exists i :: 0 <= i < |orders| && WeekOf(orders[i]) == s {
        var i :| 0 <= i < |orders| && WeekOf(orders[i]) == s;
        if i < |init| {
          assert init[i] == orders[i];
        }
      }
    }
  }

  /** No week is listed twice. */
  lemma {:induction false} WeeksDistinct(orders: seq<Order>)
    ensures forall a, b :: 0 <= a < b < |Weeks(orders)| ==> Weeks(orders)[a] != Weeks(orders)[b]
  {
    if orders != [] {
      WeeksDistinct(orders[..|orders| - 1]);
    }
  }

  /** A week listed earlier has an order no later than any order of a week listed later. */
  lemma {:induction false} WeeksOrder(orders: seq<Order>, p: int, q: int, i: int)
    requires 0 <= p <= q < |Weeks(orders)|
    requires 0 <= i < |orders| && WeekOf(orders[i]) == Weeks(orders)[q]
    ensures exists j :: 0 <= j <= i && WeekOf(orders[j]) == Weeks(orders)[p]
  {
    var n := |orders| - 1;
    var init := orders[..n];
    var w := Weeks(init);
    if p == q {
      return;
    }
    if q < |w| {
      assert Weeks(orders)[q] == w[q] && Weeks(orders)[p] == w[p];
      var i' := i;
      if i == n {
        WeeksMembers(init, w[q]);
        i' :| 0 <= i' < |init| && WeekOf(init[i']) == w[q];
      }
      assert WeekOf(init[i']) == w[q];
      WeeksOrder(init, p, q, i');
      var j :| 0 <= j <= i' && WeekOf(init[j]) == w[p];
      assert orders[j] == init[j];
    } else {
      assert Weeks(orders)[p] == w[p];
      if i < n {
        assert WeekOf(init[i]) == Weeks(orders)[q];
        WeeksMembers(init, Weeks(orders)[q]);
      }
      WeeksMembers(init, w[p]);
      var j :| 0 <= j < |init| && WeekOf(init[j]) == w[p];
      assert orders[j] == init[j];
    }
  }
}
