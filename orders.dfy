/**
 * The order ingestor: the row filter of `load_orders`. CSV decoding and
 * `parse_date` (a `strptime` call) happen before this model starts: each row
 * arrives as its `Place`, `Status` and `Date` cells, where a cell past the end
 * of a row shorter than the header is `None` (the filler `csv.DictReader`
 * uses) and a column the file lacks reads as "". A `Date` text cell arrives
 * already parsed, `None` when parsing failed.
 */
module OrderIngest {
  import opened Wrappers
  import opened Text
  import opened Normalizer
  import opened Calendar

  /** The `Date` cell: the reader's `None` filler, or text and what `parse_date` made of it. */
  datatype DateCell = Filler | Given(parsed: Option<Minutes>)

  datatype OrderRow = OrderRow(place: Option<string>, status: Option<string>, date: DateCell)

  /** An ingested order: stripped display name, timestamp and normalised key. */
  datatype Order = Order(place: string, date: Minutes, norm: string)

  /** `.strip()` on a `None` filler raises, and nothing in `load_orders` catches it. */
  datatype OrderError = NoneCell

  /** Place keys whose orders are never counted. */
  const ExcludedPlaces: set<string> := {"opi orders"}

  const ExcludedStatuses: set<string> := {"cancelled", "rejected by place"}

  /** One of the three cells `load_orders` reads is the `None` filler. */
  predicate MissingCell(r: OrderRow) {
    r.place.None? || r.status.None? || r.date.Filler?
  }

  /** Some row misses one of those cells; defined row by row, as the loop meets them. */
  predicate HasMissingCell(rows: seq<OrderRow>) {
    rows != [] && (HasMissingCell(rows[..|rows| - 1]) || MissingCell(rows[|rows| - 1]))
  }

  /** A row survives the four tests of `load_orders`. */
  predicate Keep(r: OrderRow) {
    && !MissingCell(r)
    && var place := Strip(r.place.value);
    && place != ""
    && r.date.parsed.Some?
    && Normalize(place) !in ExcludedPlaces
    && Lower(Strip(r.status.value)) !in ExcludedStatuses
  }

  function ToOrder(r: OrderRow): Order
    requires Keep(r)
  {
    var place := Strip(r.place.value);
    Order(place, r.date.parsed.value, Normalize(place))
  }

  /** What one row contributes: its order, or nothing. */
  function KeptOne(r: OrderRow): seq<Order> {
    if Keep(r) then [ToOrder(r)] else []
  }

  /** The orders the kept rows become, in row order. */
  function Kept(rows: seq<OrderRow>): seq<Order> {
    if rows == [] then []
    else Kept(rows[..|rows| - 1]) + KeptOne(rows[|rows| - 1])
  }

  /**
   * `load_orders`: one pass over the rows, appending each kept one. The first
   * row too short to reach its `Place`, `Status` or `Date` column aborts the
   * whole load, discarding the orders gathered so far.
   */
  method LoadOrders(rows: seq<OrderRow>) returns (result: Result<seq<Order>, OrderError>)
    ensures result == if HasMissingCell(rows) then Failure(NoneCell) else Success(Kept(rows))
  {
    var orders := [];
    for i := 0 to |rows|
      invariant !HasMissingCell(rows[..i])
      invariant orders == Kept(rows[..i])
    {
      assert rows[..i + 1][..i] == rows[..i];
      var r := rows[i];
      if r.place.None? || r.status.None? || r.date.Filler? {
        MissingCellPrefix(rows, i + 1);
        return Failure(NoneCell);
      }
      var place := Strip(r.place.value);
      var status := Strip(r.status.value);
      var date := r.date.parsed;
      if place == "" || date.None? {
        continue;
      }
      if Normalize(place) in ExcludedPlaces {
        continue;
      }
      if Lower(status) in ExcludedStatuses {
        continue;
      }
      orders := orders + [Order(place, date.value, Normalize(place))];
    }
    assert rows[..|rows|] == rows;
    return Success(orders);
  }

  /** A row of a prefix that misses a cell is a row of the whole file that misses it. */
  lemma {:induction false} MissingCellPrefix(rows: seq<OrderRow>, n: nat)
    requires n <= |rows| && HasMissingCell(rows[..n])
    ensures HasMissingCell(rows)
    decreases |rows| - n
  {
    if n < |rows| {
      assert rows[..n + 1][..n] == rows[..n];
      MissingCellPrefix(rows, n + 1);
    } else {
      assert rows[..n] == rows;
    }
  }

  /** The load fails exactly when some row misses its `Place`, `Status` or `Date` cell. */
  lemma {:induction false} HasMissingCellIff(rows: seq<OrderRow>)
    ensures HasMissingCell(rows) <==> exists i :: 0 <= i < |rows| && MissingCell(rows[i])
  {
    if rows != [] {
      var init := rows[..|rows| - 1];
      HasMissingCellIff(init);
      if exists i :: 0 <= i < |rows| && MissingCell(rows[i]) {
        var i :| 0 <= i < |rows| && MissingCell(rows[i]);
        if i < |init| {
          assert init[i] == rows[i];
        }
      }
      if HasMissingCell(init) {
        var i :| 0 <= i < |init| && MissingCell(init[i]);
        assert rows[i] == init[i];
      }
    }
  }

  /** Filtering respects concatenation: the kept orders keep their rows' relative order. */
  lemma {:induction false} KeptAppend(a: seq<OrderRow>, b: seq<OrderRow>)
    ensures Kept(a + b) == Kept(a) + Kept(b)
    decreases |b|
  {
    if b == [] {
      assert a + b == a;
    } else {
      var b' := b[..|b| - 1];
      assert (a + b)[..|a + b| - 1] == a + b';
      assert (a + b)[|a + b| - 1] == b[|b| - 1];
      assert Kept(a + b) == Kept(a + b') + KeptOne(b[|b| - 1]);
      assert Kept(b) == Kept(b') + KeptOne(b[|b| - 1]);
      KeptAppend(a, b');
    }
  }

  /** `strip` of a stripped string changes nothing. */
  lemma StripIdempotent(s: string)
    ensures Strip(Strip(s)) == Strip(s)
  {
    var t := Strip(s);
    StripEnds(s);
    assert TrimLeft(t) == t;
    assert TrimRight(t) == t;
  }

  /** Every kept order comes from a row that passes all four tests, and carries that row's stripped place and its key. */
  lemma {:induction false} KeptFromRows(rows: seq<OrderRow>, o: Order)
    requires o in Kept(rows)
    ensures exists r :: r in rows && Keep(r) && o == ToOrder(r)
    ensures o.place != "" && Strip(o.place) == o.place
    ensures o.norm == Normalize(o.place) && o.norm !in ExcludedPlaces
  {
    var init := rows[..|rows| - 1];
    var last := rows[|rows| - 1];
    if o in Kept(init) {
      KeptFromRows(init, o);
      var r :| r in init && Keep(r) && o == ToOrder(r);
      assert r in rows;
    } else {
      assert o in KeptOne(last);
      StripIdempotent(last.place.value);
    }
  }

  /** Every row that passes the four tests yields an order. */
  lemma {:induction false} KeptHasRow(rows: seq<OrderRow>, i: nat)
    requires i < |rows| && Keep(rows[i])
    ensures ToOrder(rows[i]) in Kept(rows)
  {
    var j := |rows| - 1;
    var last := rows[j];
    var pre := Kept(rows[..j]);
    assert Kept(rows) == pre + KeptOne(last);
    if i < j {
      assert rows[..j][i] == rows[i];
      KeptHasRow(rows[..j], i);
    } else {
      var o := ToOrder(last);
      assert KeptOne(last) == [o];
      assert Kept(rows)[|pre|] == o;
    }
  }
}
