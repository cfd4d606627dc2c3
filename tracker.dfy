/**
 * The tracker ingestor: `load_scorecard`, for both encodings of the
 * compliance tracker. Byte decoding, `csv.reader` and `openpyxl` happen
 * before this model starts: a CSV tracker arrives as its rows of cell texts,
 * a workbook's first sheet as its rows of cell values. In both, the first
 * four rows are the header and every later row describes one restaurant:
 * name, tip-and-tag, Instagram, Facebook, Google, then Sunday..Saturday.
 */
module TrackerIngest {
  import opened Wrappers
  import opened Text
  import opened Normalizer

  /** A coerced cell: Python's `True`, `False` or the string "NA". */
  datatype Tri = Yes | No | NA

  datatype TrackerRecord = TrackerRecord(
    displayName: string,
    tipTag: Tri, ig: Tri, fb: Tri, google: Tri,
    stories: seq<Tri>,
    score: int)

  /** A worksheet cell value as the workbook reader hands it over. */
  datatype XCell = Blank | Str(s: string) | Bool(b: bool) | Num(n: int)

  /** What one data row does to the table being built. */
  datatype RowOutcome = Skip | Put(key: string, rec: TrackerRecord) | Crash

  /** A name cell that is neither empty nor text: `name.strip()` raises. */
  datatype LoadError = NameNotText

  /** Rows before this index are header rows (CSV index 4, worksheet row 5). */
  const HeaderRows: nat := 4

  function DataRows<T>(rows: seq<T>): (data: seq<T>)
    ensures |data| == if |rows| <= HeaderRows then 0 else |rows| - HeaderRows
    ensures forall i :: 0 <= i < |data| ==> data[i] == rows[HeaderRows + i]
  {
    if |rows| <= HeaderRows then [] else rows[HeaderRows..]
  }

  /** The number of `Yes` flags. */
  function TrueCount(flags: seq<Tri>): (n: nat)
    ensures n <= |flags|
  {
    if flags == [] then 0 else (if flags[0] == Yes then 1 else 0) + TrueCount(flags[1..])
  }

  /** The score a record must carry: ten points per `Yes` among IG, FB, Google and the seven days. */
  ghost predicate WellScored(r: TrackerRecord) {
    && |r.stories| == 7
    && r.score == 10 * TrueCount([r.ig, r.fb, r.google] + r.stories)
  }

  // ---------------------------------------------------------------- CSV

  /** `val(col_val)` of the CSV branch. */
  function Val(cell: string): (t: Tri)
    ensures (t == Yes) == (Upper(Strip(cell)) == "TRUE")
    ensures (t == NA) == (Upper(Strip(cell)) == "NA")
  {
    var cv := Upper(Strip(cell));
    if cv == "TRUE" then Yes
    else if cv == "FALSE" then No
    else if cv == "NA" then NA
    else No
  }

  /** The record built from a CSV row of at least twelve cells, score included. */
  function CsvRecord(row: seq<string>): TrackerRecord
    requires |row| >= 12
  {
    var counted := seq(10, c requires 0 <= c < 10 => Val(row[2 + c]));
    TrackerRecord(
      Strip(row[0]),
      Val(row[1]), Val(row[2]), Val(row[3]), Val(row[4]),
      seq(7, d requires 0 <= d < 7 => Val(row[5 + d])),
      10 * TrueCount(counted))
  }

  function CsvRow(row: seq<string>): RowOutcome {
    if |row| < 12 then Skip
    else if row[0] == "" || Lower(Strip(row[0])) == "sum" then Skip
    else Put(Normalize(row[0]), CsvRecord(row))
  }

  function CsvOutcomes(rows: seq<seq<string>>): (outs: seq<RowOutcome>)
    ensures |outs| == |DataRows(rows)|
    ensures forall i :: 0 <= i < |outs| ==> outs[i] == CsvRow(DataRows(rows)[i])
  {
    var data := DataRows(rows);
    seq(|data|, i requires 0 <= i < |data| => CsvRow(data[i]))
  }

  // ---------------------------------------------------------------- workbook

  /** `ws.cell(row, column=c).value` for a 1-based column; cells past the end are empty. */
  function Cell(row: seq<XCell>, c: nat): XCell {
    if 1 <= c <= |row| then row[c - 1] else Blank
  }

  /** `val_xl(col)` of the workbook branch. */
  function ValXl(v: XCell): (t: Tri)
    ensures (t == Yes) == (v == Bool(true))
    ensures (t == NA) == (v.Str? && Upper(Strip(v.s)) == "NA")
  {
    match v
    case Bool(b) => if b then Yes else No
    case Str(s) => if Upper(Strip(s)) == "NA" then NA else No
    case _ => No
  }

  /** Python's truth value of a cell: `not name` holds for these. */
  predicate Falsy(v: XCell) {
    v == Blank || v == Str("") || v == Bool(false) || v == Num(0)
  }

  /** The number of cells whose value is exactly `True`. */
  function CountTrueCells(cells: seq<XCell>): nat {
    if cells == [] then 0 else (if cells[0] == Bool(true) then 1 else 0) + CountTrueCells(cells[1..])
  }

  function XlRecord(name: string, row: seq<XCell>): TrackerRecord {
    TrackerRecord(
      Strip(name),
      ValXl(Cell(row, 2)), ValXl(Cell(row, 3)), ValXl(Cell(row, 4)), ValXl(Cell(row, 5)),
      seq(7, d requires 0 <= d < 7 => ValXl(Cell(row, 6 + d))),
      10 * CountTrueCells(seq(10, c requires 0 <= c < 10 => Cell(row, 3 + c))))
  }

  function XlRow(row: seq<XCell>): RowOutcome {
    var name := Cell(row, 1);
    if Falsy(name) then Skip
    else if !name.Str? then Crash
    else if Lower(Strip(name.s)) == "sum" then Skip
    else Put(Normalize(name.s), XlRecord(name.s, row))
  }

  function XlOutcomes(sheet: seq<seq<XCell>>): (outs: seq<RowOutcome>)
    ensures |outs| == |DataRows(sheet)|
    ensures forall i :: 0 <= i < |outs| ==> outs[i] == XlRow(DataRows(sheet)[i])
  {
    var data := DataRows(sheet);
    seq(|data|, i requires 0 <= i < |data| => XlRow(data[i]))
  }

  // ---------------------------------------------------------------- the table

  function Apply(m: map<string, TrackerRecord>, o: RowOutcome): map<string, TrackerRecord> {
    if o.Put? then m[o.key := o.rec] else m
  }

  /** The `restaurants` dict after the outcomes, in order: a later row with the same key overwrites. */
  function Table(outs: seq<RowOutcome>): map<string, TrackerRecord> {
    if outs == [] then map[] else Apply(Table(outs[..|outs| - 1]), outs[|outs| - 1])
  }

  predicate HasCrash(outs: seq<RowOutcome>) {
    exists i :: 0 <= i < |outs| && outs[i].Crash?
  }

  /** `load_scorecard`, CSV branch: rows after the header, each one put, skipped or overwriting. */
  method LoadScorecardCsv(rows: seq<seq<string>>) returns (restaurants: map<string, TrackerRecord>)
    ensures restaurants == Table(CsvOutcomes(rows))
  {
    var data := DataRows(rows);
    ghost var outs := CsvOutcomes(rows);
    restaurants := map[];
    for i := 0 to |data|
      invariant restaurants == Table(outs[..i])
    {
      assert outs[..i + 1][..i] == outs[..i];
      var row := data[i];
      if |row| < 12 {
        continue;
      }
      var name := row[0];
      if name == "" || Lower(Strip(name)) == "sum" {
        continue;
      }
      var norm := Normalize(name);
      restaurants := restaurants[norm := CsvRecord(row)];
    }
    assert outs[..|data|] == outs;
  }

  /** `load_scorecard`, workbook branch: like the CSV branch, but a name cell that is not text aborts the load. */
  method LoadScorecardXlsx(sheet: seq<seq<XCell>>) returns (result: Result<map<string, TrackerRecord>, LoadError>)
    ensures result == if HasCrash(XlOutcomes(sheet)) then Failure(NameNotText) else Success(Table(XlOutcomes(sheet)))
  {
    var data := DataRows(sheet);
    ghost var outs := XlOutcomes(sheet);
    var restaurants := map[];
    for i := 0 to |data|
      invariant !HasCrash(outs[..i])
      invariant restaurants == Table(outs[..i])
    {
      assert outs[..i + 1][..i] == outs[..i];
      var row := data[i];
      var name := Cell(row, 1);
      if Falsy(name) {
        continue;
      }
      if !name.Str? {
        assert outs[i].Crash?;
        return Failure(NameNotText);
      }
      if Lower(Strip(name.s)) == "sum" {
        continue;
      }
      var norm := Normalize(name.s);
      restaurants := restaurants[norm := XlRecord(name.s, row)];
    }
    assert outs[..|data|] == outs;
    return Success(restaurants);
  }

  // ---------------------------------------------------------------- properties

  /** A key is in the table exactly when some row put it there. */
  lemma {:induction false} TableKeys(outs: seq<RowOutcome>, k: string)
    ensures k in Table(outs) <==> exists i :: 0 <= i < |outs| && outs[i].Put? && outs[i].key == k
  {
    if outs != [] {
      var init := outs[..|outs| - 1];
      TableKeys(init, k);
      if exists i :: 0 <= i < |init| && init[i].Put? && init[i].key == k {
        var i :| 0 <= i < |init| && init[i].Put? && init[i].key == k;
        assert outs[i] == init[i];
      }
      if exists i :: 0 <= i < |outs| && outs[i].Put? && outs[i].key == k {
        var i :| 0 <= i < |outs| && outs[i].Put? && outs[i].key == k;
        if i < |init| {
          assert init[i] == outs[i];
        }
      }
    }
  }

  /** Last write wins: the record kept for a key is the one of the last row that put that key. */
  lemma {:induction false} TableLastWins(outs: seq<RowOutcome>, i: nat)
    requires i < |outs| && outs[i].Put?
    requires forall j :: i < j < |outs| ==> !(outs[j].Put? && outs[j].key == outs[i].key)
    ensures outs[i].key in Table(outs) && Table(outs)[outs[i].key] == outs[i].rec
  {
    var n := |outs| - 1;
    var init := outs[..n];
    if i < n {
      assert init[i] == outs[i];
      forall j | i < j < |init| ensures !(init[j].Put? && init[j].key == init[i].key) {
        assert init[j] == outs[j];
      }
      TableLastWins(init, i);
    }
  }

  /** Every record in the table was put by some row. */
  lemma {:induction false} TableFromRows(outs: seq<RowOutcome>, k: string)
    requires k in Table(outs)
    ensures exists i :: 0 <= i < |outs| && outs[i] == Put(k, Table(outs)[k])
  {
    var n := |outs| - 1;
    var init := outs[..n];
    if !(outs[n].Put? && outs[n].key == k) {
      TableFromRows(init, k);
      var i :| 0 <= i < |init| && init[i] == Put(k, Table(init)[k]);
      assert outs[i] == init[i];
    }
  }

  /** The CSV score counts IG, FB, Google and the seven days, and is a multiple of ten in 0..100. */
  lemma CsvRecordScored(row: seq<string>)
    requires |row| >= 12
    ensures WellScored(CsvRecord(row))
    ensures 0 <= CsvRecord(row).score <= 100 && CsvRecord(row).score % 10 == 0
  {
    var r := CsvRecord(row);
    var counted := seq(10, c requires 0 <= c < 10 => Val(row[2 + c]));
    assert counted == [r.ig, r.fb, r.google] + r.stories;
  }

  lemma {:induction false} CountTrueCellsIsTrueCount(cells: seq<XCell>)
    ensures CountTrueCells(cells) == TrueCount(seq(|cells|, i requires 0 <= i < |cells| => ValXl(cells[i])))
  {
    var flags := seq(|cells|, i requires 0 <= i < |cells| => ValXl(cells[i]));
    if cells != [] {
      CountTrueCellsIsTrueCount(cells[1..]);
      assert flags[1..] == seq(|cells| - 1, i requires 0 <= i < |cells| - 1 => ValXl(cells[1..][i]));
    }
  }

  /** The workbook score counts columns C..L whose value is `True`: the same ten flags, a multiple of ten in 0..100. */
  lemma XlRecordScored(name: string, row: seq<XCell>)
    ensures WellScored(XlRecord(name, row))
    ensures 0 <= XlRecord(name, row).score <= 100 && XlRecord(name, row).score % 10 == 0
  {
    var r := XlRecord(name, row);
    var cells := seq(10, c requires 0 <= c < 10 => Cell(row, 3 + c));
    CountTrueCellsIsTrueCount(cells);
    assert seq(10, i requires 0 <= i < 10 => ValXl(cells[i])) == [r.ig, r.fb, r.google] + r.stories;
  }

  /** The tip-and-tag column never moves the score. */
  lemma ScoreIgnoresTipTag(row: seq<string>, cell: string, xrow: seq<XCell>, v: XCell, name: string)
    requires |row| >= 12 && |xrow| >= 2
    ensures CsvRecord(row[1 := cell]).score == CsvRecord(row).score
    ensures XlRecord(name, xrow[1 := v]).score == XlRecord(name, xrow).score
  {
    var a := seq(10, c requires 0 <= c < 10 => Val(row[2 + c]));
    var b := seq(10, c requires 0 <= c < 10 => Val(row[1 := cell][2 + c]));
    assert a == b;
    var x := seq(10, c requires 0 <= c < 10 => Cell(xrow, 3 + c));
    var y := seq(10, c requires 0 <= c < 10 => Cell(xrow[1 := v], 3 + c));
    assert x == y;
  }

  /** Every record the CSV branch keeps is well scored and filed under the normalised name. */
  lemma CsvTableWellFormed(rows: seq<seq<string>>, k: string)
    requires k in Table(CsvOutcomes(rows))
    ensures WellScored(Table(CsvOutcomes(rows))[k])
    ensures exists i :: 0 <= i < |DataRows(rows)| && |DataRows(rows)[i]| >= 12
                        && DataRows(rows)[i][0] != "" && Lower(Strip(DataRows(rows)[i][0])) != "sum"
                        && k == Normalize(DataRows(rows)[i][0])
                        && Table(CsvOutcomes(rows))[k] == CsvRecord(DataRows(rows)[i])
  {
    var outs := CsvOutcomes(rows);
    TableFromRows(outs, k);
    var i :| 0 <= i < |outs| && outs[i] == Put(k, Table(outs)[k]);
    CsvRecordScored(DataRows(rows)[i]);
  }

  /** A row's table key is the normalised form of the display name it stores. */
  lemma RowKeyFromDisplayName(row: seq<string>, xrow: seq<XCell>)
    ensures CsvRow(row).Put? ==> CsvRow(row).key == Normalize(CsvRow(row).rec.displayName)
    ensures XlRow(xrow).Put? ==> XlRow(xrow).key == Normalize(XlRow(xrow).rec.displayName)
  {
    if |row| > 0 {
      NormalizeStrip(row[0]);
    }
    if Cell(xrow, 1).Str? {
      NormalizeStrip(Cell(xrow, 1).s);
    }
  }

  /** The workbook aborts on a row exactly when its name cell is truthy but not text. */
  lemma XlRowCrash(row: seq<XCell>)
    ensures XlRow(row).Crash? <==> (Cell(row, 1) == Bool(true) || (Cell(row, 1).Num? && Cell(row, 1).n != 0))
  {
  }

  /** Every record the workbook branch keeps is well scored and filed under the normalised name. */
  lemma XlTableWellFormed(sheet: seq<seq<XCell>>, k: string)
    requires k in Table(XlOutcomes(sheet))
    ensures WellScored(Table(XlOutcomes(sheet))[k])
    ensures exists i :: 0 <= i < |DataRows(sheet)| && Cell(DataRows(sheet)[i], 1).Str?
                        && Cell(DataRows(sheet)[i], 1).s != "" && Lower(Strip(Cell(DataRows(sheet)[i], 1).s)) != "sum"
                        && k == Normalize(Cell(DataRows(sheet)[i], 1).s)
                        && Table(XlOutcomes(sheet))[k] == XlRecord(Cell(DataRows(sheet)[i], 1).s, DataRows(sheet)[i])
  {
    var outs := XlOutcomes(sheet);
    TableFromRows(outs, k);
    var i :| 0 <= i < |outs| && outs[i] == Put(k, Table(outs)[k]);
    XlRecordScored(Cell(DataRows(sheet)[i], 1).s, DataRows(sheet)[i]);
  }
}
