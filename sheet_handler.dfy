/** The in-memory logic of the request handler in index.js, lifted out of its
    callbacks: the header trim of `readHeader`, the rows-to-records mapping of
    `readSheet`, the records-to-rows projection of `insertSheet`, the path
    parsing of `extractRequest` and the row range of `deleteSheet`. */
module SheetHandler {
  import opened Strings
  import opened Records
  import opened SheetHelper

  /** The cells the Sheets API returns for a range, row by row. */
  type Grid = seq<seq<string>>

  /** `readHeader`: the first row of the range with every cell trimmed, or
      no header at all when the range has no rows. */
  function ReadHeader(rows: Grid): (header: seq<string>)
    ensures rows == [] ==> header == []
    ensures rows != [] ==> |header| == |rows[0]|
    ensures forall i :: 0 <= i < |header| ==> header[i] == Trim(rows[0][i]) && IsTrimmed(header[i])
  {
    if |rows| == 0 then [] else TrimAllCells(rows[0]); TrimAll(rows[0])
  }

  /** The property key `tmp[headerRow[index]]` writes to: the header name, or
      "undefined" for a cell past the end of the header. */
  function HeaderKey(headerRow: seq<string>, index: nat): (k: string)
    ensures k in headerRow || k == "undefined"
    ensures index < |headerRow| ==> k == headerRow[index]
  {
    if index < |headerRow| then headerRow[index] else "undefined"
  }

  /** The assignments `row.map((cell, index) => tmp[headerRow[index]] = cell)`
      performs, in order. */
  function RowEntries(headerRow: seq<string>, row: seq<string>): (es: seq<Entry>)
    ensures |es| == |row|
    ensures forall i :: 0 <= i < |row| ==> es[i] == (HeaderKey(headerRow, i), Str(row[i]))
  {
    seq(|row|, i requires 0 <= i < |row| => (HeaderKey(headerRow, i), Str(row[i])))
  }

  /** The record `readSheet` builds for one data row. */
  function RecordOfRow(headerRow: seq<string>, row: seq<string>): Record {
    FromEntries(RowEntries(headerRow, row))
  }

  /** The callback `(row) => { let tmp = {}; ...; return tmp; }` of
      `readSheet`: each cell is assigned under the header name of its column,
      a later cell overwriting an earlier one under the same name. */
  method RowToRecord(headerRow: seq<string>, row: seq<string>) returns (tmp: Record)
    ensures tmp == RecordOfRow(headerRow, row)
  {
    tmp := [];
    for index := 0 to |row|
      invariant tmp == FromEntries(RowEntries(headerRow, row[..index]))
    {
      assert RowEntries(headerRow, row[..index + 1])[..index] == RowEntries(headerRow, row[..index]);
      tmp := Assign(tmp, HeaderKey(headerRow, index), Str(row[index]));
    }
    assert row[..|row|] == row;
  }

  /** For a row no longer than the header, the record's keys are the header
      names of the row's cells, each once, in column order. */
  lemma RecordOfRowKeys(headerRow: seq<string>, row: seq<string>)
    requires |row| <= |headerRow|
    ensures Keys(RecordOfRow(headerRow, row)) == Dedup(headerRow[..|row|])
  {
    FromEntriesKeys(RowEntries(headerRow, row));
    assert Keys(RowEntries(headerRow, row)) == headerRow[..|row|];
  }

  /** For a row no longer than the header, the cell in column `i` is the
      value under `headerRow[i]` unless a later cell of the row has the same
      header name: with duplicate names, the later column wins. */
  lemma RecordOfRowCell(headerRow: seq<string>, row: seq<string>, i: nat)
    requires |row| <= |headerRow| && i < |row|
    requires forall m :: i < m < |row| ==> headerRow[m] != headerRow[i]
    ensures Lookup(RecordOfRow(headerRow, row), headerRow[i]) == Some(Str(row[i]))
  {
    var es := RowEntries(headerRow, row);
    FromEntriesLookup(es, headerRow[i]);
    LastValueAt(es, i);
  }

  /** For a row no longer than the header, a name that heads none of the
      row's columns is absent from the record (not mapped to ""); this is the
      case of the columns past the end of a short row. */
  lemma RecordOfRowAbsent(headerRow: seq<string>, row: seq<string>, k: string)
    requires |row| <= |headerRow|
    requires k !in headerRow[..|row|]
    ensures Lookup(RecordOfRow(headerRow, row), k) == None
  {
    var es := RowEntries(headerRow, row);
    FromEntriesLookup(es, k);
    assert Keys(es) == headerRow[..|row|];
    LastValueNone(es, k);
  }

  /** With distinct header names and a row no longer than the header, the
      record pairs `headerRow[i]` with `row[i]` for each cell, in order. */
  lemma RecordOfRowDistinct(headerRow: seq<string>, row: seq<string>)
    requires Distinct(headerRow) && |row| <= |headerRow|
    ensures RecordOfRow(headerRow, row) == seq(|row|, i requires 0 <= i < |row| => (headerRow[i], Str(row[i])))
  {
    var es := RowEntries(headerRow, row);
    assert Keys(es) == headerRow[..|row|];
    FromEntriesDistinct(es);
  }

  /** The `values.get` callback of `readSheet`, given the rows it received:
      a range of at most one row answers `{}`; otherwise the header row is
      trimmed and removed (`rows.shift()`) and every remaining row becomes
      one record, in order. */
  method ReadSheet(grid: Grid) returns (response: Body)
    ensures |grid| <= 1 ==> response == Single([])
    ensures |grid| > 1 ==> && response.List?
                           && |response.recs| == |grid| - 1
                           && forall i :: 0 <= i < |grid| - 1 ==>
                                response.recs[i] == RecordOfRow(TrimAll(grid[0]), grid[i + 1])
  {
    if |grid| <= 1 {
      return Single([]);
    }
    var rows := grid;
    var headerRow := TrimAll(rows[0]);
    rows := rows[1..];
    var records: seq<Record> := [];
    for r := 0 to |rows|
      invariant |records| == r
      invariant forall i :: 0 <= i < r ==> records[i] == RecordOfRow(headerRow, rows[i])
    {
      var tmp := RowToRecord(headerRow, rows[r]);
      records := records + [tmp];
    }
    response := List(records);
  }

  /** `row[element] ? row[element] : ""`: the record's value under `name`
      when it is truthy, otherwise "" (a missing key, "", 0, false and null
      all give ""). */
  function Cell(rec: Record, name: string): (v: Value)
    ensures v == Str("") <==> Lookup(rec, name).None? || !Truthy(Lookup(rec, name).value)
    ensures v != Str("") ==> Lookup(rec, name) == Some(v)
  {
    match Lookup(rec, name)
    case Some(x) => if Truthy(x) then x else Str("")
    case None => Str("")
  }

  /** `header.map((element) => ...)`: one cell per header name, in header
      order. */
  function ProjectRecord(header: seq<string>, rec: Record): (cells: seq<Value>)
    ensures |cells| == |header|
    ensures forall j :: 0 <= j < |header| ==> cells[j] == Cell(rec, header[j])
  {
    seq(|header|, j requires 0 <= j < |header| => Cell(rec, header[j]))
  }

  /** `body.map(...)` of `insertSheet`: one row per body record, in body
      order. A body that is a single object has no `map`, and the callback
      fails; that is `None` here. */
  function InsertRows(header: seq<string>, body: Body): (rows: Option<seq<seq<Value>>>)
    ensures body.Single? <==> rows.None?
    ensures body.List? ==> && |rows.value| == |body.recs|
                           && forall i :: 0 <= i < |body.recs| ==>
                                && |rows.value[i]| == |header|
                                && forall j :: 0 <= j < |header| ==> rows.value[i][j] == Cell(body.recs[i], header[j])
  {
    match body
    case List(recs) => Some(seq(|recs|, i requires 0 <= i < |recs| => ProjectRecord(header, recs[i])))
    case Single(_) => None
  }

  /** Writing back a row that was read: with distinct header names, the
      record of a row projects onto the header as the row itself, padded
      with "" up to the header's width. */
  lemma ProjectRecordOfRow(headerRow: seq<string>, row: seq<string>)
    requires Distinct(headerRow) && |row| <= |headerRow|
    ensures ProjectRecord(headerRow, RecordOfRow(headerRow, row))
            == seq(|headerRow|, j requires 0 <= j < |headerRow| => if j < |row| then Str(row[j]) else Str(""))
  {
    var rec := RecordOfRow(headerRow, row);
    forall j | 0 <= j < |headerRow|
      ensures Cell(rec, headerRow[j]) == if j < |row| then Str(row[j]) else Str("")
    {
      if j < |row| {
        RecordOfRowCell(headerRow, row, j);
      } else {
        assert headerRow[j] !in headerRow[..|row|];
        RecordOfRowAbsent(headerRow, row, headerRow[j]);
      }
    }
  }

  /** `req.params[0]`, `req.body` and the `rowNo` query parameter already
      read as an integer. */
  datatype Request = Request(path: string, body: Body, rowNo: int)

  /** `[spreadsheetId, sheetId, body, rowNo]`. */
  datatype Extracted = Extracted(spreadsheetId: string, sheetId: Value, body: Body, rowNo: int)

  /** The text of `s` before the first `c`, or all of `s`. */
  function Before(s: string, c: char): string {
    if c in s then s[..IndexOf(s, c)] else s
  }

  /** The text of `s` after the first `c`, or "". */
  function After(s: string, c: char): string {
    if c in s then s[IndexOf(s, c) + 1..] else ""
  }

  /** `extractRequest(req)`: the spreadsheet id is the path up to the first
      "/", the sheet id is the next segment, or 0 when there is no next
      segment or it is empty; the body has its keys trimmed. */
  function ExtractRequest(req: Request): (e: Extracted)
    ensures e.spreadsheetId == Before(req.path, '/') && '/' !in e.spreadsheetId
    ensures e.sheetId == Num(0) <==> '/' !in req.path || Before(After(req.path, '/'), '/') == ""
    ensures e.sheetId != Num(0) ==> e.sheetId == Str(Before(After(req.path, '/'), '/'))
    ensures e.body == TrimObjectSpace(req.body) && e.rowNo == req.rowNo
  {
    var params := Split(req.path, '/');
    SplitFirst(req.path, '/');
    SplitFirst(After(req.path, '/'), '/');
    var sheetId := if |params| > 1 && Truthy(Str(params[1])) then Str(params[1]) else Num(0);
    Extracted(params[0], sheetId, TrimObjectSpace(req.body), req.rowNo)
  }

  /** The `deleteDimension` range of `deleteSheet`. */
  datatype DimensionRange = DimensionRange(sheetId: Value, dimension: string, startIndex: int, endIndex: int)

  /** `deleteSheet`'s range: in the rows of the sheet, from `rowNo`
      (inclusive) to `rowNo + 1` (exclusive), that is, the one row `rowNo`. */
  function DeleteRange(sheetId: Value, rowNo: int): (r: DimensionRange)
    ensures r.sheetId == sheetId && r.dimension == "ROWS"
    ensures r.startIndex == rowNo && r.endIndex - r.startIndex == 1
  {
    DimensionRange(sheetId, "ROWS", rowNo, rowNo + 1)
  }

  /** `rowsToRecords` of ["Name", "Age"] over ["Alice", "30"] and ["Bob"]:
      the second record has no "Age" key. */
  lemma ReadExample()
    ensures RecordOfRow(["Name", "Age"], ["Alice", "30"]) == [("Name", Str("Alice")), ("Age", Str("30"))]
    ensures RecordOfRow(["Name", "Age"], ["Bob"]) == [("Name", Str("Bob"))]
  {
    RecordOfRowDistinct(["Name", "Age"], ["Alice", "30"]);
    RecordOfRowDistinct(["Name", "Age"], ["Bob"]);
  }

  /** Projecting {Name: "Alice", Age: "30"} and {Name: "Bob", Age: ""} onto
      ["Name", "Age"] gives ["Alice", "30"] and ["Bob", ""]. */
  lemma InsertExample()
    ensures InsertRows(["Name", "Age"], List([[("Name", Str("Alice")), ("Age", Str("30"))],
                                              [("Name", Str("Bob")), ("Age", Str(""))]]))
            == Some([[Str("Alice"), Str("30")], [Str("Bob"), Str("")]])
  {
    var alice := [("Name", Str("Alice")), ("Age", Str("30"))];
    var bob := [("Name", Str("Bob")), ("Age", Str(""))];
    assert Lookup(alice, "Age") == Some(Str("30")) by { assert alice[1..][0].0 == "Age"; }
    assert Lookup(bob, "Age") == Some(Str("")) by { assert bob[1..][0].0 == "Age"; }
    assert ProjectRecord(["Name", "Age"], alice) == [Str("Alice"), Str("30")];
    assert ProjectRecord(["Name", "Age"], bob) == [Str("Bob"), Str("")];
    assert InsertRows(["Name", "Age"], List([alice, bob])).value
        == [ProjectRecord(["Name", "Age"], alice), ProjectRecord(["Name", "Age"], bob)];
  }
}
