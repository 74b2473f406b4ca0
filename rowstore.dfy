/** The Google Sheets spreadsheet the webhook reads and writes, held in memory.  A read
    returns the rows of an A1-style range the way the Sheets values API reports them:
    cells cut to the range's columns, empty cells at the end of a row and empty rows at
    the end of the range left out. */
module RowStore {
  import opened Wrappers
  import opened Decimal

  /** An opaque reading of the wall clock (Go's time.Now()). */
  datatype Timestamp = Timestamp(nanos: int)

  /** A cell value as Go sees it through interface{}. */
  datatype Cell = IntCell(i: int) | StrCell(s: string) | TimeCell(at: Timestamp) | OtherCell

  type Row = seq<Cell>

  /** sheet[k] is spreadsheet row k + 1, as far as its last non-empty cell. */
  type Sheet = seq<Row>

  /** A rectangular range such as A2:J240, by column letter and 1-based row number. */
  datatype Range = Range(fromCol: char, fromRow: int, toCol: char, toRow: int)

  /** The A1 notation of a range. */
  function A1(r: Range): string
  {
    [r.fromCol] + Itoa(r.fromRow) + ":" + [r.toCol] + Itoa(r.toRow)
  }

  predicate ValidRange(r: Range)
  {
    'A' <= r.fromCol <= r.toCol <= 'Z' && 1 <= r.fromRow <= r.toRow
  }

  /** Spreadsheet row k; rows past the end of the sheet are empty. */
  function SheetRow(sheet: Sheet, k: int): Row
  {
    if 1 <= k <= |sheet| then sheet[k - 1] else []
  }

  /** The 0-based index of a range's first column. */
  function FirstColumn(r: Range): nat
    requires ValidRange(r)
  {
    r.fromCol as int - 'A' as int
  }

  /** One past the last of the range's columns that the row has a cell in. */
  function ColumnsEnd(row: Row, r: Range): (end: nat)
    requires ValidRange(r)
    ensures end <= |row|
  {
    var hi := r.toCol as int - 'A' as int + 1;
    if hi < |row| then hi else |row|
  }

  /** An empty cell: the values API reports it as the empty string. */
  predicate Blank(c: Cell)
  {
    c == StrCell("")
  }

  /** One past the last non-empty cell among row[lo..end], or lo when they are all empty. */
  function KeptEnd(row: Row, lo: nat, end: nat): (e: nat)
    requires lo <= end <= |row|
    ensures lo <= e <= end
    decreases end
  {
    if end == lo then lo
    else if Blank(row[end - 1]) then KeptEnd(row, lo, end - 1)
    else end
  }

  /** KeptEnd stops after a non-empty cell, and only empty cells lie beyond it. */
  lemma {:induction false} KeptEndBlank(row: Row, lo: nat, end: nat)
    requires lo <= end <= |row|
    ensures var e := KeptEnd(row, lo, end);
            (e == lo || !Blank(row[e - 1])) && forall k :: e <= k < end ==> Blank(row[k])
    decreases end
  {
    if end != lo && Blank(row[end - 1]) {
      KeptEndBlank(row, lo, end - 1);
    }
  }

  /** The cells of a row that a read of range r reports: those in r's columns, without
      the empty cells at the end. */
  function CutToRange(row: Row, r: Range): Row
    requires ValidRange(r)
  {
    var lo := FirstColumn(r);
    var end := ColumnsEnd(row, r);
    if end <= lo then [] else row[lo..KeptEnd(row, lo, end)]
  }

  /** How many of the first n rows remain once the empty rows at the end are left out. */
  function KeptRows(rows: seq<Row>, n: nat): (m: nat)
    requires n <= |rows|
    ensures m <= n
    decreases n
  {
    if n == 0 then 0
    else if |rows[n - 1]| == 0 then KeptRows(rows, n - 1)
    else n
  }

  /** The rows kept end with a non-empty one, and only empty rows are left out. */
  lemma {:induction false} KeptRowsEmpty(rows: seq<Row>, n: nat)
    requires n <= |rows|
    ensures var m := KeptRows(rows, n);
            (m == 0 || |rows[m - 1]| > 0) && forall k :: m <= k < n ==> |rows[k]| == 0
    decreases n
  {
    if n != 0 && |rows[n - 1]| == 0 {
      KeptRowsEmpty(rows, n - 1);
    }
  }

  /** Every row of a valid range, cut to its columns, empty ones included. */
  function RangeRows(sheet: Sheet, r: Range): (rows: seq<Row>)
    requires ValidRange(r)
    ensures |rows| == r.toRow - r.fromRow + 1
    ensures forall i :: 0 <= i < |rows| ==> rows[i] == CutToRange(SheetRow(sheet, r.fromRow + i), r)
  {
    seq(r.toRow - r.fromRow + 1, i requires 0 <= i => CutToRange(SheetRow(sheet, r.fromRow + i), r))
  }

  /** spreadsheets.values.get: the store refuses a range that names row 0 or below or is
      reversed; otherwise it returns the range's rows, cut to its columns, without the
      empty rows at the end. */
  function Read(sheet: Sheet, r: Range): (res: Result<seq<Row>>)
    ensures res.Err? <==> !ValidRange(r)
    ensures res.Err? ==> res.failure == StoreReadFailed(A1(r))
    ensures res.Ok? ==> |res.value| <= r.toRow - r.fromRow + 1
    ensures res.Ok? ==> forall i :: 0 <= i < |res.value| ==>
      res.value[i] == CutToRange(SheetRow(sheet, r.fromRow + i), r)
  {
    if !ValidRange(r) then Err(StoreReadFailed(A1(r)))
    else
      var rows := RangeRows(sheet, r);
      Ok(rows[..KeptRows(rows, |rows|)])
  }

  /** The rows a read leaves out at the end of the range have no cell in it. */
  lemma ReadDropsEmptyRows(sheet: Sheet, r: Range)
    requires ValidRange(r)
    ensures var rows := Read(sheet, r).value;
            forall k :: r.fromRow + |rows| <= k <= r.toRow ==> CutToRange(SheetRow(sheet, k), r) == []
  {
    var all := RangeRows(sheet, r);
    var m := KeptRows(all, |all|);
    KeptRowsEmpty(all, |all|);
    forall k | r.fromRow + m <= k <= r.toRow ensures CutToRange(SheetRow(sheet, k), r) == [] {
      var i := k - r.fromRow;
      assert |all[i]| == 0;
      assert all[i] == CutToRange(SheetRow(sheet, r.fromRow + i), r);
    }
  }

  /** The last row a read reports has a cell in the range. */
  lemma ReadEndsNonEmpty(sheet: Sheet, r: Range)
    requires ValidRange(r)
    ensures var rows := Read(sheet, r).value; rows == [] || |rows[|rows| - 1]| > 0
  {
    var all := RangeRows(sheet, r);
    KeptRowsEmpty(all, |all|);
  }

  /** A read never reports a row past the end of the sheet. */
  lemma ReadWithinSheet(sheet: Sheet, r: Range)
    requires ValidRange(r)
    ensures var rows := Read(sheet, r).value; rows != [] ==> r.fromRow + |rows| - 1 <= |sheet|
  {
    var all := RangeRows(sheet, r);
    var m := KeptRows(all, |all|);
    KeptRowsEmpty(all, |all|);
    assert |Read(sheet, r).value| == m;
    if m > 0 {
      var i := m - 1;
      assert |all[i]| > 0;
      assert all[i] == CutToRange(SheetRow(sheet, r.fromRow + i), r);
      NonEmptyCutInSheet(sheet, r, r.fromRow + i);
    }
  }

  /** Reading a single row gives that row when it has a cell in the range, and no rows at
      all when it is empty or past the end of the sheet. */
  lemma ReadOneRow(sheet: Sheet, r: Range)
    requires ValidRange(r) && r.fromRow == r.toRow
    ensures var row := CutToRange(SheetRow(sheet, r.fromRow), r);
            Read(sheet, r) == Ok(if row == [] then [] else [row])
  {
    var rows := Read(sheet, r).value;
    if rows != [] {
      assert rows == [rows[0]];
    }
  }

  /** The cells a read reports of a row are the row's cells from the range's first column
      on, in place; the last of them is not empty, and only empty cells of the range's
      columns come after it. */
  lemma CutToRangeCells(row: Row, r: Range)
    requires ValidRange(r)
    ensures var cells := CutToRange(row, r);
            cells == [] || FirstColumn(r) + |cells| <= ColumnsEnd(row, r)
    ensures var cells := CutToRange(row, r);
            forall j :: 0 <= j < |cells| ==> cells[j] == row[FirstColumn(r) + j]
    ensures var cells := CutToRange(row, r);
            cells == [] || !Blank(cells[|cells| - 1])
    ensures var cells := CutToRange(row, r);
            forall k :: FirstColumn(r) + |cells| <= k < ColumnsEnd(row, r) ==> Blank(row[k])
  {
    var lo := FirstColumn(r);
    var end := ColumnsEnd(row, r);
    if lo < end {
      KeptEndBlank(row, lo, end);
    }
  }

  /** A row reads as empty exactly when every cell it has in the range's columns is empty. */
  lemma CutToRangeEmpty(row: Row, r: Range)
    requires ValidRange(r)
    ensures CutToRange(row, r) == [] <==>
            forall k :: FirstColumn(r) <= k < ColumnsEnd(row, r) ==> Blank(row[k])
  {
    CutToRangeCells(row, r);
  }

  /** Only a row of the sheet can have a cell in a range. */
  lemma NonEmptyCutInSheet(sheet: Sheet, r: Range, k: int)
    requires ValidRange(r) && |CutToRange(SheetRow(sheet, k), r)| > 0
    ensures 1 <= k <= |sheet|
  {
  }

  /** A read reports every row of the range up to its last row with a cell in range. */
  lemma ReadReachesNonEmptyRow(sheet: Sheet, r: Range, k: int)
    requires ValidRange(r) && r.fromRow <= k <= r.toRow
    requires CutToRange(SheetRow(sheet, k), r) != []
    ensures |Read(sheet, r).value| > k - r.fromRow
  {
    ReadDropsEmptyRows(sheet, r);
  }

  /** One cell range and the rows written into it by a batch update. */
  datatype ValueRange = ValueRange(writeRange: string, values: seq<Row>)

  /** A write request the webhook sends to the store. */
  datatype StoreCall =
    | Append(appendRange: string, rows: seq<Row>)     // spreadsheets.values.append
    | BatchUpdate(data: seq<ValueRange>)              // spreadsheets.values.batchUpdate
}
