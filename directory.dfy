/** The invitee directory: the INVITED_FAMILY sheet, one row per invited family, with the
    family's invite code in column D (index 3). */
module Directory {
  import opened Wrappers
  import opened Decimal
  import opened RowStore

  const INVITED_FAMILY := "INVITED_FAMILY"
  /** The directory's last data row. */
  const TOTAL_INVITED_FAMILY := 240
  /** Column D, 0-based. */
  const InviteCodeColumn := 3

  /** extractNumber's two results: the number, or -1 together with an error. */
  datatype Conversion = Conversion(value: int, failed: bool)

  /** extractNumber: an int cell is its own value, a string cell is parsed as decimal, any
      other kind of cell is an error. */
  function ExtractNumber(cell: Cell): (r: Conversion)
    ensures r.failed ==> r.value == -1
    ensures !r.failed <==> cell.IntCell? || (cell.StrCell? && Atoi(cell.s).Some?)
    ensures cell.StrCell? && !r.failed ==> Atoi(cell.s) == Some(r.value)
    ensures cell.IntCell? ==> r.value == cell.i
  {
    match cell
    case StrCell(s) =>
      (match Atoi(s)
       case Some(n) => Conversion(n, false)
       case None => Conversion(-1, true))
    case IntCell(i) => Conversion(i, false)
    case _ => Conversion(-1, true)
  }

  /** A number written into a cell as text by Itoa is read back unchanged. */
  lemma ExtractNumberOfItoa(n: int)
    requires InInt64(n)
    ensures ExtractNumber(StrCell(Itoa(n))) == Conversion(n, false)
  {
    AtoiOfItoa(n);
  }

  lemma ExtractNumberExamples()
    ensures ExtractNumber(StrCell("7")) == Conversion(7, false)
    ensures ExtractNumber(StrCell("abc")) == Conversion(-1, true)
    ensures ExtractNumber(IntCell(-1)) == Conversion(-1, false)
    ensures ExtractNumber(OtherCell) == Conversion(-1, true)
  {
    AtoiExamples();
  }

  /** The range SearchForInvitedFamily reads: every data row, columns A to J. */
  function SearchRange(): (r: Range)
    ensures ValidRange(r)
    ensures A1(r) == "A2:J240"
  {
    ItoaOfLastRow();
    Range('A', 2, 'J', TOTAL_INVITED_FAMILY)
  }

  lemma ItoaOfLastRow()
    ensures Itoa(2) == "2" && Itoa(TOTAL_INVITED_FAMILY) == "240"
  {
    assert NatDigits(24) == NatDigits(2) + ['4'];
    assert NatDigits(240) == NatDigits(24) + ['0'];
  }

  /** getInvitedFamilyRow's range: one row, columns A to J. */
  function InvitedFamilyRowRange(rowNumber: int): (r: Range)
    ensures A1(r) == "A" + Itoa(rowNumber) + ":J" + Itoa(rowNumber)
    ensures ValidRange(r) <==> rowNumber >= 1
    ensures r.fromRow == r.toRow == rowNumber
  {
    Range('A', rowNumber, 'J', rowNumber)
  }

  /** The row has an invite-code cell at all. */
  predicate HasInviteCell(row: Row)
  {
    |row| > InviteCodeColumn
  }

  /** The invite-code cell is there but is not a usable number (an error, or -1). */
  predicate Malformed(row: Row)
  {
    HasInviteCell(row) && (ExtractNumber(row[InviteCodeColumn]).failed || ExtractNumber(row[InviteCodeColumn]).value == -1)
  }

  /** The row is the directory entry for inviteNumber. */
  predicate IsEntryFor(row: Row, inviteNumber: int)
  {
    HasInviteCell(row) && !Malformed(row) && ExtractNumber(row[InviteCodeColumn]).value == inviteNumber
  }

  /** The scan moves past this row: too short to hold a code, or a well-formed other code. */
  predicate PassedOver(row: Row, inviteNumber: int)
  {
    !HasInviteCell(row) || (!Malformed(row) && ExtractNumber(row[InviteCodeColumn]).value != inviteNumber)
  }

  /** Every row is exactly one of passed over, malformed, or the entry sought. */
  lemma RowKinds(row: Row, inviteNumber: int)
    ensures PassedOver(row, inviteNumber) != (Malformed(row) || IsEntryFor(row, inviteNumber))
    ensures !(Malformed(row) && IsEntryFor(row, inviteNumber))
  {
  }

  /** The scan's result from position i on: the first entry for inviteNumber, an error at
      the first malformed row, or an empty row when neither comes up. */
  function ScanFrom(rows: seq<Row>, inviteNumber: int, i: nat): (r: Result<Row>)
    requires i <= |rows|
    ensures r.Ok? ==> r.value == [] || IsEntryFor(r.value, inviteNumber)
    ensures r.Err? ==> r.failure.MalformedInviteCell? && i <= r.failure.entry < |rows|
    decreases |rows| - i
  {
    if i == |rows| then Ok([])
    else if Malformed(rows[i]) then Err(MalformedInviteCell(i))
    else if IsEntryFor(rows[i], inviteNumber) then Ok(rows[i])
    else ScanFrom(rows, inviteNumber, i + 1)
  }

  /** A row whose cells from column D on are all empty reaches the scan with at most three
      cells, so the scan passes over it. */
  lemma BlankCodeCellPassedOver(row: Row, inviteNumber: int)
    requires forall k :: InviteCodeColumn <= k < |row| ==> Blank(row[k])
    ensures PassedOver(CutToRange(row, SearchRange()), inviteNumber)
  {
    var read := CutToRange(row, SearchRange());
    CutToRangeCells(row, SearchRange());
    if read != [] {
      var j := |read| - 1;
      assert read[j] == row[j];
      assert j < InviteCodeColumn;
    }
  }

  /** SearchForInvitedFamily's result on a sheet. */
  function Search(sheet: Sheet, inviteNumber: int): (r: Result<Row>)
    ensures r.Err? ==> r.failure.MalformedInviteCell?
    ensures r.Ok? ==> r.value == [] || IsEntryFor(r.value, inviteNumber)
  {
    match Read(sheet, SearchRange())
    case Err(f) => Err(f)
    case Ok(rows) => ScanFrom(rows, inviteNumber, 0)
  }

  /** SearchForInvitedFamily: read all directory rows and walk them in order, stopping at
      the first entry for inviteNumber. */
  method SearchForInvitedFamily(sheet: Sheet, inviteNumber: int) returns (r: Result<Row>)
    ensures r == Search(sheet, inviteNumber)
  {
    var allInvitedFamilies: seq<Row>;
    match Read(sheet, SearchRange()) {
      case Err(f) => return Err(f);
      case Ok(rows) => allInvitedFamilies := rows;
    }
    var invitedFamily: Row := [];
    var i := 0;
    while i < |allInvitedFamilies|
      invariant 0 <= i <= |allInvitedFamilies|
      invariant ScanFrom(allInvitedFamilies, inviteNumber, i) == ScanFrom(allInvitedFamilies, inviteNumber, 0)
      invariant invitedFamily == []
    {
      var current := allInvitedFamilies[i];
      if |current| > InviteCodeColumn {
        var code := ExtractNumber(current[InviteCodeColumn]);
        if code.failed || code.value == -1 {
          return Err(MalformedInviteCell(i));
        }
        if code.value == inviteNumber {
          invitedFamily := current;
          break;
        }
      }
      i := i + 1;
    }
    return Ok(invitedFamily);
  }

  lemma {:induction false} ScanSkipsPassedRows(rows: seq<Row>, inviteNumber: int, i: nat, j: nat)
    requires i <= j <= |rows|
    requires forall k :: i <= k < j ==> PassedOver(rows[k], inviteNumber)
    ensures ScanFrom(rows, inviteNumber, i) == ScanFrom(rows, inviteNumber, j)
    decreases j - i
  {
    if i < j {
      ScanSkipsPassedRows(rows, inviteNumber, i + 1, j);
    }
  }

  /** The first entry for the code is found when every row before it is passed over. */
  lemma ScanFindsFirstEntry(rows: seq<Row>, inviteNumber: int, j: nat)
    requires j < |rows| && IsEntryFor(rows[j], inviteNumber)
    requires forall k :: 0 <= k < j ==> PassedOver(rows[k], inviteNumber)
    ensures ScanFrom(rows, inviteNumber, 0) == Ok(rows[j])
  {
    ScanSkipsPassedRows(rows, inviteNumber, 0, j);
  }

  /** A malformed row before any entry for the code ends the scan with an error naming it. */
  lemma ScanFailsAtMalformed(rows: seq<Row>, inviteNumber: int, j: nat)
    requires j < |rows| && Malformed(rows[j])
    requires forall k :: 0 <= k < j ==> PassedOver(rows[k], inviteNumber)
    ensures ScanFrom(rows, inviteNumber, 0) == Err(MalformedInviteCell(j))
  {
    ScanSkipsPassedRows(rows, inviteNumber, 0, j);
  }

  /** With no entry and no malformed row the scan gives an empty row and no error. */
  lemma ScanNotFound(rows: seq<Row>, inviteNumber: int)
    requires forall k :: 0 <= k < |rows| ==> PassedOver(rows[k], inviteNumber)
    ensures ScanFrom(rows, inviteNumber, 0) == Ok([])
  {
    ScanSkipsPassedRows(rows, inviteNumber, 0, |rows|);
  }

  /** Every result of the scan is one of those three. */
  lemma {:induction false} ScanOutcome(rows: seq<Row>, inviteNumber: int, i: nat)
    requires i <= |rows|
    ensures var r := ScanFrom(rows, inviteNumber, i);
      && (r == Ok([]) ==> forall k :: i <= k < |rows| ==> PassedOver(rows[k], inviteNumber))
      && (r.Ok? && r.value != [] ==> exists j :: i <= j < |rows| && r.value == rows[j] && IsEntryFor(rows[j], inviteNumber)
                                             && forall k :: i <= k < j ==> PassedOver(rows[k], inviteNumber))
      && (r.Err? ==> exists j :: i <= j < |rows| && r.failure == MalformedInviteCell(j) && Malformed(rows[j])
                                 && forall k :: i <= k < j ==> PassedOver(rows[k], inviteNumber))
    decreases |rows| - i
  {
    if i < |rows| && !Malformed(rows[i]) && !IsEntryFor(rows[i], inviteNumber) {
      ScanOutcome(rows, inviteNumber, i + 1);
    }
  }

  /** Rows too short to hold an invite code are never looked into: swapping one for
      another short row leaves the result unchanged. */
  lemma {:induction false} ScanIgnoresShortRows(rows: seq<Row>, other: seq<Row>, inviteNumber: int, i: nat)
    requires |rows| == |other| && i <= |rows|
    requires forall k :: 0 <= k < |rows| ==>
      rows[k] == other[k] || (!HasInviteCell(rows[k]) && !HasInviteCell(other[k]))
    ensures ScanFrom(rows, inviteNumber, i) == ScanFrom(other, inviteNumber, i)
    decreases |rows| - i
  {
    if i < |rows| {
      ScanIgnoresShortRows(rows, other, inviteNumber, i + 1);
    }
  }

  /** The directory row numbered inviteNumber + 1 (one past the header), as read by
      getInvitedFamilyRow; Go's + wraps around at the top of the int64 range. */
  function DirectRange(inviteNumber: int): (r: Range)
    requires InInt64(inviteNumber)
    ensures ValidRange(r) <==> 0 <= inviteNumber < INT64_MAX
    ensures 0 <= inviteNumber < INT64_MAX ==> r.fromRow == inviteNumber + 1
  {
    InvitedFamilyRowRange(Int64Add(inviteNumber, 1))
  }

  /** The cells, columns A to J, of the row that the direct lookup for inviteNumber reads. */
  function DirectRow(sheet: Sheet, inviteNumber: int): Row
    requires 0 <= inviteNumber
  {
    CutToRange(SheetRow(sheet, inviteNumber + 1), InvitedFamilyRowRange(inviteNumber + 1))
  }

  /** A row whose cells in columns A to J are all empty reads as no row, whatever it holds
      past column J. */
  lemma DirectRowBlankWithinRange(sheet: Sheet, inviteNumber: int, row: Row)
    requires 0 <= inviteNumber && row == SheetRow(sheet, inviteNumber + 1)
    requires forall k :: 0 <= k < |row| && k <= 9 ==> Blank(row[k])
    ensures DirectRow(sheet, inviteNumber) == []
  {
    CutToRangeEmpty(row, InvitedFamilyRowRange(inviteNumber + 1));
  }

  /** findInvitedFamily as its own comment intends it: first the row at the position the
      code names, trusted without looking at its code cell; when that row is empty, the
      scan of the whole directory. */
  function Lookup(sheet: Sheet, inviteCode: string): (r: Result<Row>)
    ensures Atoi(inviteCode).None? ==> r == Err(InviteCodeNotNumeric(inviteCode))
  {
    match Atoi(inviteCode)
    case None => Err(InviteCodeNotNumeric(inviteCode))
    case Some(inviteNumber) => LookupNumber(sheet, inviteNumber)
  }

  /** The lookup once the code has been parsed. */
  function LookupNumber(sheet: Sheet, inviteNumber: int): (r: Result<Row>)
    requires InInt64(inviteNumber)
    ensures r.Err? ==> r.failure == StoreReadFailed(A1(DirectRange(inviteNumber))) || r.failure.MalformedInviteCell?
    ensures r.Ok? && r.value != [] && 0 <= inviteNumber < INT64_MAX && r.value != DirectRow(sheet, inviteNumber) ==>
      IsEntryFor(r.value, inviteNumber)
  {
    match Read(sheet, DirectRange(inviteNumber))
    case Err(f) => Err(f)
    case Ok(rows) =>
      if rows != [] && rows[0] != [] then Ok(rows[0])
      else Search(sheet, inviteNumber)
  }

  /** findInvitedFamily, with the fix for the empty direct row (see LookupAsWritten). */
  method FindInvitedFamily(sheet: Sheet, inviteCode: string) returns (r: Result<Row>)
    ensures r == Lookup(sheet, inviteCode)
  {
    var parsed := Atoi(inviteCode);
    if parsed.None? {
      return Err(InviteCodeNotNumeric(inviteCode));
    }
    var inviteNumber := parsed.value;
    var wrappedInvitedFamily: seq<Row>;
    match Read(sheet, DirectRange(inviteNumber)) {
      case Err(f) => return Err(f);
      case Ok(rows) => wrappedInvitedFamily := rows;
    }
    var invitedFamily: Row := if wrappedInvitedFamily != [] then wrappedInvitedFamily[0] else [];
    if invitedFamily == [] {
      var searched := SearchForInvitedFamily(sheet, inviteNumber);
      if searched.Err? {
        return Err(searched.failure);
      }
      invitedFamily := searched.value;
    }
    return Ok(invitedFamily);
  }

  /** What the lookup gives for a numeric code, by case: the store refuses the row
      number for a negative code or one whose + 1 wraps; a non-empty direct row is
      returned whatever its code cell says; otherwise the scan decides. */
  lemma LookupCases(sheet: Sheet, inviteNumber: int)
    requires InInt64(inviteNumber)
    ensures !(0 <= inviteNumber < INT64_MAX) ==>
      LookupNumber(sheet, inviteNumber) == Err(StoreReadFailed(A1(DirectRange(inviteNumber))))
    ensures 0 <= inviteNumber < INT64_MAX && DirectRow(sheet, inviteNumber) != [] ==>
      LookupNumber(sheet, inviteNumber) == Ok(DirectRow(sheet, inviteNumber))
    ensures 0 <= inviteNumber < INT64_MAX && DirectRow(sheet, inviteNumber) == [] ==>
      LookupNumber(sheet, inviteNumber) == Search(sheet, inviteNumber)
  {
    if 0 <= inviteNumber < INT64_MAX {
      ReadOneRow(sheet, DirectRange(inviteNumber));
    }
  }

  /** A successful lookup gives an empty row or a row of the sheet, cut to columns A to
      J. */
  lemma LookupFindsSheetRow(sheet: Sheet, inviteCode: string)
    requires Lookup(sheet, inviteCode).Ok?
    ensures var row := Lookup(sheet, inviteCode).value;
      row == [] || exists k :: 1 <= k && row == CutToRange(SheetRow(sheet, k), SearchRange())
  {
    LookupNumberFindsSheetRow(sheet, Atoi(inviteCode).value);
  }

  lemma LookupNumberFindsSheetRow(sheet: Sheet, inviteNumber: int)
    requires InInt64(inviteNumber) && LookupNumber(sheet, inviteNumber).Ok?
    ensures var row := LookupNumber(sheet, inviteNumber).value;
      row == [] || exists k :: 1 <= k && row == CutToRange(SheetRow(sheet, k), SearchRange())
  {
    LookupCases(sheet, inviteNumber);
    if DirectRow(sheet, inviteNumber) == [] {
      SearchFindsSheetRow(sheet, inviteNumber);
    } else {
      assert LookupNumber(sheet, inviteNumber).value == CutToRange(SheetRow(sheet, inviteNumber + 1), SearchRange());
    }
  }

  lemma SearchFindsSheetRow(sheet: Sheet, inviteNumber: int)
    requires Search(sheet, inviteNumber).Ok?
    ensures var row := Search(sheet, inviteNumber).value;
      row == [] || exists k :: 1 <= k && row == CutToRange(SheetRow(sheet, k), SearchRange())
  {
    var row := Search(sheet, inviteNumber).value;
    if row != [] {
      var rows := Read(sheet, SearchRange()).value;
      ScanOutcome(rows, inviteNumber, 0);
      var j :| 0 <= j < |rows| && row == rows[j];
      assert row == CutToRange(SheetRow(sheet, 2 + j), SearchRange());
    }
  }

  /** findInvitedFamily as written: it takes element 0 of the direct read before asking
      whether the row is empty, so an empty direct row, which the store reports as no rows
      at all, is an index out of range. */
  function LookupAsWritten(sheet: Sheet, inviteCode: string): (r: Result<Row>)
    ensures Atoi(inviteCode).None? ==> r == Err(InviteCodeNotNumeric(inviteCode))
  {
    match Atoi(inviteCode)
    case None => Err(InviteCodeNotNumeric(inviteCode))
    case Some(inviteNumber) => LookupNumberAsWritten(sheet, inviteNumber)
  }

  /** Apart from the index failure, the code as written agrees with the intended lookup. */
  function LookupNumberAsWritten(sheet: Sheet, inviteNumber: int): (r: Result<Row>)
    requires InInt64(inviteNumber)
    ensures r != Err(IndexOutOfRange) ==> r == LookupNumber(sheet, inviteNumber)
  {
    match Read(sheet, DirectRange(inviteNumber))
    case Err(f) => Err(f)
    case Ok(rows) =>
      if rows == [] then Err(IndexOutOfRange)
      else if rows[0] != [] then Ok(rows[0])
      else Search(sheet, inviteNumber)
  }

  /** As written the fallback scan is never reached: when the direct row is empty the
      lookup fails with an index out of range. */
  lemma AsWrittenNeverSearches(sheet: Sheet, inviteNumber: int)
    requires InInt64(inviteNumber) && 0 <= inviteNumber < INT64_MAX
    requires DirectRow(sheet, inviteNumber) == []
    ensures LookupNumberAsWritten(sheet, inviteNumber) == Err(IndexOutOfRange)
  {
    ReadOneRow(sheet, DirectRange(inviteNumber));
  }

  /** A directory whose second row is blank and whose third row holds invite code 1. */
  const BlankSecondRow: Sheet := [[StrCell("Name")], [], [StrCell("Patel"), StrCell("Shruti"), StrCell("USA"), StrCell("1")]]

  /** Invite code "1": the intended lookup finds the family on row 3, the code as written
      fails on the blank row 2. */
  lemma BlankRowCounterexample()
    ensures LookupAsWritten(BlankSecondRow, "1") == Err(IndexOutOfRange)
    ensures Lookup(BlankSecondRow, "1") == Ok(BlankSecondRow[2])
  {
    AtoiExamples();
    assert Atoi("1") == Some(1);
    BlankRowLookups(BlankSecondRow);
  }

  lemma BlankRowLookups(sheet: Sheet)
    requires sheet == BlankSecondRow
    ensures LookupNumberAsWritten(sheet, 1) == Err(IndexOutOfRange)
    ensures LookupNumber(sheet, 1) == Ok(sheet[2])
  {
    assert DirectRow(sheet, 1) == [];
    assert INT64_MAX > 1;
    AsWrittenNeverSearches(sheet, 1);
    LookupCases(sheet, 1);
    BlankRowSearch(sheet);
  }

  lemma BlankRowSearch(sheet: Sheet)
    requires sheet == BlankSecondRow
    ensures Search(sheet, 1) == Ok(sheet[2])
  {
    BlankRowRead(sheet);
    BlankRowScan([[], sheet[2]]);
  }

  /** The scan's read skips the blank row 2 and stops after row 3. */
  lemma BlankRowRead(sheet: Sheet)
    requires sheet == BlankSecondRow
    ensures Read(sheet, SearchRange()) == Ok([[], sheet[2]])
  {
    var r := SearchRange();
    assert CutToRange(SheetRow(sheet, 3), r) == sheet[2];
    assert CutToRange(SheetRow(sheet, 2), r) == [];
    ReadWithinSheet(sheet, r);
    ReadReachesNonEmptyRow(sheet, r, 3);
    var rows := Read(sheet, r).value;
    assert rows == [rows[0], rows[1]];
  }

  /** On those rows the scan passes the blank row and matches the next. */
  lemma BlankRowScan(rows: seq<Row>)
    requires rows == [[], BlankSecondRow[2]]
    ensures ScanFrom(rows, 1, 0) == Ok(rows[1])
  {
    AtoiExamples();
    assert Atoi("1") == Some(1);
    assert IsEntryFor(rows[1], 1);
    ScanFindsFirstEntry(rows, 1, 1);
  }
}
