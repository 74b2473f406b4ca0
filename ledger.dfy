/** Saving a family's RSVPs: one line per event appended to the UPDATE_EVENT log, and the
    head counts written into the family's row of INVITED_FAMILY. */
module Ledger {
  import opened Wrappers
  import opened Decimal
  import opened RowStore
  import opened Events
  import Directory

  const UPDATE_EVENT := "UPDATE_EVENT"
  /** appendGoogleSheetsData's target: the table starting at UPDATE_EVENT!A2. */
  const AppendRange := UPDATE_EVENT + "!A2:E2"

  /** One UPDATE_EVENT line: invite code, phone number, event name, head count, time, session. */
  function UpdateEventRow(inviteCode: string, phoneNumber: string, sessionId: string,
                          e: Event, attendees: int, now: Timestamp): (line: Row)
    ensures |line| == 6
    ensures line[0] == StrCell(inviteCode) && line[2] == StrCell(e.name) && line[3] == IntCell(attendees)
  {
    [StrCell(inviteCode), StrCell(phoneNumber), StrCell(e.name), IntCell(attendees), TimeCell(now), StrCell(sessionId)]
  }

  /** call appends to UPDATE_EVENT exactly one line per event of rsvps, in some order. */
  ghost predicate AppendsUpdateEvents(call: StoreCall, inviteCode: string, phoneNumber: string,
                                      sessionId: string, rsvps: map<Event, int>, now: Timestamp)
  {
    && call.Append? && call.appendRange == AppendRange
    && |call.rows| == |rsvps.Keys|
    && (forall e :: e in rsvps ==> UpdateEventRow(inviteCode, phoneNumber, sessionId, e, rsvps[e], now) in call.rows)
    && (forall i :: 0 <= i < |call.rows| ==>
          exists e :: e in rsvps && call.rows[i] == UpdateEventRow(inviteCode, phoneNumber, sessionId, e, rsvps[e], now))
    && (rsvps.Keys <= AllEvents ==> forall i, j :: 0 <= i < j < |call.rows| ==> call.rows[i] != call.rows[j])
  }

  /** Distinct events of the wedding give distinct lines. */
  lemma UpdateEventRowsDistinct(inviteCode: string, phoneNumber: string, sessionId: string,
                                e1: Event, a1: int, e2: Event, a2: int, now: Timestamp)
    requires e1 in AllEvents && e2 in AllEvents && e1 != e2
    ensures UpdateEventRow(inviteCode, phoneNumber, sessionId, e1, a1, now)
         != UpdateEventRow(inviteCode, phoneNumber, sessionId, e2, a2, now)
  {
    EventsDistinct();
    assert UpdateEventRow(inviteCode, phoneNumber, sessionId, e1, a1, now)[2] == StrCell(e1.name);
    assert UpdateEventRow(inviteCode, phoneNumber, sessionId, e2, a2, now)[2] == StrCell(e2.name);
  }

  /** The lines built from a duplicate-free listing of all events of rsvps are the append
      AppendsUpdateEvents describes. */
  lemma RowsCoverRsvps(rows: seq<Row>, order: seq<Event>, inviteCode: string, phoneNumber: string,
                       sessionId: string, rsvps: map<Event, int>, now: Timestamp)
    requires |rows| == |order| == |rsvps.Keys|
    requires forall i :: 0 <= i < |order| ==> order[i] in rsvps
    requires forall i :: 0 <= i < |rows| ==>
      rows[i] == UpdateEventRow(inviteCode, phoneNumber, sessionId, order[i], rsvps[order[i]], now)
    requires forall e :: e in rsvps ==> e in order
    requires forall i, j :: 0 <= i < j < |order| ==> order[i] != order[j]
    ensures AppendsUpdateEvents(Append(AppendRange, rows), inviteCode, phoneNumber, sessionId, rsvps, now)
  {
    forall e | e in rsvps
      ensures UpdateEventRow(inviteCode, phoneNumber, sessionId, e, rsvps[e], now) in rows
    {
      var i :| 0 <= i < |order| && order[i] == e;
      assert rows[i] == UpdateEventRow(inviteCode, phoneNumber, sessionId, e, rsvps[e], now);
    }
    if rsvps.Keys <= AllEvents {
      forall i, j | 0 <= i < j < |rows| ensures rows[i] != rows[j] {
        UpdateEventRowsDistinct(inviteCode, phoneNumber, sessionId, order[i], rsvps[order[i]], order[j], rsvps[order[j]], now);
      }
    }
  }

  /** createUpdateEvents: build one line per entry of rsvps, in map order, and append them. */
  method CreateUpdateEvents(inviteCode: string, phoneNumber: string, sessionId: string,
                            rsvps: map<Event, int>, now: Timestamp) returns (call: StoreCall)
    ensures AppendsUpdateEvents(call, inviteCode, phoneNumber, sessionId, rsvps, now)
  {
    var rows: seq<Row> := [];
    ghost var order: seq<Event> := [];
    var pending := rsvps.Keys;
    while pending != {}
      invariant pending <= rsvps.Keys
      invariant |rows| == |order| && |rows| + |pending| == |rsvps.Keys|
      invariant forall i :: 0 <= i < |order| ==> order[i] in rsvps && order[i] !in pending
      invariant forall i :: 0 <= i < |rows| ==>
        rows[i] == UpdateEventRow(inviteCode, phoneNumber, sessionId, order[i], rsvps[order[i]], now)
      invariant forall e :: e in rsvps && e !in pending ==> e in order
      invariant forall i, j :: 0 <= i < j < |order| ==> order[i] != order[j]
      decreases |pending|
    {
      var event :| event in pending;
      var attendees := rsvps[event];
      rows := rows + [UpdateEventRow(inviteCode, phoneNumber, sessionId, event, attendees, now)];
      order := order + [event];
      pending := pending - {event};
    }
    RowsCoverRsvps(rows, order, inviteCode, phoneNumber, sessionId, rsvps, now);
    call := Append(AppendRange, rows);
  }

  /** The INVITED_FAMILY cell holding an event's RSVP'd head count on a given row. */
  function RsvpWriteRange(e: Event, rowNumber: int): (writeRange: string)
    ensures |writeRange| > |Directory.INVITED_FAMILY| + 1
    ensures writeRange[..|Directory.INVITED_FAMILY| + 1] == Directory.INVITED_FAMILY + "!"
  {
    Directory.INVITED_FAMILY + "!" + e.rsvpdCol + Itoa(rowNumber)
  }

  /** The write range names the sheet, then the event's RSVP column, then the row, and the
      row number reads back from it. */
  lemma RsvpWriteRangeNamesCell(e: Event, rowNumber: int)
    requires |e.rsvpdCol| == 1 && InInt64(rowNumber)
    ensures var r := RsvpWriteRange(e, rowNumber);
      var prefix := Directory.INVITED_FAMILY + "!";
      && |r| > |prefix| + 1 && r[..|prefix|] == prefix && r[|prefix|..|prefix| + 1] == e.rsvpdCol
      && Atoi(r[|prefix| + 1..]) == Some(rowNumber)
  {
    var prefix := Directory.INVITED_FAMILY + "!";
    var digits := Itoa(rowNumber);
    var r := RsvpWriteRange(e, rowNumber);
    assert r == prefix + e.rsvpdCol + digits;
    assert r[..|prefix|] == prefix;
    assert r[|prefix|..|prefix| + 1] == e.rsvpdCol;
    assert r[|prefix| + 1..] == digits;
    AtoiOfItoa(rowNumber);
  }

  /** Distinct events of the wedding are written to distinct cells of the row. */
  lemma RsvpWriteRangesDistinct(e1: Event, e2: Event, rowNumber: int)
    requires e1 in AllEvents && e2 in AllEvents && e1 != e2
    ensures RsvpWriteRange(e1, rowNumber) != RsvpWriteRange(e2, rowNumber)
  {
    EventsDistinct();
    assert RsvpWriteRange(e1, rowNumber)[15] == e1.rsvpdCol[0];
    assert RsvpWriteRange(e2, rowNumber)[15] == e2.rsvpdCol[0];
  }

  /** The batch-update entry for one event: its head count alone in its RSVP cell. */
  function RsvpValueRange(e: Event, attendees: int, rowNumber: int): ValueRange
  {
    ValueRange(RsvpWriteRange(e, rowNumber), [[IntCell(attendees)]])
  }

  /** call is one batch update writing each event's head count into its own cell of the row. */
  ghost predicate UpdatesRsvps(call: StoreCall, rowNumber: int, rsvps: map<Event, int>)
  {
    && call.BatchUpdate?
    && |call.data| == |rsvps.Keys|
    && (forall e :: e in rsvps ==> RsvpValueRange(e, rsvps[e], rowNumber) in call.data)
    && (forall i :: 0 <= i < |call.data| ==>
          exists e :: e in rsvps && call.data[i] == RsvpValueRange(e, rsvps[e], rowNumber))
    && (rsvps.Keys <= AllEvents ==>
          forall i, j :: 0 <= i < j < |call.data| ==> call.data[i].writeRange != call.data[j].writeRange)
  }

  /** The batch built from a duplicate-free listing of all events of rsvps is the update
      UpdatesRsvps describes. */
  lemma BatchCoversRsvps(batchValues: seq<ValueRange>, order: seq<Event>, rowNumber: int, rsvps: map<Event, int>)
    requires |batchValues| == |order| == |rsvps.Keys|
    requires forall i :: 0 <= i < |order| ==> order[i] in rsvps
    requires forall i :: 0 <= i < |batchValues| ==>
      batchValues[i] == RsvpValueRange(order[i], rsvps[order[i]], rowNumber)
    requires forall e :: e in rsvps ==> e in order
    requires forall i, j :: 0 <= i < j < |order| ==> order[i] != order[j]
    ensures UpdatesRsvps(BatchUpdate(batchValues), rowNumber, rsvps)
  {
    forall e | e in rsvps
      ensures RsvpValueRange(e, rsvps[e], rowNumber) in batchValues
    {
      var i :| 0 <= i < |order| && order[i] == e;
      assert batchValues[i] == RsvpValueRange(e, rsvps[e], rowNumber);
    }
    if rsvps.Keys <= AllEvents {
      forall i, j | 0 <= i < j < |batchValues| ensures batchValues[i].writeRange != batchValues[j].writeRange {
        RsvpWriteRangesDistinct(order[i], order[j], rowNumber);
      }
    }
  }

  /** updateInvitedFamilyRsvp: one single-cell write per entry of rsvps, in map order, sent
      as one batch.  The invite code and phone number are passed but not used. */
  method UpdateInvitedFamilyRsvp(rowNumber: int, inviteCode: int, phoneNumber: string,
                                 rsvps: map<Event, int>) returns (call: StoreCall)
    ensures UpdatesRsvps(call, rowNumber, rsvps)
  {
    var batchValues: seq<ValueRange> := [];
    ghost var order: seq<Event> := [];
    var pending := rsvps.Keys;
    while pending != {}
      invariant pending <= rsvps.Keys
      invariant |batchValues| == |order| && |batchValues| + |pending| == |rsvps.Keys|
      invariant forall i :: 0 <= i < |order| ==> order[i] in rsvps && order[i] !in pending
      invariant forall i :: 0 <= i < |batchValues| ==>
        batchValues[i] == RsvpValueRange(order[i], rsvps[order[i]], rowNumber)
      invariant forall e :: e in rsvps && e !in pending ==> e in order
      invariant forall i, j :: 0 <= i < j < |order| ==> order[i] != order[j]
      decreases |pending|
    {
      var event :| event in pending;
      var attendees := rsvps[event];
      var writeRange := RsvpWriteRange(event, rowNumber);
      batchValues := batchValues + [ValueRange(writeRange, [[IntCell(attendees)]])];
      order := order + [event];
      pending := pending - {event};
    }
    BatchCoversRsvps(batchValues, order, rowNumber, rsvps);
    call := BatchUpdate(batchValues);
  }

  /** saveRsvp: append the UPDATE_EVENT lines, then, only if that succeeded, write the
      counts into INVITED_FAMILY row inviteCode + 1.  appendOk and updateOk are the store's
      answers to the two requests; a refused request ends the save with its failure. */
  method SaveRsvp(inviteCode: int, phoneNumber: string, sessionId: string, rsvps: map<Event, int>,
                  now: Timestamp, appendOk: bool, updateOk: bool)
    returns (calls: seq<StoreCall>, failure: Option<Failure>)
    requires InInt64(inviteCode)
    ensures failure == None <==> appendOk && updateOk
    ensures !appendOk ==> failure == Some(StoreWriteFailed(UPDATE_EVENT))
    ensures appendOk && !updateOk ==> failure == Some(StoreWriteFailed(Directory.INVITED_FAMILY))
    ensures |calls| == if appendOk then 2 else 1
    ensures AppendsUpdateEvents(calls[0], Itoa(inviteCode), phoneNumber, sessionId, rsvps, now)
    ensures appendOk ==> UpdatesRsvps(calls[1], Int64Add(inviteCode, 1), rsvps)
  {
    var appended := CreateUpdateEvents(Itoa(inviteCode), phoneNumber, sessionId, rsvps, now);
    if !appendOk {
      calls, failure := [appended], Some(StoreWriteFailed(UPDATE_EVENT));
      return;
    }
    var updated := UpdateInvitedFamilyRsvp(Int64Add(inviteCode, 1), inviteCode, phoneNumber, rsvps);
    calls := [appended, updated];
    failure := if updateOk then None else Some(StoreWriteFailed(Directory.INVITED_FAMILY));
  }
}
