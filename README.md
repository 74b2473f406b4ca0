# rsvper-api webhook, modelled in Dafny

The rsvper-api webhook is an AWS Lambda function. The dialogue platform calls it when a
guest of a wedding answers how many people will attend each of the three sub-events:
VIDHI, GARBA and WEDDING. The revision modelled here handles one intent, `rsvper.rsvp`. It
reads the head counts from the slot parameters of the request's first output context. It
then records them in a Google Sheets spreadsheet in two steps:

- it appends one line per event to the UPDATE_EVENT log sheet;
- it writes each count into that event's RSVP'd column in the family's row of the
  INVITED_FAMILY directory sheet.

The directory lookup (`findInvitedFamily`, `SearchForInvitedFamily`, `extractNumber`) is
also part of the program and is modelled, though the handler does not call it yet.
The handler saves under the fixed invite code 241 and a fixed phone number.

The model, one module per concern:

| file | module | what it holds |
|---|---|---|
| wrappers.dfy | Wrappers | `Option`, `Result`, and the `Failure`s that end a request |
| text.dfy | Text | ASCII upper-casing, substring search, `CaseInsensitiveContains` |
| decimal.dfy | Decimal | Go's `strconv.Itoa` / `strconv.Atoi` over the 64-bit `int` range, and wrapping `int` addition |
| rowstore.dfy | RowStore | cells, rows, A1 ranges, an in-memory sheet and the values read returns, the write requests |
| events.dfy | Events | the three `Event`s, slot-key classification, `extractRsvps` |
| directory.dfy | Directory | `extractNumber`, the directory scan, the direct-row lookup |
| ledger.dfy | Ledger | `createUpdateEvents`, `updateInvitedFamilyRsvp`, `saveRsvp` |
| webhook.dfy | Webhook | `Handler`'s dispatch |

Modelling choices:

- A `log.Fatal` or a runtime panic ends the Lambda process. In the model it is a `Failure`
  value returned to the caller.
- The Sheets store is a `seq<Row>` held in memory. A read of a range returns the range's
  rows, cut to its columns. As in the Sheets values API, empty cells (the empty string) at
  the end of a row are left out, and so are empty rows at the end of the range. A range
  naming row 0 or below is refused.
- A write is the request value (`StoreCall`) that the webhook would send. Whether the
  store accepts it is a boolean parameter.
- Go visits a map in an unspecified order. The three loops over maps pick each next key
  with `:|` from the keys still pending. Their contracts therefore hold for every order.

This revision handles only the `rsvper.rsvp` intent (hello/main.go:63-69). It has no
welcome or follow-up conversation logic.

## Model

| member | source | states |
|---|---|---|
| `Text.CaseInsensitiveContains` | hello/main.go:74-77 | true exactly when the upper-cased `substr` occurs at some position of the upper-cased `s`; always true for an empty `substr`; never true when `substr` is longer than `s` |
| `Text.Contains` | hello/main.go:76 | `strings.Contains`: true exactly when `t` occurs at some position of `s` |
| `Text.CaseInsensitiveContainsIgnoresCase` | hello/main.go:74-77 | changing the case of either argument does not change the answer |
| `Text.CaseInsensitiveContainsOfUpper` | hello/main.go:74-77 | upper-casing either argument first makes no difference |
| `Text.Upper` | hello/main.go:75 | ASCII letters only: same length; each of `a`–`z` raised to `A`–`Z`, every other character unchanged (Go also raises non-ASCII letters) |
| `Text.UpperIdempotent` | hello/main.go:75 | upper-casing twice is upper-casing once |
| `Text.NotContainedWhenCharMissing` | hello/main.go:74-77 | if some character of `t` matches no character of `s` in any case, `s` does not contain `t` |
| `Text.ContainedAt` | hello/main.go:74-77 | a case-insensitive match at one position makes the answer true |
| `Decimal.Itoa` | hello/main.go:174 | `strconv.Itoa`: at least one character; for `n >= 0` digits whose value is `n`; for `n < 0` a `-` followed by the digits of `-n` |
| `Decimal.Atoi` | hello/main.go:104 | `strconv.Atoi`: a parsed value lies in the 64-bit range, and only text starting with a digit or a sign is accepted |
| `Decimal.AtoiOfItoa` | hello/main.go:181 | every 64-bit integer written by `Itoa` is parsed back by `Atoi` to itself |
| `Decimal.ItoaOfAtoi` | hello/main.go:104 | a canonical decimal string (no `+`, no leading zero, no `-0`) that `Atoi` accepts is rewritten by `Itoa` to itself |
| `Decimal.ItoaCanonical` | hello/main.go:174 | `Itoa` writes canonical decimal strings only |
| `Decimal.NatDigitsOfValue` | hello/main.go:174 | a digit string without a leading zero is the decimal representation of its value |
| `Decimal.LeadingNonZeroPositive` | hello/main.go:174 | a digit string not starting with `0` has a positive value |
| `Decimal.AtoiRejectsLaterNonDigit` | hello/main.go:104 | text with any non-digit after its first character (`"12a"`, `"+-1"`, `"1 2"`) is rejected |
| `Decimal.AtoiLeadingZero` | hello/main.go:104 | a leading `0`, after an optional `-`, or a `+` in front of a digit string does not change what `Atoi` reads (`"007"`, `"+5"` and `"-007"` are read as `"7"`, `"5"` and `"-7"`) |
| `Decimal.AtoiNegativeZeros` | hello/main.go:104 | `"-0"`, `"-00"`, … are read as 0 |
| `Decimal.DigitsValueLeadingZero` | hello/main.go:104 | a leading zero does not change the value of a digit string |
| `Decimal.ZerosValue` | hello/main.go:104 | a string of zeros is a digit string of value 0 |
| `Decimal.AtoiExamples` | hello/main.go:104 | `Atoi` accepts a sign and leading zeros (`"+007"` is 7) and rejects `""`, `"-"` and `"abc"` |
| `Decimal.Int64Add` | hello/main.go:110 | Go `int` addition: the exact sum whenever it fits in 64 bits, and `INT64_MAX + 1` wraps to `INT64_MIN` |
| `RowStore.Read` | hello/main.go:238-244 | the store refuses exactly the invalid ranges, and the failure names the range; otherwise the answer has at most one row per range row, and its row `i` is sheet row `fromRow + i` as cut to the range by `CutToRange` |
| `RowStore.ReadDropsEmptyRows` | hello/main.go:238-244 | every range row after the answer has no cell in the range |
| `RowStore.ReadEndsNonEmpty` | hello/main.go:238-244 | the answer does not end with an empty row |
| `RowStore.ReadWithinSheet` | hello/main.go:238-244 | a read never reports a row past the end of the sheet |
| `RowStore.KeptRowsEmpty` | hello/main.go:238-244 | the rows kept end with a non-empty one, and only empty rows are left out |
| `RowStore.CutToRangeCells` | hello/main.go:238-244 | the cells a read reports of a row are the row's cells from the range's first column on, in place; the last of them is not empty, and only empty cells of the range's columns come after it |
| `RowStore.NonEmptyCutInSheet` | hello/main.go:238-244 | only a row of the sheet can have a cell in a range |
| `RowStore.KeptEndBlank` | hello/main.go:238-244 | the end of the cells a read keeps of a row comes right after a non-empty cell (or at the first column), and only empty cells lie past it |
| `RowStore.CutToRangeEmpty` | hello/main.go:238-244 | a row reads as empty exactly when every cell it has in the range's columns is empty |
| `RowStore.ReadOneRow` | hello/main.go:173-176 | reading a one-row range gives that row when it has a cell in the range and no rows at all when it is empty |
| `RowStore.ReadReachesNonEmptyRow` | hello/main.go:238-244 | a read reports every row of the range up to the last one that has a cell in the range |
| `Events.EventsDistinct` | hello/main.go:44-46 | VIDHI, GARBA and WEDDING differ in name and in RSVP'd column (F, H, J) |
| `Events.GetNumberValue` | hello/main.go:88-94 | `value.GetNumberValue()`: a number slot gives its number, any other kind of slot gives 0 |
| `Events.Classify` | hello/main.go:82-98 | only the three events are ever credited |
| `Events.ClassifyFirstMatch` | hello/main.go:82-98 | a key is credited to VIDHI exactly when it is not raw text and contains `VIDHI` in any case; to GARBA exactly when it is not raw text and contains `GARBA` but not `VIDHI`; to WEDDING exactly when it is not raw text and contains `WEDDING` but neither earlier name; and to nothing exactly when it contains `.original` in any case or none of the three names |
| `Events.ExtractRsvps` | hello/main.go:79-101 | whatever order the keys are visited in, the result credits each event exactly when some key is credited to it, with the count of one such key, and its keys are among the three events |
| `Events.ExtractionDomain` | hello/main.go:79-101 | every possible result maps only VIDHI, GARBA and WEDDING |
| `Events.IgnoredKeyDoesNotContribute` | hello/main.go:96-97 | removing a key credited to no event (for example one naming no event) does not change the possible results |
| `Events.OriginalKeysIgnored` | hello/main.go:82-84 | removing a key that contains `.original` in any case does not change the possible results |
| `Events.RawKeyIgnored` | hello/main.go:82-84 | a key ending in `.original` is credited to nothing |
| `Events.UnambiguousExtraction` | hello/main.go:86-98 | when no two keys are credited to the same event, each credited key's count is in the result under its event, and every event in the result has a key credited to it |
| `Events.ExtractionDeterminedWhenUnambiguous` | hello/main.go:79-101 | when no two keys are credited to the same event, the result does not depend on map order |
| `Events.OneKeyPerEvent` | hello/main.go:79-101 | with one key per event and no other credited key, the result is exactly those three counts |
| `Events.ClassifyTestEventKeys` | hello/handler_test.go:37-42 | the sample keys `vidhiRsvpdInvitees`, `garbaRsvpdInvitees` and `weddingRsvpdInvitees` are credited to VIDHI, GARBA and WEDDING |
| `Events.ClassifyTestRawKeys` | hello/handler_test.go:39-41 | the sample's three `.original` keys are credited to nothing |
| `Events.TestParametersExtraction` | hello/handler_test.go:36-43 | on the sample output context the only possible result is VIDHI 6, GARBA 7, WEDDING 8 |
| `Directory.ExtractNumber` | hello/main.go:154-171 | an int cell gives its value; a string cell gives its value when `Atoi` accepts it; every other cell, and a string `Atoi` rejects, fails with value -1 |
| `Directory.ExtractNumberOfItoa` | hello/main.go:157-163 | a number written as text by `Itoa` is read back unchanged and without error |
| `Directory.ExtractNumberExamples` | hello/main.go:154-171 | `"7"` gives 7, `"abc"` and an unknown kind of cell fail with -1, and the int -1 is returned as a success |
| `Directory.SearchRange` | hello/main.go:129 | the scan reads the valid range `A2:J240` |
| `Directory.InvitedFamilyRowRange` | hello/main.go:173-175 | the direct lookup reads `"A" + Itoa(n) + ":J" + Itoa(n)`, and the store accepts it exactly when `n >= 1` |
| `Directory.RowKinds` | hello/main.go:137-146 | every row is exactly one of: passed over, malformed, or the entry sought |
| `Directory.ScanFrom` | hello/main.go:136-151 | the scan's answer is either an empty row or a row that is the entry for the invite number, and its only failure names a malformed row among those scanned |
| `Directory.Search` | hello/main.go:128-152 | the scan of `A2:J240` fails only at a malformed row, and otherwise gives an empty row or the entry for the invite number |
| `Directory.BlankCodeCellPassedOver` | hello/main.go:137 | a row that is empty from column D on reaches the scan with at most three cells and is passed over, not reported as malformed |
| `Directory.SearchForInvitedFamily` | hello/main.go:128-152 | the loop with its `break` computes `Search`: the read's failure, or the scan of the rows read |
| `Directory.ScanFindsFirstEntry` | hello/main.go:142-145 | the first entry for the code is returned when every row before it is passed over |
| `Directory.ScanFailsAtMalformed` | hello/main.go:137-141 | a row with more than 3 cells whose code cell fails to convert or converts to -1 ends the scan with a failure naming that row's index, when every row before it is passed over |
| `Directory.ScanNotFound` | hello/main.go:148-151 | with no entry and no malformed row the scan returns an empty row and no error |
| `Directory.ScanOutcome` | hello/main.go:136-151 | conversely, every answer of the scan is one of those three cases, with the witnessing row |
| `Directory.ScanIgnoresShortRows` | hello/main.go:137 | rows of 3 or fewer cells are never inspected: replacing them by other short rows leaves the answer unchanged |
| `Directory.ScanSkipsPassedRows` | hello/main.go:136-147 | a stretch of rows that are passed over does not affect the answer |
| `Directory.DirectRange` | hello/main.go:110 | the direct row is `inviteNumber + 1`, and the store accepts it exactly when `0 <= inviteNumber < INT64_MAX` |
| `Directory.Lookup` | hello/main.go:104-107 | a code `Atoi` rejects fails with a failure naming the code |
| `Directory.LookupNumber` | hello/main.go:109-125 | the corrected lookup of a parsed code fails only when the store refuses the direct row or the scan meets a malformed row; a non-empty answer other than the direct row is the entry for the code |
| `Directory.DirectRowBlankWithinRange` | hello/main.go:110-117 | a direct row empty in columns A to J reads as no row, whatever lies past column J |
| `Directory.FindInvitedFamily` | hello/main.go:103-126 | the method computes `Lookup` (the corrected lookup; see Findings) |
| `Directory.LookupCases` | hello/main.go:109-124 | for a negative code, or one whose `+ 1` wraps, the store refuses the row; a non-empty direct row is returned without its invite code being checked; an empty direct row hands the lookup to the scan |
| `Directory.LookupFindsSheetRow` | hello/main.go:103-126 | a successful lookup gives an empty row or a row of the sheet, cut to columns A to J |
| `Directory.LookupAsWritten` | hello/main.go:103-126 | as written, a code `Atoi` rejects fails with a failure naming the code |
| `Directory.AsWrittenNeverSearches` | hello/main.go:110-124 | as written, an empty direct row (for a code whose row the store accepts) is an index-out-of-range failure, so the scan on lines 118-123 is never reached |
| `Directory.LookupNumberAsWritten` | hello/main.go:109-125 | apart from that index failure, the code as written gives the same answer as the intended lookup |
| `Directory.BlankRowCounterexample` | hello/main.go:114 | the concrete input of the finding: the code as written fails, the corrected lookup finds the family |
| `Ledger.UpdateEventRow` | hello/main.go:199-203 | an audit line has six cells: the invite code first, the event's name third, the head count fourth |
| `Ledger.UpdateEventRowsDistinct` | hello/main.go:199-203 | lines for two different events differ, because they carry different event names |
| `Ledger.CreateUpdateEvents` | hello/main.go:196-206 | in any map order, the append to `UPDATE_EVENT!A2:E2` holds one line `[inviteCode, phone, event name, count, time, session]` per RSVP entry and no other line; for the wedding's events the lines are pairwise distinct |
| `Ledger.RowsCoverRsvps` | hello/main.go:198-203 | lines built from a duplicate-free listing of all the entries are such an append |
| `Ledger.RsvpWriteRange` | hello/main.go:217 | the write range starts with `INVITED_FAMILY!` and goes on past it |
| `Ledger.RsvpWriteRangeNamesCell` | hello/main.go:217 | the write range is `INVITED_FAMILY!`, then the event's RSVP'd column, then the row number, which `Atoi` reads back |
| `Ledger.RsvpWriteRangesDistinct` | hello/main.go:44-46 | distinct events of the wedding are written to distinct cells of the row |
| `Ledger.UpdateInvitedFamilyRsvp` | hello/main.go:208-221 | in any map order, the batch holds one `[[count]]` write per RSVP entry, into that event's RSVP'd cell of the given row, and no other write; for the wedding's events no two writes target the same cell |
| `Ledger.BatchCoversRsvps` | hello/main.go:210-219 | writes built from a duplicate-free listing of all the entries are such a batch |
| `Ledger.SaveRsvp` | hello/main.go:178-194 | the append is always sent first, with `Itoa(inviteCode)`; the batch update to row `inviteCode + 1` is sent only when the append succeeded; the save succeeds exactly when both writes do, and otherwise fails naming the sheet whose write failed |
| `Webhook.Handler` | hello/main.go:48-72 | an unparsable body fails with no writes; any intent other than `rsvper.rsvp` gets a 200 echo of the body with no writes; `rsvper.rsvp` with no output context is an index-out-of-range failure; otherwise the counts extracted from the first context are saved under invite code 241 (row 242) and the fixed phone number, and the response is the 200 echo exactly when both writes succeeded |

## Left out

- Google Sheets client creation, OAuth/JWT credential loading and the network calls (hello/main.go:223-263) are not modelled: they are I/O through a foreign library. A read is `RowStore.Read` on an in-memory sheet. A write is the request value, and its success is a parameter. The only read failure modelled is a range the store refuses.
- `getGoogleSheetsData` dereferences a nil response when the request fails, which panics. The model returns the read's failure instead. Both end the request.
- JSON unmarshalling of the request body (hello/main.go:52-60) is not modelled: the handler receives the parsed request, or `None`.
- Webhook.Handler: does not model a request whose query result, intent or first context's parameters are missing. In Go these are nil dereferences, which panic; the model's request always has them.
- `main` and `HandlerOrig` (hello/main.go:265-295) are Lambda plumbing and are not modelled.
- Text.Upper, Text.CaseInsensitiveContains: upper-case ASCII letters only. Go's `strings.ToUpper` also maps other Unicode letters, and some of those mappings change the length of the string.
- `structpb.Value.GetNumberValue` returns a float64, which `int(...)` truncates. Slot values are modelled as integers or non-numbers (which read as 0); floating point is not modelled.
- `time.Now()` is read once per line in `createUpdateEvents`. The model takes one opaque timestamp for the whole call.
- Logging (`log.Printf`, `fmt.Println`) and the HTTP status codes of the store's responses are not modelled.

## Findings

| source | as written | input that shows it | evidently intended | confidence | as-written member | corrected member |
|---|---|---|---|---|---|---|
| hello/main.go:114 | `invitedFamily := wrappedInvitedFamily[0]` indexes the direct read before the emptiness check on line 117. The Sheets values API returns no rows at all for a range whose only row is empty or past the end of the sheet, so the index is out of range and the fallback scan of lines 118-123 can never run. | a directory whose row 2 is blank and whose row 3 holds invite code 1, looked up with invite code `"1"` | an empty direct read counts as an empty row, so the lookup falls back to the scan and finds the family on row 3 | not executed | `Directory.LookupAsWritten` (with `Directory.LookupNumberAsWritten`, `Directory.AsWrittenNeverSearches`, `Directory.BlankRowCounterexample`) | `Directory.Lookup` (computed by `Directory.FindInvitedFamily`; `Directory.LookupCases`) |
