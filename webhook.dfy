/** The Lambda entry point: a fulfillment request from the dialogue platform arrives, and
    for the RSVP intent the counts in its first output context are saved. */
module Webhook {
  import opened Wrappers
  import opened Decimal
  import opened RowStore
  import opened Events
  import opened Ledger

  /** The parts of a parsed WebhookRequest the handler looks at. */
  datatype WebhookRequest = WebhookRequest(
    session: string,
    intentName: string,
    outputContexts: seq<map<string, Value>>)  // each context's parameters

  datatype Response = Response(body: string, statusCode: int)

  const RsvpIntent := "rsvper.rsvp"
  /** The handler saves every RSVP under this invite code and phone number. */
  const FixedInviteCode := 241
  const FixedPhoneNumber := "8045033244"

  /** Handler.  `parsed` is the result of unmarshalling `body` (None when it is not a
      webhook request); `now` is the clock, and appendOk and updateOk are the store's
      answers to the two writes.  Returns the writes sent and the response. */
  method Handler(body: string, parsed: Option<WebhookRequest>, now: Timestamp, appendOk: bool, updateOk: bool)
    returns (calls: seq<StoreCall>, r: Result<Response>)
    ensures parsed.None? ==> calls == [] && r == Err(UnparsableRequest)
    ensures parsed.Some? && parsed.value.intentName != RsvpIntent ==> calls == [] && r == Ok(Response(body, 200))
    ensures parsed.Some? && parsed.value.intentName == RsvpIntent && parsed.value.outputContexts == [] ==>
      calls == [] && r == Err(IndexOutOfRange)
    ensures parsed.Some? && parsed.value.intentName == RsvpIntent && parsed.value.outputContexts != [] ==>
      && |calls| == (if appendOk then 2 else 1)
      && (exists rsvps ::
            && IsExtraction(parsed.value.outputContexts[0], rsvps)
            && AppendsUpdateEvents(calls[0], Itoa(FixedInviteCode), FixedPhoneNumber, parsed.value.session, rsvps, now)
            && (appendOk ==> UpdatesRsvps(calls[1], FixedInviteCode + 1, rsvps)))
      && (r.Ok? <==> appendOk && updateOk)
    ensures r.Ok? ==> r.value == Response(body, 200)
  {
    if parsed.None? {
      return [], Err(UnparsableRequest);
    }
    var wr := parsed.value;
    if wr.intentName == RsvpIntent {
      if wr.outputContexts == [] {
        return [], Err(IndexOutOfRange);
      }
      var rsvps := ExtractRsvps(wr.outputContexts[0]);
      var failure;
      calls, failure := SaveRsvp(FixedInviteCode, FixedPhoneNumber, wr.session, rsvps, now, appendOk, updateOk);
      if failure.Some? {
        return calls, Err(failure.value);
      }
    } else {
      calls := [];
    }
    return calls, Ok(Response(body, 200));
  }
}
