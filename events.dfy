/** The three sub-events of the wedding and the extraction of RSVP counts from the slot
    parameters the dialogue platform sends. */
module Events {
  import opened Wrappers
  import opened Text

  /** A sub-event: its name and the INVITED_FAMILY columns holding the invited and the
      RSVP'd head counts. */
  datatype Event = Event(name: string, invitedCol: string, rsvpdCol: string)

  const Vidhi := Event("VIDHI", "E", "F")
  const Garba := Event("GARBA", "G", "H")
  const Wedding := Event("WEDDING", "I", "J")

  const AllEvents: set<Event> := {Vidhi, Garba, Wedding}

  /** Slot keys carrying this marker hold the user's raw text, not the parsed value. */
  const OriginalMarker := ".original"

  /** The three events differ in name and in both columns. */
  lemma EventsDistinct()
    ensures Vidhi != Garba && Vidhi != Wedding && Garba != Wedding
    ensures Vidhi.name != Garba.name && Vidhi.name != Wedding.name && Garba.name != Wedding.name
    ensures Vidhi.rsvpdCol != Garba.rsvpdCol && Vidhi.rsvpdCol != Wedding.rsvpdCol
    ensures Garba.rsvpdCol != Wedding.rsvpdCol
  {
    assert Vidhi.name[0] == 'V' && Garba.name[0] == 'G' && Wedding.name[0] == 'W';
    assert Vidhi.rsvpdCol[0] == 'F' && Garba.rsvpdCol[0] == 'H' && Wedding.rsvpdCol[0] == 'J';
  }

  /** A slot value.  structpb.Value.GetNumberValue reads a number, and 0 from any other kind. */
  datatype Value = NumberValue(number: int) | NonNumberValue

  function GetNumberValue(v: Value): (n: int)
    ensures v.NumberValue? ==> n == v.number
    ensures !v.NumberValue? ==> n == 0
  {
    if v.NumberValue? then v.number else 0
  }

  /** The event a slot key is credited to, if any: none for a raw-text key, otherwise the
      first event, in priority order, whose name the key contains ignoring case. */
  function Classify(key: string): (e: Option<Event>)
    ensures e.Some? ==> e.value in AllEvents
  {
    if CaseInsensitiveContains(key, OriginalMarker) then None
    else if CaseInsensitiveContains(key, Vidhi.name) then Some(Vidhi)
    else if CaseInsensitiveContains(key, Garba.name) then Some(Garba)
    else if CaseInsensitiveContains(key, Wedding.name) then Some(Wedding)
    else None
  }

  /** Each event gets exactly the keys that are not raw text, contain its name and contain
      no name of an event checked before it. */
  lemma ClassifyFirstMatch(key: string)
    ensures Classify(key) == Some(Vidhi) <==>
      !CaseInsensitiveContains(key, OriginalMarker) && CaseInsensitiveContains(key, Vidhi.name)
    ensures Classify(key) == Some(Garba) <==>
      && !CaseInsensitiveContains(key, OriginalMarker) && CaseInsensitiveContains(key, Garba.name)
      && !CaseInsensitiveContains(key, Vidhi.name)
    ensures Classify(key) == Some(Wedding) <==>
      && !CaseInsensitiveContains(key, OriginalMarker) && CaseInsensitiveContains(key, Wedding.name)
      && !CaseInsensitiveContains(key, Vidhi.name) && !CaseInsensitiveContains(key, Garba.name)
    ensures Classify(key) == None <==>
      || CaseInsensitiveContains(key, OriginalMarker)
      || (!CaseInsensitiveContains(key, Vidhi.name) && !CaseInsensitiveContains(key, Garba.name)
          && !CaseInsensitiveContains(key, Wedding.name))
  {
    EventsDistinct();
  }

  /** rsvps is what the extraction loop can leave after visiting the keys in `visited`:
      every visited key that names an event has put that event in the map, and each
      entry holds the value of some visited key credited to that event. */
  ghost predicate ExtractedFrom(values: map<string, Value>, visited: set<string>, rsvps: map<Event, int>)
  {
    && (forall k :: k in visited && Classify(k).Some? ==> Classify(k).value in rsvps)
    && (forall e :: e in rsvps ==>
          exists k :: k in visited && k in values && Classify(k) == Some(e) && rsvps[e] == GetNumberValue(values[k]))
  }

  ghost predicate IsExtraction(values: map<string, Value>, rsvps: map<Event, int>)
  {
    ExtractedFrom(values, values.Keys, rsvps)
  }

  /** extractRsvps.  The Go loop visits the map's keys in an unspecified order, so a key is
      picked arbitrarily from those not yet visited; when two keys name the same event the
      one visited last wins. */
  method ExtractRsvps(values: map<string, Value>) returns (rsvps: map<Event, int>)
    ensures IsExtraction(values, rsvps)
    ensures rsvps.Keys <= AllEvents
  {
    rsvps := map[];
    var pending := values.Keys;
    while pending != {}
      invariant pending <= values.Keys
      invariant ExtractedFrom(values, values.Keys - pending, rsvps)
      invariant rsvps.Keys <= AllEvents
      decreases pending
    {
      var key :| key in pending;
      if CaseInsensitiveContains(key, OriginalMarker) {
        // raw-text companion of a slot: skipped
      } else if CaseInsensitiveContains(key, Vidhi.name) {
        rsvps := rsvps[Vidhi := GetNumberValue(values[key])];
      } else if CaseInsensitiveContains(key, Garba.name) {
        rsvps := rsvps[Garba := GetNumberValue(values[key])];
      } else if CaseInsensitiveContains(key, Wedding.name) {
        rsvps := rsvps[Wedding := GetNumberValue(values[key])];
      }
      pending := pending - {key};
    }
  }

  /** Only the three events can ever appear in an extraction. */
  lemma ExtractionDomain(values: map<string, Value>, rsvps: map<Event, int>)
    requires IsExtraction(values, rsvps)
    ensures rsvps.Keys <= AllEvents
  {
    forall e | e in rsvps ensures e in AllEvents {
      var k :| k in values && Classify(k) == Some(e) && rsvps[e] == GetNumberValue(values[k]);
    }
  }

  /** A key credited to no event (a raw-text ".original" key, or one naming no event) can
      be added or removed without changing which results are possible. */
  lemma IgnoredKeyDoesNotContribute(values: map<string, Value>, rsvps: map<Event, int>, key: string)
    requires Classify(key) == None
    ensures IsExtraction(values, rsvps) <==> IsExtraction(values - {key}, rsvps)
  {
    var rest := values - {key};
    if IsExtraction(values, rsvps) {
      forall e | e in rsvps
        ensures exists k :: k in rest.Keys && k in rest && Classify(k) == Some(e) && rsvps[e] == GetNumberValue(rest[k])
      {
        var k :| k in values.Keys && k in values && Classify(k) == Some(e) && rsvps[e] == GetNumberValue(values[k]);
        assert k in rest.Keys && rest[k] == values[k];
      }
    }
    if IsExtraction(rest, rsvps) {
      forall e | e in rsvps
        ensures exists k :: k in values.Keys && k in values && Classify(k) == Some(e) && rsvps[e] == GetNumberValue(values[k])
      {
        var k :| k in rest.Keys && k in rest && Classify(k) == Some(e) && rsvps[e] == GetNumberValue(rest[k]);
        assert k in values.Keys && rest[k] == values[k];
      }
    }
  }

  /** Raw-text keys never contribute, whatever else they contain. */
  lemma OriginalKeysIgnored(values: map<string, Value>, rsvps: map<Event, int>, key: string)
    requires CaseInsensitiveContains(key, OriginalMarker)
    ensures IsExtraction(values, rsvps) <==> IsExtraction(values - {key}, rsvps)
  {
    IgnoredKeyDoesNotContribute(values, rsvps, key);
  }

  /** No two keys are credited to the same event. */
  ghost predicate Unambiguous(values: map<string, Value>)
  {
    forall k1, k2 :: k1 in values && k2 in values && Classify(k1).Some? && Classify(k1) == Classify(k2) ==> k1 == k2
  }

  /** Without two keys for one event the map order does not matter: the result holds, for
      each credited key, exactly that key's value under its event, and nothing else. */
  lemma {:induction false} UnambiguousExtraction(values: map<string, Value>, rsvps: map<Event, int>)
    requires Unambiguous(values) && IsExtraction(values, rsvps)
    ensures forall k :: k in values && Classify(k).Some? ==>
      Classify(k).value in rsvps && rsvps[Classify(k).value] == GetNumberValue(values[k])
    ensures forall e :: e in rsvps ==> exists k :: k in values && Classify(k) == Some(e)
  {
    forall k | k in values && Classify(k).Some?
      ensures Classify(k).value in rsvps && rsvps[Classify(k).value] == GetNumberValue(values[k])
    {
      var e := Classify(k).value;
      assert e in rsvps;
      var k' :| k' in values.Keys && k' in values && Classify(k') == Some(e) && rsvps[e] == GetNumberValue(values[k']);
      assert k' == k;
    }
  }

  lemma ExtractionDeterminedWhenUnambiguous(values: map<string, Value>, r1: map<Event, int>, r2: map<Event, int>)
    requires Unambiguous(values) && IsExtraction(values, r1) && IsExtraction(values, r2)
    ensures r1 == r2
  {
    UnambiguousExtraction(values, r1);
    UnambiguousExtraction(values, r2);
    forall e | e in r1 ensures e in r2 && r1[e] == r2[e] {
      var k :| k in values && Classify(k) == Some(e);
    }
    forall e | e in r2 ensures e in r1 {
      var k :| k in values && Classify(k) == Some(e);
    }
  }

  /** When exactly one key names each event and every other key is ignored, the result is
      fully determined: each event holds its key's value. */
  lemma OneKeyPerEvent(values: map<string, Value>, kv: string, kg: string, kw: string, rsvps: map<Event, int>)
    requires kv in values && kg in values && kw in values
    requires Classify(kv) == Some(Vidhi) && Classify(kg) == Some(Garba) && Classify(kw) == Some(Wedding)
    requires forall k :: k in values && k != kv && k != kg && k != kw ==> Classify(k) == None
    ensures IsExtraction(values, rsvps) <==>
      rsvps == map[Vidhi := GetNumberValue(values[kv]), Garba := GetNumberValue(values[kg]),
                   Wedding := GetNumberValue(values[kw])]
  {
    var expected := map[Vidhi := GetNumberValue(values[kv]), Garba := GetNumberValue(values[kg]),
                        Wedding := GetNumberValue(values[kw])];
    OneKeyPerEventUnambiguous(values, kv, kg, kw);
    OneKeyPerEventExtraction(values, kv, kg, kw);
    if IsExtraction(values, rsvps) {
      ExtractionDeterminedWhenUnambiguous(values, rsvps, expected);
    }
  }

  lemma OneKeyPerEventUnambiguous(values: map<string, Value>, kv: string, kg: string, kw: string)
    requires Classify(kv) == Some(Vidhi) && Classify(kg) == Some(Garba) && Classify(kw) == Some(Wedding)
    requires forall k :: k in values && k != kv && k != kg && k != kw ==> Classify(k) == None
    ensures Unambiguous(values)
  {
    EventsDistinct();
  }

  lemma OneKeyPerEventExtraction(values: map<string, Value>, kv: string, kg: string, kw: string)
    requires kv in values && kg in values && kw in values
    requires Classify(kv) == Some(Vidhi) && Classify(kg) == Some(Garba) && Classify(kw) == Some(Wedding)
    requires forall k :: k in values && k != kv && k != kg && k != kw ==> Classify(k) == None
    ensures IsExtraction(values, map[Vidhi := GetNumberValue(values[kv]), Garba := GetNumberValue(values[kg]),
                                     Wedding := GetNumberValue(values[kw])])
  {
    EventsDistinct();
  }

  /** The output-context parameters of the webhook's test request. */
  const TestParameters: map<string, Value> := map[
    "vidhiRsvpdInvitees" := NumberValue(6),
    "weddingRsvpdInvitees" := NumberValue(8),
    "vidhiRsvpdInvitees.original" := NonNumberValue,
    "weddingRsvpdInvitees.original" := NonNumberValue,
    "garbaRsvpdInvitees.original" := NonNumberValue,
    "garbaRsvpdInvitees" := NumberValue(7)
  ]

  /** A key that ends in ".original" is credited to no event. */
  lemma RawKeyIgnored(key: string)
    requires |key| >= |OriginalMarker| && key[|key| - |OriginalMarker|..] == OriginalMarker
    ensures Classify(key) == None
  {
    var at := |key| - |OriginalMarker|;
    assert forall k :: 0 <= k < |OriginalMarker| ==> key[at + k] == OriginalMarker[k] by {
      forall k | 0 <= k < |OriginalMarker| ensures key[at + k] == OriginalMarker[k] {
        assert key[at..][k] == key[at + k];
      }
    }
    ContainedAt(key, OriginalMarker, at);
  }

  /* The lemmas below take the key and the names as parameters fixed by their requires
     clauses, rather than as literals or constants, which keeps the verifier from
     unfolding the string search on them. */
  lemma SampleKeyNotRaw(key: string, marker: string)
    requires key in {"vidhiRsvpdInvitees", "garbaRsvpdInvitees", "weddingRsvpdInvitees"}
    requires marker == ".original"
    ensures !CaseInsensitiveContains(key, marker)
  {
    CharMissingInBothCases(key, marker, 0);
  }

  lemma SampleKeyLacksVidhi(key: string, vidhi: string)
    requires key in {"garbaRsvpdInvitees", "weddingRsvpdInvitees"} && vidhi == "VIDHI"
    ensures !CaseInsensitiveContains(key, vidhi)
  {
    CharMissingInBothCases(key, vidhi, 3);
  }

  lemma SampleKeyLacksGarba(key: string, garba: string)
    requires key == "weddingRsvpdInvitees" && garba == "GARBA"
    ensures !CaseInsensitiveContains(key, garba)
  {
    CharMissingInBothCases(key, garba, 1);
  }

  lemma SampleKeyNamesEvent(key: string, name: string)
    requires || (key == "vidhiRsvpdInvitees" && name == "VIDHI")
             || (key == "garbaRsvpdInvitees" && name == "GARBA")
             || (key == "weddingRsvpdInvitees" && name == "WEDDING")
    ensures CaseInsensitiveContains(key, name)
  {
    ContainedAt(key, name, 0);
  }

  lemma ClassifyTestVidhiKey(key: string)
    requires key == "vidhiRsvpdInvitees"
    ensures Classify(key) == Some(Vidhi)
  {
    SampleKeyNotRaw(key, OriginalMarker);
    SampleKeyNamesEvent(key, Vidhi.name);
  }

  lemma ClassifyTestGarbaKey(key: string)
    requires key == "garbaRsvpdInvitees"
    ensures Classify(key) == Some(Garba)
  {
    SampleKeyNotRaw(key, OriginalMarker);
    SampleKeyLacksVidhi(key, Vidhi.name);
    SampleKeyNamesEvent(key, Garba.name);
  }

  lemma ClassifyTestWeddingKey(key: string)
    requires key == "weddingRsvpdInvitees"
    ensures Classify(key) == Some(Wedding)
  {
    SampleKeyNotRaw(key, OriginalMarker);
    SampleKeyLacksVidhi(key, Vidhi.name);
    SampleKeyLacksGarba(key, Garba.name);
    SampleKeyNamesEvent(key, Wedding.name);
  }

  lemma ClassifyTestEventKeys(v: string, g: string, w: string)
    requires v == "vidhiRsvpdInvitees" && g == "garbaRsvpdInvitees" && w == "weddingRsvpdInvitees"
    ensures Classify(v) == Some(Vidhi) && Classify(g) == Some(Garba) && Classify(w) == Some(Wedding)
  {
    ClassifyTestVidhiKey(v);
    ClassifyTestGarbaKey(g);
    ClassifyTestWeddingKey(w);
  }

  lemma ClassifyTestRawKeys(vr: string, gr: string, wr: string)
    requires vr == "vidhiRsvpdInvitees.original" && gr == "garbaRsvpdInvitees.original"
    requires wr == "weddingRsvpdInvitees.original"
    ensures Classify(vr) == None && Classify(gr) == None && Classify(wr) == None
  {
    RawKeyIgnored(vr);
    RawKeyIgnored(gr);
    RawKeyIgnored(wr);
  }

  /** On the test request every order of visiting the keys gives
      {VIDHI: 6, GARBA: 7, WEDDING: 8}. */
  lemma TestParametersExtraction(rsvps: map<Event, int>)
    ensures IsExtraction(TestParameters, rsvps) <==> rsvps == map[Vidhi := 6, Garba := 7, Wedding := 8]
  {
    TestParametersExtractionByKeys("vidhiRsvpdInvitees", "vidhiRsvpdInvitees.original",
                                   "garbaRsvpdInvitees", "garbaRsvpdInvitees.original",
                                   "weddingRsvpdInvitees", "weddingRsvpdInvitees.original", rsvps);
  }

  lemma TestParametersExtractionByKeys(v: string, vr: string, g: string, gr: string, w: string, wr: string,
                                       rsvps: map<Event, int>)
    requires v == "vidhiRsvpdInvitees" && vr == "vidhiRsvpdInvitees.original"
    requires g == "garbaRsvpdInvitees" && gr == "garbaRsvpdInvitees.original"
    requires w == "weddingRsvpdInvitees" && wr == "weddingRsvpdInvitees.original"
    ensures IsExtraction(TestParameters, rsvps) <==> rsvps == map[Vidhi := 6, Garba := 7, Wedding := 8]
  {
    TestParametersShape(v, vr, g, gr, w, wr);
    ClassifyTestEventKeys(v, g, w);
    ClassifyTestRawKeys(vr, gr, wr);
    TestValuesExtraction(TestParameters, v, vr, g, gr, w, wr, rsvps);
  }

  lemma TestValuesExtraction(values: map<string, Value>, v: string, vr: string, g: string, gr: string,
                             w: string, wr: string, rsvps: map<Event, int>)
    requires values.Keys == {v, vr, g, gr, w, wr}
    requires values[v] == NumberValue(6) && values[g] == NumberValue(7) && values[w] == NumberValue(8)
    requires Classify(v) == Some(Vidhi) && Classify(g) == Some(Garba) && Classify(w) == Some(Wedding)
    requires Classify(vr) == None && Classify(gr) == None && Classify(wr) == None
    ensures IsExtraction(values, rsvps) <==> rsvps == map[Vidhi := 6, Garba := 7, Wedding := 8]
  {
    ThreeCreditedKeys(values, v, vr, g, gr, w, wr, rsvps);
    assert GetNumberValue(values[v]) == 6 && GetNumberValue(values[g]) == 7 && GetNumberValue(values[w]) == 8;
  }

  lemma TestParametersShape(v: string, vr: string, g: string, gr: string, w: string, wr: string)
    requires v == "vidhiRsvpdInvitees" && vr == "vidhiRsvpdInvitees.original"
    requires g == "garbaRsvpdInvitees" && gr == "garbaRsvpdInvitees.original"
    requires w == "weddingRsvpdInvitees" && wr == "weddingRsvpdInvitees.original"
    ensures TestParameters.Keys == {v, vr, g, gr, w, wr}
    ensures TestParameters[v] == NumberValue(6) && TestParameters[g] == NumberValue(7)
    ensures TestParameters[w] == NumberValue(8)
  {
    // the six keys are distinct: by first letter, and by length (18 or 20 against 27 or 29)
    assert v[0] == 'v' && g[0] == 'g' && w[0] == 'w';
    assert vr[0] == 'v' && gr[0] == 'g' && wr[0] == 'w';
  }

  lemma ThreeCreditedKeys(values: map<string, Value>, v: string, vr: string, g: string, gr: string,
                          w: string, wr: string, rsvps: map<Event, int>)
    requires values.Keys == {v, vr, g, gr, w, wr}
    requires Classify(v) == Some(Vidhi) && Classify(g) == Some(Garba) && Classify(w) == Some(Wedding)
    requires Classify(vr) == None && Classify(gr) == None && Classify(wr) == None
    ensures IsExtraction(values, rsvps) <==>
      rsvps == map[Vidhi := GetNumberValue(values[v]), Garba := GetNumberValue(values[g]),
                   Wedding := GetNumberValue(values[w])]
  {
    forall k | k in values && k != v && k != g && k != w ensures Classify(k) == None {
      assert k == vr || k == gr || k == wr;
    }
    OneKeyPerEvent(values, v, g, w, rsvps);
  }
}
