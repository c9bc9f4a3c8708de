/** Captures made with the record builders: exactly when the parser accepts them. */
module OracleTraceCaptures {
  import opened Bytes
  import opened TlvFraming
  import opened OracleTraceCodec
  import opened OracleTraceParser
  import opened OracleTraceShape
  import opened OracleTraceBuilders

  function Uuid(H: Hash, c: Capture): seq<Byte>
    requires |c.components| == 8
  {
    Derived(H, c.components)[..16]
  }

  lemma MadeEnvelope(H: Hash, c: Capture, k: nat)
    requires Encodable(c) && k <= |c.steps|
    ensures var r := MadeRecord(H, c, k);
            && r.kind == (if k == 0 || c.steps[k - 1].Slot? then KIND_BOUNDARY else KIND_EVENT)
            && r.sequence == k && r.cycle == CycleBefore(c, k)
  {
    hide Semantic, LE, IdentityTlvs, EmptyMutation, SlotsBefore, MutationsBefore, Zeros;
  }

  lemma MadeAt(H: Hash, c: Capture, k: nat)
    requires Encodable(c) && k <= |c.steps|
    ensures var rs := MadeRecords(H, c);
            && rs[k] == MadeRecord(H, c, k) && rs[|c.steps| + 1] == MadeTerminal(H, c)
            && rs[k].kind == (if k == 0 || c.steps[k - 1].Slot? then KIND_BOUNDARY else KIND_EVENT)
            && rs[k].sequence == k && rs[k].cycle == CycleBefore(c, k)
  {
    hide MadeRecord, MadeTerminal, Encodable, CycleBefore;
    MadeEnvelope(H, c, k);
  }

  lemma {:induction false} LastMade(H: Hash, c: Capture, k: nat)
    requires Encodable(c) && k <= |c.steps|
    ensures LastBoundary(MadeRecords(H, c), k + 1) == LastSlot(c, k)
    decreases k
  {
    hide MadeRecord, MadeTerminal, MadeRecords, Encodable, CycleBefore;
    MadeAt(H, c, k);
    if k > 0 {
      LastMade(H, c, k - 1);
    }
  }

  // What the record after step k meets behind it.
  lemma Behind(H: Hash, c: Capture, k: nat)
    requires Encodable(c) && k <= |c.steps|
    ensures var rs, p := MadeRecords(H, c), LastSlot(c, k);
            && LastBoundary(rs, k + 1) == p && rs[p] == MadeRecord(H, c, p) && Ordinal(rs[p]) == SlotsBefore(c, k)
            && FirstMutation(rs[p]) + Mutations(rs[p]) == MutationsBefore(c, k)
            && (HaltedAt(rs, k + 1) <==> Halts(c, k)) && rs[k].cycle == CycleBefore(c, k)
            && (forall j :: 0 <= j <= k ==> rs[j].kind != KIND_TERMINAL)
  {
    hide MadeRecord, MadeTerminal, MadeRecords, StepEncodable, CycleBefore, LastSlot, LastBoundary, SlotsBefore,
      MutationsBefore, RequiredTlvs, NoIdentity, Ordinal, FirstMutation, Mutations, Flag;
    var p := LastSlot(c, k);
    AtLastSlot(c, k);
    LastMade(H, c, k);
    MadeFields(H, c, p);
    forall j | 0 <= j <= k
      ensures MadeRecords(H, c)[j].kind != KIND_TERMINAL
    {
      MadeAt(H, c, j);
    }
    MadeAt(H, c, k);
    MadeAt(H, c, p);
  }

  lemma OpeningFits(H: Hash, c: Capture)
    requires Encodable(c)
    ensures RecordFits(H, Uuid(H, c), MadeRecords(H, c), 0) && IsS0(MadeRecords(H, c)[0], 0)
  {
    hide MadeTerminal, Has, ValueOf, Number, FirstMutation, Mutations, Semantic, EmptyMutation, FromLE, RequiredTlvs,
      OpeningRecord, IdentityIntact, LaterRule, Zeros, NoIdentity;
    MadeAt(H, c, 0);
    OpeningItems(H, c.components, c.startCycle, c.startState);
    OpeningRequired(H, c.components, c.startCycle, c.startState);
    OpeningIdentity(H, c.components, c.startCycle, c.startState);
  }

  // The rule for slot k, given what stands behind it.
  lemma SlotDecides(H: Hash, c: Capture, k: nat)
    requires Encodable(c) && k < |c.steps| && c.steps[k].Slot? && CycleBefore(c, k) <= c.steps[k].cycle
    ensures BoundaryFits(H, MadeRecords(H, c), k + 1) <==> StepRule(H, c, k)
  {
    hide MadeRecord, MadeTerminal, MadeRecords, Encodable, Has, ValueOf, Number, Ordinal, FirstMutation, Mutations,
      Semantic, EmptyMutation, Bit, FromLE, MutationsBefore, SlotsBefore, LastSlot, CycleBefore, Halts, HaltedAt,
      RequiredTlvs, NoIdentity, LastBoundary, OpeningRule;
    SlotFields(H, c, k + 1);
    MadeAt(H, c, k + 1);
    Behind(H, c, k);
    SlotsFollow(c, k);
  }

  lemma SlotsFollow(c: Capture, k: nat)
    requires k < |c.steps| && c.steps[k].Slot?
    ensures SlotsBefore(c, k + 1) == SlotsBefore(c, k) + 1
  {}

  lemma EventDecides(H: Hash, c: Capture, k: nat)
    requires Encodable(c) && k < |c.steps| && c.steps[k].Outside?
    ensures var r := MadeRecord(H, c, k + 1);
            RequiredTlvs(r) && NoIdentity(r) <==> ExtrasRule(c.steps[k].extra)
  {
    hide RequiredTlvs, NoIdentity, ExtrasRule, Ordered, EncodeTlvs;
    var e := c.steps[k];
    assert StepEncodable(c, k);
    EventItemsIff(MadeRecord(H, c, k + 1), e.source, e.event, e.bytes, e.extra);
  }

  lemma StepItems(H: Hash, c: Capture, k: nat)
    requires Encodable(c) && k < |c.steps|
    ensures var r := MadeRecord(H, c, k + 1);
            RequiredTlvs(r) && NoIdentity(r) <==> (c.steps[k].Slot? || ExtrasRule(c.steps[k].extra))
  {
    hide RequiredTlvs, NoIdentity, ExtrasRule, Encodable, MadeRecord, Ordinal, FirstMutation, Mutations, Semantic;
    if c.steps[k].Slot? {
      SlotFields(H, c, k + 1);
    } else {
      EventDecides(H, c, k);
    }
  }

  lemma StepDecides(H: Hash, c: Capture, k: nat)
    requires Encodable(c) && k < |c.steps| && k + 1 < MAX_RECORDS
    ensures RecordFits(H, Uuid(H, c), MadeRecords(H, c), k + 1) <==> StepRule(H, c, k)
  {
    hide MadeRecord, MadeTerminal, MadeRecords, Encodable, RequiredTlvs, NoIdentity, BoundaryFits, TerminalFits,
      HaltedAt, Halts, LastSlot, LastBoundary, Ordinal, FirstMutation, Mutations, IdentityIntact, ExtrasRule,
      EmptyMutation, Bit, SlotsBefore, MutationsBefore;
    MadeAt(H, c, k + 1);
    Behind(H, c, k);
    StepItems(H, c, k);
    if c.steps[k].Slot? && CycleBefore(c, k) <= c.steps[k].cycle {
      SlotDecides(H, c, k);
    }
  }

  lemma TerminalFields(H: Hash, c: Capture)
    requires Encodable(c)
    ensures var r, n := MadeTerminal(H, c), |c.steps|;
            && r.kind == KIND_TERMINAL && r.sequence == n + 1 && r.cycle == c.endCycle
            && Number(r, 1) == n + 2 && Number(r, 2) == SlotsBefore(c, n)
            && ValueOf(r, 3) == Semantic(H, MadeRecord(H, c, LastSlot(c, n)))
            && Number(r, 4) == c.status && Number(r, 5) == c.reason && RequiredTlvs(r) && NoIdentity(r)
  {
    hide MadeRecord, Number, ValueOf, Semantic, RequiredTlvs, NoIdentity, MutationsBefore, TerminalRecord, LastSlot,
      SlotsBefore, StepEncodable;
    var n := |c.steps|;
    var p := Semantic(H, MadeRecord(H, c, LastSlot(c, n)));
    SlotsFit(c, n);
    TerminalItems(n + 1, c.endCycle, n + 2, SlotsBefore(c, n), p, c.status, c.reason);
    TerminalRequired(n + 1, c.endCycle, n + 2, SlotsBefore(c, n), p, c.status, c.reason);
  }

  lemma EventsAmong(H: Hash, c: Capture)
    requires Encodable(c)
    ensures HasEvent(MadeRecords(H, c), |c.steps| + 1) <==> exists k :: 0 <= k < |c.steps| && c.steps[k].Outside?
  {
    hide MadeRecord, MadeTerminal, MadeRecords, StepEncodable, CycleBefore;
    forall j | 0 <= j <= |c.steps|
      ensures MadeRecords(H, c)[j].kind == KIND_EVENT <==> j > 0 && c.steps[j - 1].Outside?
    {
      MadeAt(H, c, j);
    }
    if k :| 0 <= k < |c.steps| && c.steps[k].Outside? {
      assert MadeRecords(H, c)[k + 1].kind == KIND_EVENT;
    }
  }

  lemma TerminalDecides(H: Hash, c: Capture)
    requires Encodable(c) && |c.steps| + 1 < MAX_RECORDS
    ensures RecordFits(H, Uuid(H, c), MadeRecords(H, c), |c.steps| + 1) <==> EndRule(c)
  {
    hide MadeRecord, MadeTerminal, MadeRecords, Encodable, RequiredTlvs, NoIdentity, BoundaryFits, LastBoundary,
      Ordinal, FirstMutation, Mutations, IdentityIntact, Number, ValueOf, Semantic, Halts, HaltedAt, HasEvent,
      CycleBefore, LastSlot, SlotsBefore, MutationsBefore;
    MadeAt(H, c, 0);
    Behind(H, c, |c.steps|);
    TerminalFields(H, c);
    EventsAmong(H, c);
  }

  ghost predicate AllFit(H: Hash, c: Capture)
    requires |c.components| == 8
  {
    forall i :: 0 <= i < |MadeRecords(H, c)| ==> RecordFits(H, Uuid(H, c), MadeRecords(H, c), i)
  }

  ghost predicate StepsRule(H: Hash, c: Capture) { forall k :: 0 <= k < |c.steps| ==> StepRule(H, c, k) }

  lemma FitsMeansRules(H: Hash, c: Capture)
    requires Encodable(c) && |c.components| == 8 && |c.steps| + 1 < MAX_RECORDS && AllFit(H, c)
    ensures StepsRule(H, c) && EndRule(c)
  {
    hide MadeRecords, Encodable, RecordFits, StepRule, Uuid, EndRule;
    assert RecordFits(H, Uuid(H, c), MadeRecords(H, c), |c.steps| + 1);
    TerminalDecides(H, c);
    forall k | 0 <= k < |c.steps|
      ensures StepRule(H, c, k)
    {
      assert RecordFits(H, Uuid(H, c), MadeRecords(H, c), k + 1);
      StepDecides(H, c, k);
    }
  }

  lemma RulesMeanFits(H: Hash, c: Capture)
    requires Encodable(c) && |c.components| == 8 && |c.steps| + 1 < MAX_RECORDS && StepsRule(H, c) && EndRule(c)
    ensures AllFit(H, c)
  {
    hide MadeRecords, Encodable, RecordFits, StepRule, Uuid, EndRule;
    forall i | 0 <= i < |MadeRecords(H, c)|
      ensures RecordFits(H, Uuid(H, c), MadeRecords(H, c), i)
    {
      if i == 0 {
        OpeningFits(H, c);
      } else if i <= |c.steps| {
        assert StepRule(H, c, i - 1);
        StepDecides(H, c, i - 1);
      } else {
        TerminalDecides(H, c);
      }
    }
  }

  lemma GrammarOfMade(H: Hash, c: Capture, count: nat)
    requires Encodable(c) && |c.components| == 8 && count in {STREAMING_COUNT, |c.steps| + 2}
    ensures Grammar(H, Header(count, Uuid(H, c)), MadeRecords(H, c)) <==> AllFit(H, c)
  {
    hide MadeRecord, MadeTerminal, MadeRecords, Encodable, RecordFits, Uuid, IsS0, LastBoundary, Number, ValueOf,
      NoIdentity, RequiredTlvs, CycleBefore;
    MadeAt(H, c, |c.steps|);
    TerminalFields(H, c);
    OpeningFits(H, c);
  }

  // The parser accepts what the builders made of a capture exactly when its steps and its end keep the rules.
  lemma CaptureAcceptedIff(H: Hash, c: Capture, count: nat)
    requires Encodable(c) && count in {STREAMING_COUNT, |c.steps| + 2}
    ensures |c.components| == 8
    ensures Grammar(H, Header(count, Uuid(H, c)), MadeRecords(H, c)) <==> RunRule(H, c)
  {
    assert |c.components| == 8;
    hide MadeRecords, Encodable, RecordFits, StepRule, Uuid, Grammar, StepsRule, EndRule;
    GrammarOfMade(H, c, count);
    assert RunRule(H, c) <==> |c.steps| + 2 <= MAX_RECORDS && StepsRule(H, c) && EndRule(c) by {
      RuleParts(H, c);
    }
    if |c.steps| + 1 < MAX_RECORDS {
      if AllFit(H, c) {
        FitsMeansRules(H, c);
      }
      if StepsRule(H, c) && EndRule(c) {
        RulesMeanFits(H, c);
      }
    } else {
      TooLong(H, Uuid(H, c), MadeRecords(H, c));
    }
  }

  lemma RuleParts(H: Hash, c: Capture)
    ensures RunRule(H, c) <==> |c.steps| + 2 <= MAX_RECORDS && StepsRule(H, c) && EndRule(c)
  {
    hide StepRule, EndRule;
  }

  lemma TooLong(H: Hash, uuid: seq<Byte>, rs: seq<Record>)
    requires |rs| > MAX_RECORDS
    ensures !RecordFits(H, uuid, rs, |rs| - 1)
  {
    hide RequiredTlvs, IdentityRule, BoundaryFits, TerminalFits, HaltedAt, IsS0;
  }

  // ----- As bytes -----

  lemma {:induction false} EncodedLength(tlvs: seq<Tlv>)
    requires forall x :: x in tlvs ==> |x.value| <= 32
    ensures |EncodeTlvs(tlvs)| <= 47 * |tlvs|
    decreases |tlvs|
  {
    hide LE;
    if tlvs != [] {
      EncodedLength(tlvs[1..]);
    }
  }

  // Up to 16 items of at most 32 bytes make a record that can be printed.
  lemma SmallRecordValid(r: Record)
    requires r.kind in {KIND_BOUNDARY, KIND_EVENT, KIND_TERMINAL} && r.sequence < U64 && r.cycle < U64
    requires Rising(r.tlvs) && |r.tlvs| <= 16
    requires forall x :: x in r.tlvs ==> 0 < x.typ < U16 && |x.value| <= 32
    ensures ValidRecord(r)
  {
    hide EncodeTlvs, Ordered;
    EncodedLength(r.tlvs);
    OrderedFromIndices(r.tlvs, 0);
  }

  lemma OpeningValid(H: Hash, components: seq<Digest>, cycle: nat, state: Digest)
    requires |components| == 8 && cycle < U64
    ensures ValidRecord(OpeningRecord(H, components, cycle, state))
  {
    hide ValidRecord, LE, EmptyMutation, Derived, Find, Has;
    OpeningRises(H, components, cycle, state);
    SmallRecordValid(OpeningRecord(H, components, cycle, state));
  }

  lemma SlotValid(H: Hash, c: Capture, k: nat)
    requires Encodable(c) && k < |c.steps| && c.steps[k].Slot?
    ensures ValidRecord(MadeRecord(H, c, k + 1))
  {
    hide ValidRecord, LE, Semantic, EmptyMutation, SlotsBefore, MutationsBefore;
    assert StepEncodable(c, k);
    SmallRecordValid(MadeRecord(H, c, k + 1));
  }

  lemma MadeRecordValid(H: Hash, c: Capture, k: nat)
    requires Encodable(c) && k <= |c.steps|
    ensures ValidRecord(MadeRecord(H, c, k))
  {
    hide ValidRecord, Semantic, OpeningRecord, BoundaryRecord, EventRecord, SlotsBefore, MutationsBefore;
    if k == 0 {
      OpeningValid(H, c.components, c.startCycle, c.startState);
    } else {
      assert StepEncodable(c, k - 1);
      if c.steps[k - 1].Slot? {
        SlotValid(H, c, k - 1);
      }
    }
  }

  lemma MadeTerminalValid(H: Hash, c: Capture)
    requires Encodable(c)
    ensures ValidRecord(MadeTerminal(H, c))
  {
    hide ValidRecord, LE, Semantic, MadeRecord, SlotsBefore;
    SmallRecordValid(MadeTerminal(H, c));
  }

  lemma MadeRecordsPrintable(H: Hash, c: Capture)
    requires Encodable(c)
    ensures Printable(MadeRecords(H, c))
  {
    hide MadeRecord, MadeTerminal, ValidRecord, StepEncodable;
    forall k | 0 <= k <= |c.steps|
      ensures ValidRecord(MadeRecord(H, c, k))
    {
      MadeRecordValid(H, c, k);
    }
    MadeTerminalValid(H, c);
  }

  function MadeTrace(H: Hash, c: Capture, count: nat): Trace
    requires |c.components| == 8
  {
    Trace(Header(count, Uuid(H, c)), MadeRecords(H, c))
  }

  // A capture of a length the format allows prints, and its bytes are read back exactly when it keeps the rules.
  lemma CaptureRoundTrip(H: Hash, c: Capture, count: nat)
    requires Encodable(c) && |c.steps| + 2 <= MAX_RECORDS && count in {STREAMING_COUNT, |c.steps| + 2}
    ensures var t := MadeTrace(H, c, count);
            && PrintTrace(t).Ok?
            && ParseTrace(H, PrintTrace(t).value, ANY) == if RunRule(H, c) then Ok(t) else Err
  {
    assert |c.components| == 8;
    hide Encodable, MadeRecords, Printable, ParseTrace, Grammar, RunRule, RecordsBytes, HeaderFields, Join, Derived;
    MadeRecordsPrintable(H, c);
    ParsePrintedTrace(H, MadeTrace(H, c, count));
    CaptureAcceptedIff(H, c, count);
  }

  // A checkpoint (8) does not halt: a run goes on after an executed slot with flags 10.
  lemma CheckpointGoesOn(H: Hash, components: seq<Digest>, s: Digest)
    requires |components| == 8
    ensures var m := EmptyMutation(H);
            var c := Capture(components, 0, s, [Slot(1, s, m, 0, 10), Slot(2, s, m, 0, 2)], 2, 0, 1);
            PrintTrace(MadeTrace(H, c, 4)).Ok? && ParseTrace(H, PrintTrace(MadeTrace(H, c, 4)).value, ANY) == Ok(MadeTrace(H, c, 4))
  {
    hide ParseTrace, PrintTrace, MadeTrace, EmptyMutation, Bit;
    var m := EmptyMutation(H);
    var c := Capture(components, 0, s, [Slot(1, s, m, 0, 10), Slot(2, s, m, 0, 2)], 2, 0, 1);
    LowBits(10);
    LowBits(2);
    assert MutationsBefore(c, 0) == 0 && MutationsBefore(c, 1) == 0;
    assert StepEncodable(c, 0) && StepEncodable(c, 1);
    assert LastSlot(c, 0) == 0 && LastSlot(c, 1) == 1 && LastSlot(c, 2) == 2;
    assert StepRule(H, c, 0) && StepRule(H, c, 1) && EndRule(c);
    CaptureRoundTrip(H, c, 4);
  }
}
