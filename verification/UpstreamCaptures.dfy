/** Captures made with the record builders, before the upstream normalizer. */
module UpstreamCaptures {
  import opened Bytes
  import opened UpstreamNormalizer
  import opened UpstreamAgreement
  import opened UpstreamGrammar
  import opened OracleTraceParser
  import opened OracleTraceShape
  import opened OracleTraceBuilders
  import opened OracleTraceCaptures
  import opened Codec = OracleTraceCodec

  // A clock slot as the normalizer wants it.
  predicate SlotReads(H: Hash, c: Capture, k: nat)
    requires k < |c.steps|
  {
    match c.steps[k]
    case Slot(cycle, _, mutation, mutations, flags) =>
      && cycle == k + 1 && Bit(flags, EXECUTED) != Bit(flags, INHIBITED)
      && (mutations == 0 ==> mutation == EmptyMutation(H))
    case Outside(_, _, _, _, _) => false
  }

  // A run of clock slots at their own cycles, up to its limit.
  ghost predicate NormalRun(H: Hash, c: Capture) {
    && c.startCycle == 0 && (forall k :: 0 <= k < |c.steps| ==> SlotReads(H, c, k))
    && |c.steps| <= c.endCycle && c.status == COMPLETE && c.reason == REASON_LIMIT
  }

  // ----- Made records are sound -----

  lemma FoundCritical(r: Record, typ: nat, width: nat)
    requires RequiredTlvs(r) && Has(r, typ) && Known(r.kind, typ) == Some((true, Some(width)))
    ensures Critical(r, typ, width)
  {
    FindIndex(r.tlvs, typ);
  }

  lemma SoundBoundary(r: Record)
    requires RequiredTlvs(r) && r.kind == KIND_BOUNDARY && (Ordinal(r) != 0 ==> Has(r, 5))
    ensures BoundarySound(r)
  {
    hide Has, Critical, RequiredTlvs, Ordinal;
    RequiredOfBoundary(r);
    FoundCritical(r, 1, 32);
    FoundCritical(r, 2, 32);
    FoundCritical(r, 3, 32);
    FoundCritical(r, 4, 8);
    FoundCritical(r, 6, 8);
    FoundCritical(r, 7, 8);
    FoundCritical(r, 8, 4);
    if Ordinal(r) != 0 {
      FoundCritical(r, 5, 8);
    }
  }

  lemma SoundTerminal(r: Record)
    requires RequiredTlvs(r) && r.kind == KIND_TERMINAL
    ensures TerminalSound(r)
  {
    hide Has, Critical, RequiredTlvs;
    RequiredOfTerminal(r);
    FoundCritical(r, 1, 8);
    FoundCritical(r, 2, 8);
    FoundCritical(r, 3, 32);
    FoundCritical(r, 4, 4);
    FoundCritical(r, 5, 4);
  }

  lemma WideIdentity(H: Hash, uuid: seq<Byte>, r: Record)
    requires RequiredTlvs(r) && r.kind == KIND_BOUNDARY && IdentityIntact(H, uuid, r)
    ensures IdentityWide(r)
  {
    forall typ | 101 <= typ <= 108
      ensures |ValueOf(r, typ)| == 32
    {
      assert Has(r, typ);
      FindIndex(r.tlvs, typ);
    }
  }

  // ----- Which captures the normalizer takes -----

  lemma OpeningReadsIff(H: Hash, c: Capture)
    requires Encodable(c)
    ensures BoundaryReads(H, Uuid(H, c), MadeRecords(H, c), 0) <==> c.startCycle == 0
  {
    hide MadeTerminal, Has, ValueOf, Number, FirstMutation, Mutations, Ordinal, EmptyMutation, RequiredTlvs, OpeningRecord,
      IdentityIntact, IdentityWide, BoundarySound, Zeros, LaterReads, Semantic;
    MadeAt(H, c, 0);
    OpeningItems(H, c.components, c.startCycle, c.startState);
    OpeningRequired(H, c.components, c.startCycle, c.startState);
    OpeningIdentity(H, c.components, c.startCycle, c.startState);
    var r := OpeningRecord(H, c.components, c.startCycle, c.startState);
    SoundBoundary(r);
    WideIdentity(H, Uuid(H, c), r);
  }

  lemma {:induction false} OnlySlots(c: Capture, k: nat)
    requires k <= |c.steps| && forall j :: 0 <= j < k ==> c.steps[j].Slot?
    ensures LastSlot(c, k) == SlotsBefore(c, k) == k
    decreases k
  {
    if k > 0 {
      OnlySlots(c, k - 1);
    }
  }

  lemma SlotReadsIff(H: Hash, c: Capture, k: nat)
    requires Encodable(c) && k < |c.steps| && forall j :: 0 <= j <= k ==> c.steps[j].Slot?
    ensures BoundaryReads(H, Uuid(H, c), MadeRecords(H, c), k + 1) <==> SlotReads(H, c, k)
  {
    hide MadeRecord, MadeTerminal, MadeRecords, StepEncodable, Has, ValueOf, Number, Ordinal, FirstMutation, Mutations, Semantic,
      EmptyMutation, RequiredTlvs, NoIdentity, LastSlot, LastBoundary, SlotsBefore, MutationsBefore, OpeningReads, Bit,
      BoundarySound, HaltedAt, Halts;
    OnlySlots(c, k);
    OnlySlots(c, k + 1);
    SlotFields(H, c, k + 1);
    MadeAt(H, c, k + 1);
    Behind(H, c, k);
    SoundBoundary(MadeRecord(H, c, k + 1));
  }

  lemma EventIsNoBoundary(H: Hash, c: Capture, k: nat)
    requires Encodable(c) && k < |c.steps| && c.steps[k].Outside?
    ensures !BoundaryReads(H, Uuid(H, c), MadeRecords(H, c), k + 1)
  {
    hide MadeRecord, MadeTerminal, MadeRecords, Encodable, BoundarySound, OpeningReads, LaterReads;
    MadeAt(H, c, k + 1);
  }

  lemma TerminalReadsIff(H: Hash, c: Capture)
    requires Encodable(c) && forall j :: 0 <= j < |c.steps| ==> c.steps[j].Slot?
    ensures TerminalReads(H, MadeRecords(H, c), |c.steps|) <==>
              CycleBefore(c, |c.steps|) <= c.endCycle && c.status == COMPLETE && c.reason == REASON_LIMIT
  {
    hide MadeRecord, MadeTerminal, MadeRecords, StepEncodable, Number, ValueOf, Semantic, RequiredTlvs, NoIdentity, LastSlot,
      SlotsBefore, TerminalSound, CycleBefore;
    var n := |c.steps|;
    OnlySlots(c, n);
    TerminalFields(H, c);
    MadeAt(H, c, n);
    SoundTerminal(MadeTerminal(H, c));
  }

  lemma ReadsAreSlots(H: Hash, c: Capture)
    requires forall k :: 0 <= k < |c.steps| ==> SlotReads(H, c, k)
    ensures forall k :: 0 <= k < |c.steps| ==> c.steps[k].Slot?
  {
    hide EmptyMutation, Bit;
    forall k | 0 <= k < |c.steps|
      ensures c.steps[k].Slot?
    {
      assert SlotReads(H, c, k);
    }
  }

  lemma LastCycle(H: Hash, c: Capture)
    requires c.startCycle == 0 && forall k :: 0 <= k < |c.steps| ==> SlotReads(H, c, k)
    ensures CycleBefore(c, |c.steps|) == |c.steps|
  {
    hide EmptyMutation, Bit;
    assert |c.steps| > 0 ==> SlotReads(H, c, |c.steps| - 1);
  }

  lemma GrammarMeansRun(H: Hash, c: Capture)
    requires Encodable(c) && NormalizerGrammar(H, Uuid(H, c), |c.steps|, MadeRecords(H, c))
    ensures NormalRun(H, c)
  {
    hide MadeRecords, StepEncodable, BoundaryReads, TerminalReads, Uuid;
    forall k | 0 <= k < |c.steps|
      ensures c.steps[k].Slot?
    {
      assert BoundaryReads(H, Uuid(H, c), MadeRecords(H, c), k + 1);
      if c.steps[k].Outside? {
        EventIsNoBoundary(H, c, k);
      }
    }
    forall k | 0 <= k < |c.steps|
      ensures SlotReads(H, c, k)
    {
      assert BoundaryReads(H, Uuid(H, c), MadeRecords(H, c), k + 1);
      SlotReadsIff(H, c, k);
    }
    OpeningReadsIff(H, c);
    TerminalReadsIff(H, c);
    LastCycle(H, c);
  }

  lemma RunMeansGrammar(H: Hash, c: Capture)
    requires Encodable(c) && NormalRun(H, c)
    ensures NormalizerGrammar(H, Uuid(H, c), |c.steps|, MadeRecords(H, c))
  {
    hide MadeRecords, StepEncodable, BoundaryReads, TerminalReads, Uuid;
    ReadsAreSlots(H, c);
    LastCycle(H, c);
    forall k | 0 <= k <= |c.steps|
      ensures BoundaryReads(H, Uuid(H, c), MadeRecords(H, c), k)
    {
      if k == 0 {
        OpeningReadsIff(H, c);
      } else {
        assert SlotReads(H, c, k - 1);
        SlotReadsIff(H, c, k - 1);
      }
    }
    TerminalReadsIff(H, c);
  }

  // The bytes of any capture, read back by both decoders' common parts.
  lemma PrintedParts(H: Hash, t: Trace)
    requires PrintTrace(t).Ok?
    ensures var data := PrintTrace(t).value;
            && |data| >= HEADER_SIZE && ParseHeader(data[..HEADER_SIZE]) == Ok(t.header)
            && ParseRecords(data[HEADER_SIZE..]) == Ok(t.records)
  {
    hide ParseHeader, RecordsBytes, ParseRecords, Printable, ValidHeader;
    ParseEncodedHeader(t.header);
    ParsePrintedRecords(t.records);
    var data := PrintTrace(t).value;
    assert data[..HEADER_SIZE] == EncodeHeader(t.header).value && data[HEADER_SIZE..] == RecordsBytes(t.records);
  }

  // The normalizer takes the bytes of a capture, whatever the codec says of it, exactly when the header counts
  // the records and the capture is a run of clock slots at their own cycles up to its limit.
  lemma NormalizerTakesCapture(H: Hash, c: Capture, count: nat)
    requires Encodable(c) && |c.steps| + 2 <= MAX_RECORDS && count in {STREAMING_COUNT, |c.steps| + 2}
    ensures |c.components| == 8 && PrintTrace(MadeTrace(H, c, count)).Ok?
    ensures Normalized(H, PrintTrace(MadeTrace(H, c, count)).value, |c.steps|).Ok? <==>
              count == |c.steps| + 2 && NormalRun(H, c)
  {
    assert |c.components| == 8;
    hide Encodable, MadeRecords, ParseTrace, PrintTrace, RunRule, NormalRun, Uuid, Normalized, NormalizerGrammar, ReadUuid,
      ParseHeader, ParseRecords;
    CaptureRoundTrip(H, c, count);
    var data := PrintTrace(MadeTrace(H, c, count)).value;
    PrintedParts(H, MadeTrace(H, c, count));
    HeadersAgree(data, |c.steps|);
    NormalizerDecidesGrammar(H, data, |c.steps|);
    if NormalizerGrammar(H, Uuid(H, c), |c.steps|, MadeRecords(H, c)) {
      GrammarMeansRun(H, c);
    }
    if NormalRun(H, c) {
      RunMeansGrammar(H, c);
    }
  }

  // Flags words of slots that neither open (1) nor halt (16) and have no unknown bit (32 and above).
  predicate PlainFlags(c: Capture) {
    forall k :: 0 <= k < |c.steps| && c.steps[k].Slot? ==> c.steps[k].flags < 16 && c.steps[k].flags % 2 == 0
  }

  lemma PlainIs(flags: nat)
    ensures flags < 32 && !Bit(flags, S0) && !Bit(flags, HALT) <==> flags < 16 && flags % 2 == 0
  {
    hide Bit;
    LowBits(flags);
  }

  // Of the captures it takes, the codec accepts exactly those whose flags are plain.
  lemma FlagsDecide(H: Hash, c: Capture)
    requires Encodable(c) && |c.steps| + 2 <= MAX_RECORDS && NormalRun(H, c)
    ensures |c.components| == 8 && PrintTrace(MadeTrace(H, c, |c.steps| + 2)).Ok?
    ensures ParseTrace(H, PrintTrace(MadeTrace(H, c, |c.steps| + 2)).value, ANY).Ok? <==> PlainFlags(c)
  {
    assert |c.components| == 8;
    CaptureRoundTrip(H, c, |c.steps| + 2);
    RunIffPlain(H, c);
    hide *;
  }

  lemma PlainRuns(H: Hash, c: Capture)
    requires |c.steps| + 2 <= MAX_RECORDS && NormalRun(H, c) && PlainFlags(c)
    ensures RunRule(H, c)
  {
    hide EmptyMutation, Bit, LastSlot;
    ReadsAreSlots(H, c);
    LastCycle(H, c);
    forall k | 0 <= k <= |c.steps|
      ensures LastSlot(c, k) == k && !Halts(c, k)
    {
      OnlySlots(c, k);
      if k > 0 {
        PlainIs(c.steps[k - 1].flags);
      }
    }
    forall k | 0 <= k < |c.steps|
      ensures StepRule(H, c, k)
    {
      assert SlotReads(H, c, k) && (k > 0 ==> SlotReads(H, c, k - 1));
      PlainIs(c.steps[k].flags);
    }
  }

  lemma RunIsPlain(H: Hash, c: Capture, k: nat)
    requires RunRule(H, c) && NormalRun(H, c) && k < |c.steps| && c.steps[k].Slot?
    ensures c.steps[k].flags < 16 && c.steps[k].flags % 2 == 0
  {
    hide EmptyMutation, Bit, LastSlot;
    PlainIs(c.steps[k].flags);
    ReadsAreSlots(H, c);
    OnlySlots(c, k + 1);
    assert StepRule(H, c, k);
    if k + 1 < |c.steps| {
      assert StepRule(H, c, k + 1);
    }
  }

  lemma RunIffPlain(H: Hash, c: Capture)
    requires |c.steps| + 2 <= MAX_RECORDS && NormalRun(H, c)
    ensures RunRule(H, c) <==> PlainFlags(c)
  {
    hide RunRule, NormalRun, Bit;
    if RunRule(H, c) {
      forall k | 0 <= k < |c.steps| && c.steps[k].Slot?
        ensures c.steps[k].flags < 16 && c.steps[k].flags % 2 == 0
      {
        RunIsPlain(H, c, k);
      }
    } else if PlainFlags(c) {
      PlainRuns(H, c);
    }
  }

  // A capture that the normalizer takes and the codec refuses: one slot with a flag bit that nobody knows.
  lemma NormalizerTakesMore(H: Hash, components: seq<Digest>, s: Digest)
    requires |components| == 8
    ensures var c := Capture(components, 0, s, [Slot(1, s, EmptyMutation(H), 0, 34)], 1, COMPLETE, REASON_LIMIT);
            && PrintTrace(MadeTrace(H, c, 3)).Ok?
            && Normalized(H, PrintTrace(MadeTrace(H, c, 3)).value, 1).Ok?
            && ParseTrace(H, PrintTrace(MadeTrace(H, c, 3)).value, ANY).Err?
  {
    hide Normalized, ParseTrace, PrintTrace, MadeTrace, EmptyMutation;
    LowBits(34);
    var c := Capture(components, 0, s, [Slot(1, s, EmptyMutation(H), 0, 34)], 1, COMPLETE, REASON_LIMIT);
    assert !(c.steps[0].flags < 16) && !PlainFlags(c);
    assert Encodable(c) && NormalRun(H, c);
    NormalizerTakesCapture(H, c, 3);
    FlagsDecide(H, c);
  }
}
