/** Of what the upstream normalizer accepts, exactly what the codec accepts: the checks the normalizer leaves out. */
module UpstreamConverse {
  import opened Bytes
  import opened RecordFraming
  import opened UpstreamNormalizer
  import opened UpstreamGrammar
  import opened OracleTraceParser
  import opened OracleTraceShape
  import opened Codec = OracleTraceCodec

  // ----- The checks left out -----

  // Boundary flags are known ones, no boundary halts, and only S0 carries its flag.
  predicate FlagsRule(r: Record, k: nat) { Number(r, 8) < 32 && !Flag(r, HALT) && (k > 0 ==> !Flag(r, S0)) }

  // Every known item is critical or not and as wide as it should be, no unknown item is critical, the
  // identity block and the slot stay where they belong, S0 announces no mutation, and the flags are right.
  ghost predicate LeftToCodec(records: seq<Record>)
    requires records != []
  {
    && (forall k :: 0 <= k < |records| ==> RequiredTlvs(records[k]))
    && (forall k :: 0 < k < |records| ==> NoIdentity(records[k]))
    && !Has(records[0], 5) && Mutations(records[0]) == 0
    && forall k :: 0 <= k < |records| - 1 ==> FlagsRule(records[k], k)
  }

  lemma LastBoundaryIs(H: Hash, uuid: seq<Byte>, slots: nat, records: seq<Record>, k: nat)
    requires NormalizerGrammar(H, uuid, slots, records) && k <= slots
    ensures LastBoundary(records, k) == k - 1 && LastBoundary(records, k + 1) == k
    ensures records[k].kind == KIND_BOUNDARY && (k > 0 ==> records[k - 1].kind == KIND_BOUNDARY)
    ensures forall j :: 0 <= j <= k ==> records[j].kind == KIND_BOUNDARY
  {
    hide TerminalReads;
    forall j | 0 <= j <= k
      ensures records[j].kind == KIND_BOUNDARY
    {
      assert BoundaryReads(H, uuid, records, j);
    }
  }

  predicate NotHalting(records: seq<Record>, k: nat)
    requires k <= |records|
  {
    k > 0 ==> !Flag(records[k - 1], HALT)
  }

  // What is left to check of the boundary at position k when the one before it does not halt.
  predicate BoundaryLeft(records: seq<Record>, k: nat)
    requires k < |records|
  {
    var r := records[k];
    && RequiredTlvs(r) && Number(r, 8) < 32
    && if k == 0 then !Has(r, 5) && Mutations(r) == 0 else NoIdentity(r) && !Flag(r, S0)
  }

  lemma OpeningIff(H: Hash, uuid: seq<Byte>, slots: nat, records: seq<Record>)
    requires NormalizerGrammar(H, uuid, slots, records)
    ensures RecordFits(H, uuid, records, 0) <==> BoundaryLeft(records, 0)
  {
    hide RequiredTlvs, Has, ValueOf, Number, Mutations, FirstMutation, Semantic, EmptyMutation, Zeros, IdentityIntact,
      NoIdentity, LaterRule, TerminalReads;
    LastBoundaryIs(H, uuid, slots, records, 0);
    assert BoundaryReads(H, uuid, records, 0);
  }

  lemma LaterIff(H: Hash, uuid: seq<Byte>, slots: nat, records: seq<Record>, k: nat)
    requires NormalizerGrammar(H, uuid, slots, records) && 0 < k <= slots && k < MAX_RECORDS && NotHalting(records, k)
    ensures RecordFits(H, uuid, records, k) <==> BoundaryLeft(records, k)
  {
    hide RequiredTlvs, Has, ValueOf, Number, Mutations, FirstMutation, Semantic, EmptyMutation, Zeros, IdentityIntact,
      NoIdentity, OpeningRule, TerminalReads, Flag, Ordinal, LastBoundary, NormalizerGrammar, Critical;
    GrammarAt(H, uuid, slots, records, k);
    SlotPresent(H, uuid, records, k);
    GrammarAt(H, uuid, slots, records, k - 1);
    LastBoundaryIs(H, uuid, slots, records, k);
  }

  lemma SlotPresent(H: Hash, uuid: seq<Byte>, records: seq<Record>, k: nat)
    requires 0 < k < |records| && BoundaryReads(H, uuid, records, k)
    ensures Has(records[k], 5)
  {
    hide OpeningReads, LaterReads, Semantic, Number;
  }

  lemma GrammarAt(H: Hash, uuid: seq<Byte>, slots: nat, records: seq<Record>, k: nat)
    requires NormalizerGrammar(H, uuid, slots, records) && k <= slots
    ensures k < |records| && BoundaryReads(H, uuid, records, k)
  {
    hide BoundaryReads, TerminalReads;
  }

  lemma TerminalIff(H: Hash, uuid: seq<Byte>, slots: nat, records: seq<Record>)
    requires NormalizerGrammar(H, uuid, slots, records) && slots + 2 <= MAX_RECORDS && NotHalting(records, slots + 1)
    ensures var r := records[slots + 1];
            RecordFits(H, uuid, records, slots + 1) <==> RequiredTlvs(r) && NoIdentity(r)
  {
    hide RequiredTlvs, ValueOf, Number, Semantic, NoIdentity, Flag, Ordinal, LastBoundary, BoundaryReads, IdentityIntact;
    LastBoundaryIs(H, uuid, slots, records, slots);
    OrdinalIs(H, uuid, slots, records, slots);
    assert !HasEvent(records, slots + 1);
  }

  lemma OrdinalIs(H: Hash, uuid: seq<Byte>, slots: nat, records: seq<Record>, k: nat)
    requires NormalizerGrammar(H, uuid, slots, records) && k <= slots
    ensures Ordinal(records[k]) == k
  {
    hide TerminalReads;
    assert BoundaryReads(H, uuid, records, k);
  }

  // In a trace of the grammar that ended at its limit no boundary halts.
  lemma LimitNeverHalts(H: Hash, header: Header, slots: nat, records: seq<Record>, k: nat)
    requires NormalizerGrammar(H, header.uuid, slots, records) && Grammar(H, header, records) && k <= slots
    ensures !Flag(records[k], HALT)
  {
    hide Grammar, Flag, Number, TerminalReads, BoundaryReads, LastBoundary, AllKinds;
    LastBoundaryIs(H, header.uuid, slots, records, slots);
    LastBoundaryIs(H, header.uuid, slots, records, k);
    KindsAre(H, header.uuid, slots, records);
    LimitSays(H, header.uuid, slots, records);
    CompleteTraces(H, header, records);
    if Flag(records[k], HALT) {
      HaltIsFollowedByTerminal(H, header, records, k);
    }
  }

  lemma LimitSays(H: Hash, uuid: seq<Byte>, slots: nat, records: seq<Record>)
    requires NormalizerGrammar(H, uuid, slots, records)
    ensures Number(records[|records| - 1], 4) == COMPLETE && Number(records[|records| - 1], 5) == REASON_LIMIT
  {
    hide BoundaryReads, Number;
  }

  lemma KindsAre(H: Hash, uuid: seq<Byte>, slots: nat, records: seq<Record>)
    requires NormalizerGrammar(H, uuid, slots, records)
    ensures AllKinds(records)
  {
    LastBoundaryIs(H, uuid, slots, records, slots);
    hide BoundaryReads, LastBoundary;
  }

  lemma LeftMeansFlags(records: seq<Record>, k: nat)
    requires records != [] && LeftToCodec(records) && k < |records| - 1
    ensures BoundaryLeft(records, k) && !Flag(records[k], HALT)
  {
    hide RequiredTlvs, NoIdentity, Has, Mutations, Number, Flag;
    assert FlagsRule(records[k], k);
  }

  lemma LeftMeansGrammar(H: Hash, header: Header, slots: nat, records: seq<Record>)
    requires NormalizerGrammar(H, header.uuid, slots, records) && slots + 2 <= MAX_RECORDS
    requires header.recordCount == slots + 2 && records != []
    ensures LeftToCodec(records) ==> Grammar(H, header, records)
  {
    hide RecordFits, RequiredTlvs, NoIdentity, Has, Number, Flag, BoundaryReads, BoundaryLeft, LastBoundary;
    if LeftToCodec(records) {
      forall k | 0 <= k <= slots
        ensures RecordFits(H, header.uuid, records, k)
      {
        LeftMeansFlags(records, k);
        if k == 0 {
          OpeningIff(H, header.uuid, slots, records);
        } else {
          LeftMeansFlags(records, k - 1);
          LaterIff(H, header.uuid, slots, records, k);
        }
      }
      LeftMeansFlags(records, slots);
      TerminalIff(H, header.uuid, slots, records);
      OrdinalIs(H, header.uuid, slots, records, 0);
      LastBoundaryIs(H, header.uuid, slots, records, 0);
    }
  }

  lemma GrammarMeansLeft(H: Hash, header: Header, slots: nat, records: seq<Record>)
    requires NormalizerGrammar(H, header.uuid, slots, records) && slots + 2 <= MAX_RECORDS
    requires Grammar(H, header, records) && records != []
    ensures LeftToCodec(records)
  {
    hide RecordFits, RequiredTlvs, NoIdentity, Has, Number, Flag, BoundaryReads, TerminalReads, LastBoundary, Mutations;
    forall k | 0 <= k <= slots
      ensures BoundaryLeft(records, k) && FlagsRule(records[k], k)
    {
      assert RecordFits(H, header.uuid, records, k);
      LimitNeverHalts(H, header, slots, records, k);
      if k == 0 {
        OpeningIff(H, header.uuid, slots, records);
      } else {
        LimitNeverHalts(H, header, slots, records, k - 1);
        LaterIff(H, header.uuid, slots, records, k);
      }
    }
    assert RecordFits(H, header.uuid, records, slots + 1);
    LimitNeverHalts(H, header, slots, records, slots);
    TerminalIff(H, header.uuid, slots, records);
  }

  lemma HeaderReads(data: seq<Byte>, slots: nat)
    requires ReadUuid(data, slots).Ok? && slots + 2 <= MAX_RECORDS
    ensures |data| >= HEADER_SIZE && ParseHeader(data[..HEADER_SIZE]) == Ok(Header(slots + 2, ReadUuid(data, slots).value))
  {
    hide Split, FromLE, LE, SealIntact, Ascii, Zeros, HeaderWidths;
    assert data[..HEADER_SIZE][..60] == data[..60];
  }

  // The other half of the agreement: of the files the normalizer accepts, within its record limit the codec
  // accepts exactly those whose records pass the checks that the normalizer leaves out.
  lemma CodecAgreesWithNormalizer(H: Hash, data: seq<Byte>, slots: nat)
    requires Normalized(H, data, slots).Ok? && slots + 2 <= MAX_RECORDS
    ensures |data| >= HEADER_SIZE && ParseRecords(data[HEADER_SIZE..]).Ok?
    ensures var records := ParseRecords(data[HEADER_SIZE..]).value;
            records != [] && (ParseTrace(H, data, ANY).Ok? <==> LeftToCodec(records))
  {
    hide Consume, ReadUuid, ParseHeader, ParseRecords, NormalizerGrammar, Grammar, LeftToCodec, Accepted, AllKinds, Normalized;
    NormalizerDecidesGrammar(H, data, slots);
    NormalizedHeader(H, data, slots);
    HeaderReads(data, slots);
    var uuid, rs := ReadUuid(data, slots).value, ParseRecords(data[HEADER_SIZE..]).value;
    var header := Header(slots + 2, uuid);
    NotEmpty(H, uuid, slots, rs);
    KindsAre(H, uuid, slots, rs);
    ParserDecidesGrammar(H, header, rs);
    LeftMeansGrammar(H, header, slots, rs);
    if Grammar(H, header, rs) {
      GrammarMeansLeft(H, header, slots, rs);
    }
  }

  lemma NormalizedHeader(H: Hash, data: seq<Byte>, slots: nat)
    requires Normalized(H, data, slots).Ok?
    ensures ReadUuid(data, slots).Ok?
  {
    hide Consume, ReadUuid;
  }

  lemma NotEmpty(H: Hash, uuid: seq<Byte>, slots: nat, records: seq<Record>)
    requires NormalizerGrammar(H, uuid, slots, records)
    ensures records != []
  {
    hide BoundaryReads, TerminalReads;
  }
}
