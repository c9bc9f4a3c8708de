/** The normalizer's own grammar: which records it accepts, said of the records alone. */
module UpstreamGrammar {
  import opened Bytes
  import opened TlvFraming
  import opened UpstreamReader
  import opened UpstreamNormalizer
  import opened UpstreamAgreement
  import opened OracleTraceParser
  import opened OracleTraceShape
  import opened Codec = OracleTraceCodec

  // ----- The normalizer's run over the codec's records -----

  function TakeRecord(H: Hash, uuid: seq<Byte>, slots: nat, s: Progress, r: Record): Result<Progress> {
    if r.sequence != s.sequence || (s.sequence > 0 && r.cycle < s.previousCycle) then Err else
    Take(H, uuid, slots, s, Raw(r.kind, r.cycle, EncodeTlvs(r.tlvs)), Indexed(r.tlvs))
  }

  function TakeAll(H: Hash, uuid: seq<Byte>, slots: nat, s: Progress, records: seq<Record>): Result<Progress>
    decreases |records|
  {
    if records == [] then Ok(s) else
    var t :- TakeRecord(H, uuid, slots, s, records[0]);
    TakeAll(H, uuid, slots, t, records[1..])
  }

  lemma TurnReads(H: Hash, uuid: seq<Byte>, slots: nat, s: Progress, data: seq<Byte>)
    requires data != [] && Consume(H, uuid, slots, s, data).Ok?
    ensures ParseRecord(data).Ok?
    ensures var (r, n) := ParseRecord(data).value;
            && Ordered(r.tlvs, 0) && TakeRecord(H, uuid, slots, s, r).Ok?
            && Consume(H, uuid, slots, s, data) == Consume(H, uuid, slots, TakeRecord(H, uuid, slots, s, r).value, data[n..])
  {
    hide ParseTlvs, ReadRaw, Indexed, EncodeTlvs, TakeBoundary, TakeTerminal, ParseRecord, RecordBytes;
    var (raw, n) := ReadRaw(data, s.sequence, s.previousCycle).value;
    RawIsRecord(data, s.sequence, s.previousCycle);
    ReadersAgree(data, s.sequence, s.previousCycle);
    EncodeParsedRecord(data);
  }

  // Whatever the normalizer consumes, the codec reads as records, and the normalizer's run is over them.
  lemma {:induction false} ConsumedParses(H: Hash, uuid: seq<Byte>, slots: nat, s: Progress, data: seq<Byte>)
    requires Consume(H, uuid, slots, s, data).Ok?
    ensures ParseRecords(data).Ok?
    ensures TakeAll(H, uuid, slots, s, ParseRecords(data).value) == Consume(H, uuid, slots, s, data)
    decreases |data|
  {
    hide TakeRecord, ParseRecord, ReadRaw, Take, Indexed, ParseTlvs;
    if data != [] {
      TurnReads(H, uuid, slots, s, data);
      var (r, n) := ParseRecord(data).value;
      ConsumedParses(H, uuid, slots, TakeRecord(H, uuid, slots, s, r).value, data[n..]);
      var rest := ParseRecords(data[n..]).value;
      assert ([r] + rest)[0] == r && ([r] + rest)[1..] == rest;
    }
  }

  // And whatever the codec reads as records, the normalizer consumes when its run over them succeeds.
  lemma {:induction false} ParsedConsumes(H: Hash, uuid: seq<Byte>, slots: nat, s: Progress, data: seq<Byte>)
    requires ParseRecords(data).Ok? && TakeAll(H, uuid, slots, s, ParseRecords(data).value).Ok?
    ensures Consume(H, uuid, slots, s, data) == TakeAll(H, uuid, slots, s, ParseRecords(data).value)
    decreases |data|
  {
    hide ParseRecord, ReadRaw, Take, Indexed, ParseTlvs, Consume;
    if data != [] {
      var (r, n) := ParseRecord(data).value;
      var rest := ParseRecords(data[n..]).value;
      assert ([r] + rest)[0] == r && ([r] + rest)[1..] == rest;
      NextTurn(H, uuid, slots, s, data);
      ParsedConsumes(H, uuid, slots, TakeRecord(H, uuid, slots, s, r).value, data[n..]);
    } else {
      NothingLeft(H, uuid, slots, s, data);
    }
  }

  // ----- The grammar -----

  // A critical item of this width.
  predicate Critical(r: Record, typ: nat, width: nat) {
    match Find(r.tlvs, typ)
    case Some(x) => x.flag && |x.value| == width
    case None => false
  }

  predicate BoundarySound(r: Record) {
    && Critical(r, 1, 32) && Critical(r, 2, 32) && Critical(r, 3, 32) && Critical(r, 4, 8) && Critical(r, 6, 8)
    && Critical(r, 7, 8) && Critical(r, 8, 4) && (Ordinal(r) != 0 ==> Critical(r, 5, 8))
  }

  predicate TerminalSound(r: Record) {
    Critical(r, 1, 8) && Critical(r, 2, 8) && Critical(r, 3, 32) && Critical(r, 4, 4) && Critical(r, 5, 4)
  }

  predicate IdentityWide(r: Record) { forall typ :: 101 <= typ <= 108 ==> |ValueOf(r, typ)| == 32 }

  predicate OpeningReads(H: Hash, uuid: seq<Byte>, r: Record) {
    && r.cycle == 0 && Number(r, 8) == 1 && ValueOf(r, 1) == Zeros(32) && FirstMutation(r) == 0
    && IdentityIntact(H, uuid, r) && IdentityWide(r)
  }

  predicate LaterReads(r: Record, semantic: Digest, ordinal: nat, nextMutation: nat) {
    && r.cycle == ordinal && Number(r, 5) == ordinal - 1 && ValueOf(r, 1) == semantic
    && FirstMutation(r) == nextMutation && Flag(r, EXECUTED) != Flag(r, INHIBITED)
  }

  // Boundary k opens the trace or continues boundary k - 1, at machine cycle k.
  ghost predicate BoundaryReads(H: Hash, uuid: seq<Byte>, records: seq<Record>, k: nat)
    requires k < |records|
  {
    var r := records[k];
    && r.kind == KIND_BOUNDARY && BoundarySound(r) && r.sequence == Ordinal(r) == k
    && (Mutations(r) == 0 ==> ValueOf(r, 3) == EmptyMutation(H))
    && if k == 0 then OpeningReads(H, uuid, r) else
       LaterReads(r, Semantic(H, records[k - 1]), k, FirstMutation(records[k - 1]) + Mutations(records[k - 1]))
  }

  ghost predicate TerminalReads(H: Hash, records: seq<Record>, slots: nat)
    requires slots + 1 < |records|
  {
    var r := records[slots + 1];
    && r.kind == KIND_TERMINAL && TerminalSound(r) && r.sequence == slots + 1 && records[slots].cycle <= r.cycle
    && LimitReached(r) && Number(r, 1) == slots + 2 && Number(r, 2) == slots && ValueOf(r, 3) == Semantic(H, records[slots])
  }

  ghost predicate NormalizerGrammar(H: Hash, uuid: seq<Byte>, slots: nat, records: seq<Record>) {
    && |records| == slots + 2 && TerminalReads(H, records, slots)
    && forall k :: 0 <= k <= slots ==> BoundaryReads(H, uuid, records, k)
  }

  // ----- What taking a record says about it -----

  lemma FieldSays(r: Record, typ: nat, width: nat)
    requires Ordered(r.tlvs, 0)
    ensures Field(Indexed(r.tlvs), typ, width) == if Critical(r, typ, width) then Ok(ValueOf(r, typ)) else Err
    ensures Critical(r, typ, width) ==> Has(r, typ)
  {
    hide Find, Indexed, Ordered;
    LookupsAgree(r, typ);
  }

  // A line is read off the items the codec sees.
  lemma LineSays(H: Hash, r: Record)
    requires Ordered(r.tlvs, 0)
    ensures ReadLine(H, r.cycle, EncodeTlvs(r.tlvs), Indexed(r.tlvs)) ==
              if BoundarySound(r) then Ok((LineOf(H, r), ValueOf(r, 1))) else Err
  {
    hide Field, Has, ValueOf, Indexed, FromLE, EncodeTlvs, Ordered, Critical;
    FieldSays(r, 1, 32);
    FieldSays(r, 2, 32);
    FieldSays(r, 3, 32);
    FieldSays(r, 4, 8);
    FieldSays(r, 5, 8);
    FieldSays(r, 6, 8);
    FieldSays(r, 7, 8);
    FieldSays(r, 8, 4);
  }

  lemma IdentityFieldSays(r: Record, typ: nat)
    requires Ordered(r.tlvs, 0)
    ensures IdentityField(Indexed(r.tlvs), typ) == ValueOf(r, typ)
    ensures ValueOf(r, typ) != [] ==> Has(r, typ)
  {
    hide Find, Indexed, Ordered;
    LookupsAgree(r, typ);
  }

  lemma IdentitySays(H: Hash, uuid: seq<Byte>, r: Record)
    requires Ordered(r.tlvs, 0)
    ensures BindsIdentity(H, uuid, Indexed(r.tlvs)) <==> IdentityIntact(H, uuid, r) && IdentityWide(r)
  {
    hide Has, ValueOf, Indexed, Ordered, Join, IdentityField;
    var d := Indexed(r.tlvs);
    var components := seq(8, i requires 0 <= i < 8 => IdentityField(d, 101 + i));
    forall typ | 100 <= typ <= 108
      ensures IdentityField(d, typ) == ValueOf(r, typ) && (ValueOf(r, typ) != [] ==> Has(r, typ))
    {
      IdentityFieldSays(r, typ);
    }
    assert components == Components(r);
    assert (forall i :: 0 <= i < 8 ==> |components[i]| == 32) <==> IdentityWide(r) by {
      ComponentsWide(r);
    }
  }

  lemma ComponentsWide(r: Record)
    ensures (forall i :: 0 <= i < 8 ==> |Components(r)[i]| == 32) <==> IdentityWide(r)
  {
    hide ValueOf;
    var c := Components(r);
    forall typ | 101 <= typ <= 108
      ensures c[typ - 101] == ValueOf(r, typ)
    {}
    if IdentityWide(r) {
      forall i | 0 <= i < 8
        ensures |c[i]| == 32
      {
        assert c[i] == ValueOf(r, 101 + i);
      }
    }
  }

  lemma LineRuleSays(H: Hash, uuid: seq<Byte>, s: Progress, r: Record)
    requires Ordered(r.tlvs, 0)
    ensures LineRule(H, uuid, s, LineOf(H, r), ValueOf(r, 1), Indexed(r.tlvs)) <==>
              && Ordinal(r) == s.boundaries && FirstMutation(r) == s.mutationNext
              && (Mutations(r) == 0 ==> ValueOf(r, 3) == EmptyMutation(H))
              && if Ordinal(r) == 0 then
                   && r.cycle == 0 && Number(r, 8) == 1 && ValueOf(r, 1) == Zeros(32)
                   && IdentityIntact(H, uuid, r) && IdentityWide(r)
                 else
                   && Number(r, 5) == Ordinal(r) - 1 && r.cycle == Ordinal(r) && ValueOf(r, 1) == s.finalSemantic
                   && Flag(r, EXECUTED) != Flag(r, INHIBITED)
  {
    hide BindsIdentity, IdentityIntact, IdentityWide, Semantic, Has, ValueOf, Indexed, EmptyMutation, Bit, FromLE, Ordered, Zeros;
    IdentitySays(H, uuid, r);
  }

  // In its turn a boundary is taken exactly when it reads well.
  lemma BoundarySays(H: Hash, uuid: seq<Byte>, slots: nat, records: seq<Record>, i: nat, s: Progress)
    requires i < |records| && records[i].kind == KIND_BOUNDARY && Ordered(records[i].tlvs, 0) && Following(H, records, i, s)
    requires i > 0 ==> records[i - 1].cycle <= i
    ensures TakeRecord(H, uuid, slots, s, records[i]).Ok? <==> BoundaryReads(H, uuid, records, i)
    ensures TakeRecord(H, uuid, slots, s, records[i]).Ok? ==>
              Following(H, records, i + 1, TakeRecord(H, uuid, slots, s, records[i]).value)
  {
    hide ReadLine, LineRule, LineOf, Semantic, Ordinal, FirstMutation, Mutations, Number, ValueOf, Has, Ordered, Flag,
      Append, Lines, Indexed, EncodeTlvs, IdentityIntact, IdentityWide, EmptyMutation, Zeros, BoundarySound;
    var r := records[i];
    LineSays(H, r);
    LineRuleSays(H, uuid, s, r);
    if TakeRecord(H, uuid, slots, s, r).Ok? {
      FollowingNext(H, records, i, s);
    }
  }

  lemma TerminalSays(H: Hash, uuid: seq<Byte>, slots: nat, records: seq<Record>, i: nat, s: Progress)
    requires i < |records| && records[i].kind == KIND_TERMINAL && Ordered(records[i].tlvs, 0) && Following(H, records, i, s)
    ensures var t := TakeRecord(H, uuid, slots, s, records[i]);
            && (t.Ok? <==> i == slots + 1 && TerminalReads(H, records, slots))
            && (t.Ok? ==> t.value.sequence == slots + 2 && t.value.boundaries == slots + 1 && Exact(slots, t.value))
            && (t.Ok? ==> t.value.lines == Lines(H, records, i))
  {
    hide Semantic, Ordinal, FirstMutation, Mutations, ValueOf, Has, Ordered, Lines, Indexed, EncodeTlvs, Field, FromLE, Critical;
    var r := records[i];
    FieldSays(r, 4, 4);
    FieldSays(r, 5, 4);
    FieldSays(r, 1, 8);
    FieldSays(r, 2, 8);
    FieldSays(r, 3, 32);
  }

  lemma {:induction false} BoundariesGrow(H: Hash, uuid: seq<Byte>, slots: nat, s: Progress, records: seq<Record>)
    requires TakeAll(H, uuid, slots, s, records).Ok?
    ensures TakeAll(H, uuid, slots, s, records).value.boundaries >= s.boundaries
    decreases |records|
  {
    hide ReadLine, LineRule, EncodeTlvs, Indexed, Field, FromLE;
    if records != [] {
      BoundariesGrow(H, uuid, slots, TakeRecord(H, uuid, slots, s, records[0]).value, records[1..]);
    }
  }

  // Nothing can follow the terminal of an exact run.
  lemma NothingAfterTerminal(H: Hash, uuid: seq<Byte>, slots: nat, s: Progress, records: seq<Record>)
    requires s.sequence > slots + 1 && s.boundaries == slots + 1 && Arrives(slots, TakeAll(H, uuid, slots, s, records))
    ensures records == []
  {
    hide ReadLine, LineRule, EncodeTlvs, Indexed, Field, FromLE;
    if records != [] {
      var t := TakeRecord(H, uuid, slots, s, records[0]).value;
      BoundariesGrow(H, uuid, slots, t, records[1..]);
    }
  }

  // What position i and those behind it must hold.
  ghost predicate ReadsFrom(H: Hash, uuid: seq<Byte>, slots: nat, records: seq<Record>, i: nat) {
    && |records| == slots + 2 && TerminalReads(H, records, slots)
    && forall k :: i <= k <= slots ==> BoundaryReads(H, uuid, records, k)
  }

  lemma ReadsNext(H: Hash, uuid: seq<Byte>, slots: nat, records: seq<Record>, i: nat)
    requires i < |records| && records[i].kind == KIND_BOUNDARY
    ensures ReadsFrom(H, uuid, slots, records, i) <==>
              BoundaryReads(H, uuid, records, i) && ReadsFrom(H, uuid, slots, records, i + 1)
  {
    hide BoundaryReads;
  }

  lemma ReadsEnds(H: Hash, uuid: seq<Byte>, slots: nat, records: seq<Record>, i: nat)
    requires i < |records| && records[i].kind != KIND_BOUNDARY
    ensures ReadsFrom(H, uuid, slots, records, i) <==>
              |records| == slots + 2 == i + 1 && records[i].kind == KIND_TERMINAL && TerminalReads(H, records, slots)
  {
    hide TerminalSound, Number, ValueOf, Semantic;
    if |records| == slots + 2 && i <= slots {
      assert !BoundaryReads(H, uuid, records, i);
    }
  }

  lemma {:induction false} RunSays(H: Hash, uuid: seq<Byte>, slots: nat, records: seq<Record>, i: nat, s: Progress)
    requires i <= |records| && (forall k :: 0 <= k < |records| ==> Ordered(records[k].tlvs, 0))
    requires Following(H, records, i, s) && (i > 0 ==> records[i - 1].cycle <= i)
    ensures Arrives(slots, TakeAll(H, uuid, slots, s, records[i..])) <==> ReadsFrom(H, uuid, slots, records, i)
    ensures ReadsFrom(H, uuid, slots, records, i) ==>
              TakeAll(H, uuid, slots, s, records[i..]).value.lines == Lines(H, records, slots + 1)
    decreases |records| - i
  {
    hide TakeBoundary, TakeTerminal, BoundaryReads, TerminalReads, Following, Ordered, EncodeTlvs, Indexed, ReadsFrom, Lines;
    Enough(H, uuid, slots, records, i);
    NotDoneYet(H, uuid, slots, records, i, s);
    if i < |records| {
      var r := records[i..][0];
      assert r == records[i] && records[i..][1..] == records[i + 1..];
      var t := TakeRecord(H, uuid, slots, s, r);
      if r.kind == KIND_BOUNDARY {
        BoundarySays(H, uuid, slots, records, i, s);
        ReadsNext(H, uuid, slots, records, i);
        if t.Ok? {
          AtOwnCycle(H, uuid, records, i);
          RunSays(H, uuid, slots, records, i + 1, t.value);
        }
      } else {
        ReadsEnds(H, uuid, slots, records, i);
        if r.kind == KIND_TERMINAL {
          TerminalSays(H, uuid, slots, records, i, s);
          if t.Ok? && Arrives(slots, TakeAll(H, uuid, slots, t.value, records[i + 1..])) {
            NothingAfterTerminal(H, uuid, slots, t.value, records[i + 1..]);
          }
        }
      }
    }
  }

  lemma Enough(H: Hash, uuid: seq<Byte>, slots: nat, records: seq<Record>, i: nat)
    ensures ReadsFrom(H, uuid, slots, records, i) ==> |records| == slots + 2
  {
    hide BoundaryReads, TerminalReads;
  }

  lemma AtOwnCycle(H: Hash, uuid: seq<Byte>, records: seq<Record>, i: nat)
    requires i < |records| && BoundaryReads(H, uuid, records, i)
    ensures records[i].cycle == i
  {}

  lemma NotDoneYet(H: Hash, uuid: seq<Byte>, slots: nat, records: seq<Record>, i: nat, s: Progress)
    requires i <= |records| && Following(H, records, i, s)
    ensures s.terminal == None
    ensures i == |records| ==> !ReadsFrom(H, uuid, slots, records, i)
  {
    hide BoundaryReads, Semantic, Ordinal, FirstMutation, Mutations;
  }

  lemma {:induction false} ParsedOrdered(data: seq<Byte>)
    requires ParseRecords(data).Ok?
    ensures var rs := ParseRecords(data).value;
            Printable(rs) && forall k :: 0 <= k < |rs| ==> Ordered(rs[k].tlvs, 0)
  {
    hide ParseRecords, Ordered, EncodeTlvs;
    PrintParsedRecords(data);
  }

  // The normalizer accepts exactly the files whose header it reads and whose records meet its grammar, and
  // writes a line for each boundary.
  lemma NormalizerDecidesGrammar(H: Hash, data: seq<Byte>, slots: nat)
    ensures Normalized(H, data, slots).Ok? <==>
              && ReadUuid(data, slots).Ok? && |data| >= HEADER_SIZE && ParseRecords(data[HEADER_SIZE..]).Ok?
              && NormalizerGrammar(H, ReadUuid(data, slots).value, slots, ParseRecords(data[HEADER_SIZE..]).value)
    ensures Normalized(H, data, slots).Ok? ==>
              Normalized(H, data, slots).value == Lines(H, ParseRecords(data[HEADER_SIZE..]).value, slots + 1)
  {
    hide Lines, Consume, ReadUuid, ParseRecords, TakeAll, Following, BoundaryReads, TerminalReads, Ordered, Printable;
    if ReadUuid(data, slots).Ok? {
      var uuid := ReadUuid(data, slots).value;
      UuidNeedsHeader(data, slots);
      var body := data[HEADER_SIZE..];
      if Consume(H, uuid, slots, BEGIN, body).Ok? {
        ConsumedParses(H, uuid, slots, BEGIN, body);
      }
      if ParseRecords(body).Ok? {
        var rs := ParseRecords(body).value;
        ParsedOrdered(body);
        StartFollows(H, rs);
        assert rs[0..] == rs;
        RunSays(H, uuid, slots, rs, 0, BEGIN);
        if TakeAll(H, uuid, slots, BEGIN, rs).Ok? {
          ParsedConsumes(H, uuid, slots, BEGIN, body);
        }
      }
    }
  }
}
