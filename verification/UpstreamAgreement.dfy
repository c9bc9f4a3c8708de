/** What the upstream normalizer's output looks like, and exactly when it accepts what the codec accepts. */
module UpstreamAgreement {
  import opened Bytes
  import opened TlvFraming
  import opened RecordFraming
  import opened UpstreamReader
  import opened UpstreamNormalizer
  import opened OracleTraceParser
  import opened OracleTraceShape
  import opened Codec = OracleTraceCodec

  // ----- The output, for every byte string -----

  function CountTotal(lines: seq<Line>): nat {
    if lines == [] then 0 else CountTotal(lines[..|lines| - 1]) + lines[|lines| - 1].count
  }

  // Boundary k stands at machine cycle k, after clock slot k - 1, and its mutations begin where those
  // of the boundaries before it end.
  predicate LineFits(lines: seq<Line>, k: nat)
    requires k < |lines|
  {
    && lines[k].ordinal == lines[k].cycle == k && lines[k].slot == (if k == 0 then None else Some(k - 1))
    && lines[k].first == CountTotal(lines[..k])
  }

  ghost predicate Orderly(s: Progress) {
    && |s.lines| == s.boundaries && s.mutationNext == CountTotal(s.lines)
    && forall k :: 0 <= k < |s.lines| ==> LineFits(s.lines, k)
  }

  lemma AppendStaysOrderly(s: Progress, line: Line)
    requires Orderly(s) && line.ordinal == line.cycle == s.boundaries && line.first == s.mutationNext
    requires line.slot == (if line.ordinal == 0 then None else Some(line.ordinal - 1))
    ensures Orderly(Append(s, line))
  {
    var n, lines := |s.lines|, s.lines + [line];
    assert lines[..n] == s.lines;
    forall k | 0 <= k < n
      ensures LineFits(lines, k)
    {
      assert LineFits(s.lines, k);
      assert lines[..k] == s.lines[..k];
    }
  }

  lemma TakeStaysOrderly(H: Hash, uuid: seq<Byte>, slots: nat, s: Progress, raw: Raw, d: Dictionary)
    requires Orderly(s) && Take(H, uuid, slots, s, raw, d).Ok?
    ensures Orderly(Take(H, uuid, slots, s, raw, d).value)
  {
    hide Field, BindsIdentity, Bit, EmptyMutation, FromLE, CountTotal, LineFits;
    if raw.kind == KIND_BOUNDARY {
      AppendStaysOrderly(s, ReadLine(H, raw.cycle, raw.payload, d).value.0);
    }
  }

  lemma {:induction false} ConsumeStaysOrderly(H: Hash, uuid: seq<Byte>, slots: nat, s: Progress, data: seq<Byte>)
    requires Orderly(s) && Consume(H, uuid, slots, s, data).Ok?
    ensures Orderly(Consume(H, uuid, slots, s, data).value)
    decreases |data|
  {
    hide Take, ReadRaw, Orderly, Indexed, ParseTlvs;
    if data != [] {
      var (raw, n) := ReadRaw(data, s.sequence, s.previousCycle).value;
      var d := IndexedResult(ParseTlvs(raw.payload, 0)).value;
      TakeStaysOrderly(H, uuid, slots, s, raw, d);
      ConsumeStaysOrderly(H, uuid, slots, Take(H, uuid, slots, s, raw, d).value, data[n..]);
    }
  }

  // Whatever bytes the normalizer accepts, it writes boundaries S0 to S(slots) at cycles 0 to slots.
  lemma NormalizedLines(H: Hash, data: seq<Byte>, slots: nat)
    requires Normalized(H, data, slots).Ok?
    ensures var lines := Normalized(H, data, slots).value;
            |lines| == slots + 1 && forall k :: 0 <= k < |lines| ==> LineFits(lines, k)
  {
    hide Consume, ReadUuid, LineFits;
    var uuid := ReadUuid(data, slots).value;
    UuidNeedsHeader(data, slots);
    ConsumeStaysOrderly(H, uuid, slots, BEGIN, data[64..]);
  }

  // ----- Lookups agree -----

  lemma {:induction false} FindIndex(tlvs: seq<Tlv>, typ: nat)
    ensures match Find(tlvs, typ)
            case Some(x) => x in tlvs && x.typ == typ
            case None => forall i :: 0 <= i < |tlvs| ==> tlvs[i].typ != typ
    decreases |tlvs|
  {
    if tlvs != [] {
      FindIndex(tlvs[1..], typ);
    }
  }

  lemma LookupsAgree(r: Record, typ: nat)
    requires Ordered(r.tlvs, 0)
    ensures var d := Indexed(r.tlvs);
            match Find(r.tlvs, typ)
            case Some(x) => x in r.tlvs && x.typ == typ && typ in d && d[typ] == (x.flag, x.value)
            case None => typ !in d
  {
    FindIndex(r.tlvs, typ);
    match Find(r.tlvs, typ)
    case Some(x) =>
      var i :| 0 <= i < |r.tlvs| && r.tlvs[i] == x;
      IndexedHolds(r.tlvs, i);
    case None => IndexedOnly(r.tlvs, typ);
  }

  // An item the codec requires critical at this width is what the normalizer fetches.
  lemma FieldAgrees(r: Record, typ: nat, width: nat)
    requires Ordered(r.tlvs, 0) && RequiredTlvs(r) && Known(r.kind, typ) == Some((true, Some(width)))
    ensures Field(Indexed(r.tlvs), typ, width) == if Has(r, typ) then Ok(ValueOf(r, typ)) else Err
  {
    hide Find, Indexed, Ordered;
    LookupsAgree(r, typ);
  }

  lemma IdentityFieldAgrees(r: Record, typ: nat)
    requires Ordered(r.tlvs, 0) && RequiredTlvs(r) && r.kind == KIND_BOUNDARY && 100 <= typ <= 108
    ensures IdentityField(Indexed(r.tlvs), typ) == ValueOf(r, typ) && (Has(r, typ) ==> |ValueOf(r, typ)| == 32)
  {
    hide Find, Indexed, Ordered;
    LookupsAgree(r, typ);
  }

  lemma IdentityAgrees(H: Hash, uuid: seq<Byte>, r: Record)
    requires Ordered(r.tlvs, 0) && RequiredTlvs(r) && r.kind == KIND_BOUNDARY && IdentityIntact(H, uuid, r)
    ensures BindsIdentity(H, uuid, Indexed(r.tlvs))
  {
    hide RequiredTlvs, Has, ValueOf, IdentityField, Join;
    var d := Indexed(r.tlvs);
    forall typ | 100 <= typ <= 108
      ensures IdentityField(d, typ) == ValueOf(r, typ) && |ValueOf(r, typ)| == 32
    {
      IdentityFieldAgrees(r, typ);
    }
    assert seq(8, i requires 0 <= i < 8 => IdentityField(d, 101 + i)) == Components(r);
  }

  // ----- Records agree -----

  // The line for a boundary record.
  function LineOf(H: Hash, r: Record): Line {
    Line(Ordinal(r), r.cycle, if Ordinal(r) == 0 then None else Some(Number(r, 5)), FirstMutation(r), Mutations(r),
         Number(r, 8), ValueOf(r, 2), ValueOf(r, 3), Semantic(H, r))
  }

  function Lines(H: Hash, records: seq<Record>, n: nat): seq<Line>
    requires n <= |records|
  {
    seq(n, i requires 0 <= i < n => LineOf(H, records[i]))
  }

  lemma ReadLineAgrees(H: Hash, r: Record)
    requires Ordered(r.tlvs, 0) && RequiredTlvs(r) && r.kind == KIND_BOUNDARY && (Ordinal(r) != 0 ==> Has(r, 5))
    ensures ReadLine(H, r.cycle, EncodeTlvs(r.tlvs), Indexed(r.tlvs)) == Ok((LineOf(H, r), ValueOf(r, 1)))
  {
    hide Field, Has, ValueOf, RequiredTlvs, Indexed, FromLE, EncodeTlvs, Ordered;
    FieldAgrees(r, 1, 32);
    FieldAgrees(r, 2, 32);
    FieldAgrees(r, 3, 32);
    FieldAgrees(r, 4, 8);
    FieldAgrees(r, 5, 8);
    FieldAgrees(r, 6, 8);
    FieldAgrees(r, 7, 8);
    FieldAgrees(r, 8, 4);
    RequiredOfBoundary(r);
  }

  lemma RequiredOfBoundary(r: Record)
    requires RequiredTlvs(r) && r.kind == KIND_BOUNDARY
    ensures Has(r, 1) && Has(r, 2) && Has(r, 3) && Has(r, 4) && Has(r, 6) && Has(r, 7) && Has(r, 8)
  {
    hide Has, Known;
  }

  // The normalizer has taken the boundaries before position i.
  ghost predicate Following(H: Hash, records: seq<Record>, i: nat, s: Progress)
    requires i <= |records|
  {
    && s.sequence == s.boundaries == i && s.terminal == None && s.lines == Lines(H, records, i)
    && (i > 0 ==>
          && records[i - 1].kind == KIND_BOUNDARY && Ordinal(records[i - 1]) == i - 1
          && s.previousCycle == records[i - 1].cycle && s.finalSemantic == Semantic(H, records[i - 1])
          && s.mutationNext == FirstMutation(records[i - 1]) + Mutations(records[i - 1]))
    && (i == 0 ==> s.mutationNext == 0)
  }

  // At the front of a trace the codec accepts, a boundary is taken exactly when it stands at its own cycle.
  lemma BoundaryAgrees(H: Hash, header: Header, records: seq<Record>, i: nat, s: Progress)
    requires Grammar(H, header, records) && i < |records| && records[i].kind == KIND_BOUNDARY
    requires Ordered(records[i].tlvs, 0) && Following(H, records, i, s)
    ensures var r := records[i];
            var t := TakeBoundary(H, header.uuid, s, r.cycle, EncodeTlvs(r.tlvs), Indexed(r.tlvs));
            && (t.Ok? <==> r.cycle == i)
            && (t.Ok? ==> Following(H, records, i + 1, t.value.(sequence := i + 1, previousCycle := r.cycle)))
  {
    hide BoundaryFits, RequiredTlvs, Following, Append, LineOf, Number, ValueOf, Has, Grammar, Ordered, ReadLine,
      LineRule, Semantic, Ordinal, FirstMutation;
    var r := records[i];
    FitsBoundary(H, header, records, i);
    RuleAgrees(H, header, records, i, s);
    ReadLineAgrees(H, r);
    FollowingNext(H, records, i, s);
  }

  lemma FollowingNext(H: Hash, records: seq<Record>, i: nat, s: Progress)
    requires i < |records| && records[i].kind == KIND_BOUNDARY && Ordinal(records[i]) == i && Following(H, records, i, s)
    requires FirstMutation(records[i]) == s.mutationNext
    ensures Following(H, records, i + 1, Append(s, LineOf(H, records[i])).(sequence := i + 1, previousCycle := records[i].cycle))
  {
    hide Semantic, Ordinal, FirstMutation, Mutations, Number, ValueOf;
    assert Lines(H, records, i + 1) == Lines(H, records, i) + [LineOf(H, records[i])];
  }

  // A boundary at position i of a run of boundaries opens the trace or continues the one before it.
  lemma ContinuesOrOpens(H: Hash, header: Header, records: seq<Record>, i: nat)
    requires Grammar(H, header, records) && i < |records| && records[i].kind == KIND_BOUNDARY
    requires i > 0 ==> records[i - 1].kind == KIND_BOUNDARY && Ordinal(records[i - 1]) == i - 1
    ensures CommonBoundaryRule(H, records[i]) && Ordinal(records[i]) == i
    ensures i == 0 ==> OpeningRule(records[0]) && IdentityIntact(H, header.uuid, records[0])
    ensures i > 0 ==> LaterRule(records[i], Semantic(H, records[i - 1]), i - 1,
                                FirstMutation(records[i - 1]) + Mutations(records[i - 1]))
  {
    hide Ordinal, FirstMutation, Mutations, Semantic, OpeningRule, CommonBoundaryRule, RequiredTlvs, Number, Flag,
      Has, ValueOf;
    FitsBoundary(H, header, records, i);
    assert LastBoundary(records, i) == i - 1;
    assert RecordFits(H, header.uuid, records, i);
  }

  lemma OpeningAgrees(H: Hash, uuid: seq<Byte>, r: Record, s: Progress)
    requires Ordered(r.tlvs, 0) && RequiredTlvs(r) && r.kind == KIND_BOUNDARY && Ordinal(r) == 0
    requires OpeningRule(r) && IdentityIntact(H, uuid, r) && CommonBoundaryRule(H, r)
    requires s.boundaries == s.mutationNext == 0
    ensures LineRule(H, uuid, s, LineOf(H, r), ValueOf(r, 1), Indexed(r.tlvs)) <==> r.cycle == 0
  {
    hide RequiredTlvs, BindsIdentity, IdentityIntact, Semantic, Has, ValueOf, Indexed, EmptyMutation, Bit, FromLE,
      Ordered;
    IdentityAgrees(H, uuid, r);
  }

  lemma LaterAgrees(H: Hash, uuid: seq<Byte>, r: Record, semantic: Digest, s: Progress)
    requires s.boundaries > 0 && LaterRule(r, semantic, s.boundaries - 1, s.mutationNext) && CommonBoundaryRule(H, r)
    requires s.finalSemantic == semantic
    ensures LineRule(H, uuid, s, LineOf(H, r), ValueOf(r, 1), Indexed(r.tlvs)) <==> r.cycle == s.boundaries
  {
    hide BindsIdentity, Semantic, Has, ValueOf, Indexed, EmptyMutation, Bit, FromLE, OpeningLine;
  }

  lemma RuleAgrees(H: Hash, header: Header, records: seq<Record>, i: nat, s: Progress)
    requires Grammar(H, header, records) && i < |records| && records[i].kind == KIND_BOUNDARY
    requires Ordered(records[i].tlvs, 0) && RequiredTlvs(records[i]) && Following(H, records, i, s)
    ensures var r := records[i];
            && (LineRule(H, header.uuid, s, LineOf(H, r), ValueOf(r, 1), Indexed(r.tlvs)) <==> r.cycle == i)
            && FirstMutation(r) == s.mutationNext && Ordinal(r) == i && (i > 0 ==> Has(r, 5))
  {
    hide Grammar, RequiredTlvs, CommonBoundaryRule, IdentityIntact, LineRule, LineOf, Semantic, Number, ValueOf,
      Lines, Has, Ordered, Indexed, FirstMutation, Mutations;
    ContinuesOrOpens(H, header, records, i);
    if i == 0 {
      OpeningAgrees(H, header.uuid, records[0], s);
    } else {
      LaterAgrees(H, header.uuid, records[i], Semantic(H, records[i - 1]), s);
    }
  }

  // ----- Whole traces agree -----

  predicate LimitReached(r: Record) { Number(r, 4) == COMPLETE && Number(r, 5) == REASON_LIMIT }

  // From position i on: boundaries at their own cycles, then the terminal of a run of this many slots.
  ghost predicate ExactFrom(records: seq<Record>, slots: nat, i: nat)
    requires i < |records|
  {
    && |records| == slots + 2 && LimitReached(records[|records| - 1])
    && forall k :: i <= k < |records| - 1 ==> records[k].kind == KIND_BOUNDARY && records[k].cycle == k
  }

  lemma RequiredOfTerminal(r: Record)
    requires RequiredTlvs(r) && r.kind == KIND_TERMINAL
    ensures Has(r, 1) && Has(r, 2) && Has(r, 3) && Has(r, 4) && Has(r, 5)
  {
    hide Has, Known;
  }

  lemma TerminalFieldsAgree(r: Record)
    requires Ordered(r.tlvs, 0) && RequiredTlvs(r) && r.kind == KIND_TERMINAL
    ensures var d := Indexed(r.tlvs);
            && Field(d, 1, 8) == Ok(ValueOf(r, 1)) && Field(d, 2, 8) == Ok(ValueOf(r, 2)) && Field(d, 3, 32) == Ok(ValueOf(r, 3))
            && Field(d, 4, 4) == Ok(ValueOf(r, 4)) && Field(d, 5, 4) == Ok(ValueOf(r, 5))
  {
    hide Field, Has, ValueOf, RequiredTlvs, Indexed, Ordered;
    RequiredOfTerminal(r);
    FieldAgrees(r, 1, 8);
    FieldAgrees(r, 2, 8);
    FieldAgrees(r, 3, 32);
    FieldAgrees(r, 4, 4);
    FieldAgrees(r, 5, 4);
  }

  // What the codec demands of a terminal after a run of boundaries.
  lemma TerminalAfterBoundaries(H: Hash, header: Header, records: seq<Record>, i: nat)
    requires Grammar(H, header, records) && i < |records| && records[i].kind == KIND_TERMINAL
    requires i > 0 ==> records[i - 1].kind == KIND_BOUNDARY && Ordinal(records[i - 1]) == i - 1
    ensures RequiredTlvs(records[i]) && i > 0 && i == |records| - 1
    ensures Number(records[i], 1) == i + 1 && Number(records[i], 2) == i - 1
    ensures ValueOf(records[i], 3) == Semantic(H, records[i - 1])
  {
    hide RequiredTlvs, Number, ValueOf, Has, Ordinal, Semantic, HasEvent, HaltedAt, IdentityRule, BoundaryFits,
      ValidEnding;
    assert IsS0(records[0], 0);
    assert LastBoundary(records, i) == i - 1;
    assert RecordFits(H, header.uuid, records, i);
    assert RecordFits(H, header.uuid, records, |records| - 1);
  }

  lemma TerminalAgrees(H: Hash, header: Header, records: seq<Record>, i: nat, slots: nat, s: Progress)
    requires Grammar(H, header, records) && i < |records| && records[i].kind == KIND_TERMINAL
    requires Ordered(records[i].tlvs, 0) && Following(H, records, i, s)
    ensures var t := TakeTerminal(slots, s, Indexed(records[i].tlvs));
            && i == |records| - 1 && s.boundaries == i && s.lines == Lines(H, records, i)
            && (t.Ok? <==> |records| == slots + 2 && LimitReached(records[i]))
            && (t.Ok? ==> t.value == s.(terminal := Some((COMPLETE, REASON_LIMIT))))
  {
    hide Grammar, RequiredTlvs, Field, Indexed, ValueOf, FromLE, Semantic, Lines, Ordered, Ordinal, FirstMutation,
      Mutations;
    TerminalAfterBoundaries(H, header, records, i);
    TerminalFieldsAgree(records[i]);
  }

  // The normalizer's next turn reads the codec's next record.
  lemma NextTurn(H: Hash, uuid: seq<Byte>, slots: nat, s: Progress, data: seq<Byte>)
    requires ParseRecord(data).Ok?
    requires var r := ParseRecord(data).value.0; r.sequence == s.sequence && (s.sequence > 0 ==> r.cycle >= s.previousCycle)
    ensures var (r, n) := ParseRecord(data).value;
            var t := Take(H, uuid, slots, s, Raw(r.kind, r.cycle, EncodeTlvs(r.tlvs)), Indexed(r.tlvs));
            && Ordered(r.tlvs, 0)
            && Consume(H, uuid, slots, s, data) == (if t.Ok? then Consume(H, uuid, slots, t.value, data[n..]) else Err)
  {
    hide ParseRecord, RecordBytes, EncodeTlvs, Take, ReadRaw, Indexed, ParseTlvs;
    EncodeParsedRecord(data);
    ReadersAgree(data, s.sequence, s.previousCycle);
    assert data != [];
  }

  lemma NothingLeft(H: Hash, uuid: seq<Byte>, slots: nat, s: Progress, data: seq<Byte>)
    requires ParseRecords(data) == Ok([])
    ensures Consume(H, uuid, slots, s, data) == Ok(s)
  {
    hide ParseRecord;
  }

  predicate Arrives(slots: nat, s: Result<Progress>) { s.Ok? && Exact(slots, s.value) }

  lemma RecordInTurn(H: Hash, header: Header, records: seq<Record>, i: nat, s: Progress)
    requires Grammar(H, header, records) && i < |records| && Following(H, records, i, s)
    ensures records[i].sequence == s.sequence == i && (i > 0 ==> records[i].cycle >= s.previousCycle)
    ensures records[i].kind != KIND_TERMINAL ==> i + 1 < |records|
  {
    hide RequiredTlvs, IdentityRule, BoundaryFits, TerminalFits, HaltedAt, IsS0, Semantic, Ordinal, FirstMutation,
      Mutations, Lines;
    assert RecordFits(H, header.uuid, records, i);
  }

  lemma RecordAtFront(records: seq<Record>, i: nat, data: seq<Byte>)
    requires i < |records| && ParseRecords(data) == Ok(records[i..])
    ensures ParseRecord(data).Ok?
    ensures var (r, n) := ParseRecord(data).value; r == records[i] && ParseRecords(data[n..]) == Ok(records[i + 1..])
  {
    hide ParseRecord;
    assert records[i..][1..] == records[i + 1..];
    var (r, n) := ParseRecord(data).value;
    var rest := ParseRecords(data[n..]).value;
    assert ([r] + rest)[1..] == rest && ([r] + rest)[0] == r;
  }

  lemma {:induction false} RunsAgree(H: Hash, header: Header, records: seq<Record>, slots: nat, i: nat, s: Progress, data: seq<Byte>)
    requires Grammar(H, header, records) && i < |records| && Following(H, records, i, s)
    requires ParseRecords(data) == Ok(records[i..])
    ensures var end := Consume(H, header.uuid, slots, s, data);
            && (Arrives(slots, end) <==> ExactFrom(records, slots, i))
            && (Arrives(slots, end) ==> end.value.lines == Lines(H, records, slots + 1))
    decreases |records| - i
  {
    hide Grammar, Following, ParseRecord, ParseRecords, Consume, TakeBoundary, TakeTerminal, Indexed, Ordered,
      Lines, LimitReached;
    var r := records[i];
    RecordInTurn(H, header, records, i, s);
    RecordAtFront(records, i, data);
    var n := ParseRecord(data).value.1;
    NextTurn(H, header.uuid, slots, s, data);
    if r.kind == KIND_BOUNDARY {
      BoundaryAgrees(H, header, records, i, s);
      if r.cycle == i {
        var t := Take(H, header.uuid, slots, s, Raw(r.kind, r.cycle, EncodeTlvs(r.tlvs)), Indexed(r.tlvs)).value;
        RunsAgree(H, header, records, slots, i + 1, t, data[n..]);
      }
    } else if r.kind == KIND_TERMINAL {
      TerminalAgrees(H, header, records, i, slots, s);
      assert records[i + 1..] == [];
      var t := Take(H, header.uuid, slots, s, Raw(r.kind, r.cycle, EncodeTlvs(r.tlvs)), Indexed(r.tlvs));
      if t.Ok? {
        NothingLeft(H, header.uuid, slots, t.value, data[n..]);
      }
    }
  }

  lemma HeadersAgree(data: seq<Byte>, slots: nat)
    requires |data| >= HEADER_SIZE && ParseHeader(data[..HEADER_SIZE]).Ok?
    ensures var h := ParseHeader(data[..HEADER_SIZE]).value;
            ReadUuid(data, slots) == if h.recordCount == slots + 2 then Ok(h.uuid) else Err
  {
    hide Split, FromLE, LE, SealIntact, Ascii, Zeros, HeaderWidths;
    assert data[..HEADER_SIZE][..60] == data[..60];
  }

  // Two decoders, one trace: the normalizer accepts what the codec accepts exactly when the header
  // counts slots + 2 records, boundary k stands at cycle k, nothing but boundaries comes before the
  // terminal, and the terminal says the limit was reached. Its lines are then the codec's boundaries,
  // semantic hashes included.
  lemma NormalizerAgreesWithCodec(H: Hash, data: seq<Byte>, slots: nat)
    requires ParseTrace(H, data, ANY).Ok?
    ensures var t := ParseTrace(H, data, ANY).value;
            var r := Normalized(H, data, slots);
            && t.records != []
            && (r.Ok? <==> t.header.recordCount == slots + 2 && ExactFrom(t.records, slots, 0))
            && (r.Ok? ==> r.value == Lines(H, t.records, slots + 1))
  {
    hide ParseHeader, ParseRecords, Grammar, Consume, ReadUuid, Lines, ExactFrom, Accepted, Printable, ValidHeader,
      PrintTrace, Meets, Has, ValueOf, Following;
    var t := ParseTrace(H, data, ANY).value;
    PrintParsedTrace(H, data, ANY);
    GrammarNotEmpty(H, t.header, t.records);
    HeadersAgree(data, slots);
    StartFollows(H, t.records);
    assert t.records[0..] == t.records;
    RunsAgree(H, t.header, t.records, slots, 0, BEGIN, data[HEADER_SIZE..]);
  }

  lemma StartFollows(H: Hash, records: seq<Record>)
    ensures Following(H, records, 0, BEGIN)
  {}

  // The default of a million slots needs two records more than the codec's limit: no trace suits both.
  lemma CodecLimitBarsLongRuns(H: Hash, data: seq<Byte>, slots: nat)
    requires ParseTrace(H, data, ANY).Ok? && slots + 2 > MAX_RECORDS
    ensures Normalized(H, data, slots).Err?
  {
    hide RecordFits, ParseTrace, Normalized, ExactFrom, Lines, PrintTrace, IsS0;
    NormalizerAgreesWithCodec(H, data, slots);
    PrintParsedTrace(H, data, ANY);
    var t := ParseTrace(H, data, ANY).value;
    GrammarLength(H, t.header, t.records);
    ExactLength(t.records, slots);
  }

  lemma GrammarLength(H: Hash, header: Header, records: seq<Record>)
    requires Grammar(H, header, records)
    ensures |records| <= MAX_RECORDS
  {
    hide RequiredTlvs, IdentityRule, BoundaryFits, TerminalFits, HaltedAt, IsS0;
    assert RecordFits(H, header.uuid, records, |records| - 1);
  }

  lemma ExactLength(records: seq<Record>, slots: nat)
    requires records != []
    ensures ExactFrom(records, slots, 0) ==> |records| == slots + 2
  {}
}
