/** Header and records of the general trace format CDRGTRC1: printer, parser, round trips. */
module GeneralTraceCodec {
  import opened Bytes
  import opened RecordFraming
  import opened TlvFraming

  const STREAMING_COUNT: nat := U64 - 1
  const MAX_RECORDS: nat := 1_000_000
  const MAX_RECORD_BYTES: nat := 16_384
  const HEADER_SIZE: nat := 256
  const EXTENSION: nat := 2000

  datatype Header = Header(
    firstBoundary: nat, recordCount: nat, selectorMask: nat, eventMask: nat,
    profile: seq<Byte>, artifacts: seq<Byte>, state: seq<Byte>, schedule: seq<Byte>, seed: seq<Byte>)

  datatype Record = Record(
    kind: nat, flags: nat, sequence: nat, boundary: nat, cycle: nat,
    selectorMask: nat, eventClass: nat, tlvs: seq<Tlv>)

  // ----- Header -----

  function SeedInput(h: Header): seq<Byte> {
    Ascii("CDRGHDR1\0") + h.profile + h.artifacts + h.state + h.schedule
    + LE(h.firstBoundary, 8) + LE(h.selectorMask, 8) + LE(h.eventMask, 8)
  }

  function SemanticSeed(H: Hash, h: Header): Digest { H(SeedInput(h)) }

  // Twelve selector bits and five event bits are known.
  predicate ValidHeader(H: Hash, h: Header) {
    && h.firstBoundary < U64 && h.recordCount < U64
    && (h.recordCount == STREAMING_COUNT || h.recordCount <= MAX_RECORDS)
    && h.selectorMask < 0x1000 && h.eventMask < 0x20
    && |h.profile| == |h.artifacts| == |h.state| == |h.schedule| == |h.seed| == 32
    && h.seed == SemanticSeed(H, h)
  }

  function NumberFields(h: Header): (f: seq<seq<Byte>>)
    ensures |f| == 8
  {
    [Ascii("CDRGTRC1"), LE(1, 2), LE(HEADER_SIZE, 2), LE(0, 4),
     LE(h.firstBoundary, 8), LE(h.recordCount, 8), LE(h.selectorMask, 8), LE(h.eventMask, 8)]
  }

  function DigestFields(h: Header): (f: seq<seq<Byte>>)
    ensures |f| == 6
  {
    [h.profile, h.artifacts, h.state, h.schedule, h.seed, Zeros(44)]
  }

  function HeaderFields(h: Header): (f: seq<seq<Byte>>)
    ensures |f| == 14
  {
    NumberFields(h) + DigestFields(h)
  }

  function NumberWidths(): (w: seq<nat>)
    ensures |w| == 8 && Total(w) == 48
  {
    [8, 2, 2, 4, 8, 8, 8, 8]
  }

  function DigestWidths(): (w: seq<nat>)
    ensures |w| == 6 && Total(w) == 204
  {
    [32, 32, 32, 32, 32, 44]
  }

  function HeaderWidths(): (w: seq<nat>)
    ensures |w| == 14 && Total(w) == 252
  {
    TotalSum(NumberWidths(), DigestWidths());
    NumberWidths() + DigestWidths()
  }

  // The seed is computed, whatever h says.
  function EncodeHeader(H: Hash, h: Header): Result<seq<Byte>> {
    var seeded := h.(seed := SemanticSeed(H, h));
    if ValidHeader(H, seeded) then Ok(Sealed(Join(HeaderFields(seeded)))) else Err
  }

  // What the unpacked fields are checked for.
  function ReadHeader(H: Hash, f: seq<seq<Byte>>): Result<Header>
    requires |f| == 14
  {
    if f[0] != Ascii("CDRGTRC1") || FromLE(f[1]) != 1 || FromLE(f[2]) != HEADER_SIZE then Err else
    :- Need(FromLE(f[3]) == 0 && f[13] == Zeros(44));
    var h := Header(FromLE(f[4]), FromLE(f[5]), FromLE(f[6]), FromLE(f[7]), f[8], f[9], f[10], f[11], f[12]);
    :- Need(h.recordCount == STREAMING_COUNT || h.recordCount <= MAX_RECORDS);
    :- Need(h.selectorMask < 0x1000 && h.eventMask < 0x20);
    :- Need(h.seed == SemanticSeed(H, h));
    Ok(h)
  }

  function ParseHeader(H: Hash, data: seq<Byte>): Result<Header> {
    if |data| != HEADER_SIZE then Err else
    :- Need(SealIntact(data));
    ReadHeader(H, Split(data[..252], HeaderWidths()))
  }

  lemma ReadPrintedHeader(H: Hash, h: Header)
    requires ValidHeader(H, h)
    ensures ReadHeader(H, HeaderFields(h)) == Ok(h)
  {
    hide LE, FromLE, Pow256, Ascii, Zeros, SemanticSeed;
    Pow256Values();
    FromLEOfLE(1, 2);
    FromLEOfLE(HEADER_SIZE, 2);
    FromLEOfLE(0, 4);
    FromLEOfLE(h.firstBoundary, 8);
    FromLEOfLE(h.recordCount, 8);
    FromLEOfLE(h.selectorMask, 8);
    FromLEOfLE(h.eventMask, 8);
  }

  lemma FieldBack(f: seq<seq<Byte>>, i: nat)
    requires Widths(f) == HeaderWidths() && i < |f| == 14
    ensures |f[i]| == HeaderWidths()[i] && LE(FromLE(f[i]), HeaderWidths()[i]) == f[i]
    ensures FromLE(f[i]) < Pow256(HeaderWidths()[i])
  {
    hide HeaderWidths, LE, FromLE;
    assert |f[i]| == Widths(f)[i];
    LEOfFromLE(f[i]);
  }

  lemma PrintReadHeader(H: Hash, f: seq<seq<Byte>>)
    requires Widths(f) == HeaderWidths() && |f| == 14 && ReadHeader(H, f).Ok?
    ensures var h := ReadHeader(H, f).value; ValidHeader(H, h) && HeaderFields(h) == f
  {
    Pow256Values();
    hide LE, FromLE, Pow256, Ascii, Zeros, SemanticSeed, Widths, Total;
    var h := ReadHeader(H, f).value;
    forall i | 0 <= i < 14
      ensures |f[i]| == HeaderWidths()[i] && LE(FromLE(f[i]), HeaderWidths()[i]) == f[i]
              && FromLE(f[i]) < Pow256(HeaderWidths()[i])
    {
      FieldBack(f, i);
    }
    assert NumberFields(h) == f[..8];
    assert DigestFields(h) == f[8..];
  }

  lemma ParseEncodedHeader(H: Hash, h: Header)
    requires EncodeHeader(H, h).Ok?
    ensures ParseHeader(H, EncodeHeader(H, h).value) == Ok(h.(seed := SemanticSeed(H, h)))
  {
    hide *;
    EncodeHeaderIs(H, h);
    HeaderRoundTrip(H, h.(seed := SemanticSeed(H, h)));
  }

  lemma EncodeHeaderIs(H: Hash, h: Header)
    requires EncodeHeader(H, h).Ok?
    ensures var g := h.(seed := SemanticSeed(H, h));
            ValidHeader(H, g) && EncodeHeader(H, h).value == Sealed(Join(HeaderFields(g)))
  {
    hide HeaderFields, Sealed, Join;
  }

  lemma HeaderFieldWidths(H: Hash, h: Header)
    requires ValidHeader(H, h)
    ensures Widths(HeaderFields(h)) == HeaderWidths()
  {
    hide SemanticSeed, LE, Ascii;
    assert Widths(NumberFields(h)) == NumberWidths();
    assert Widths(DigestFields(h)) == DigestWidths();
    hide NumberFields, DigestFields, NumberWidths, DigestWidths;
    assert Widths(NumberFields(h) + DigestFields(h)) == Widths(NumberFields(h)) + Widths(DigestFields(h));
  }

  lemma HeaderRoundTrip(H: Hash, h: Header)
    requires ValidHeader(H, h)
    ensures ParseHeader(H, Sealed(Join(HeaderFields(h)))) == Ok(h)
  {
    hide HeaderFields, HeaderWidths, ReadHeader, LE, FromLE, Split, Join, SealIntact, Widths, Total, ValidHeader;
    HeaderFieldWidths(H, h);
    SplitJoin(HeaderFields(h), HeaderWidths());
    var body := Join(HeaderFields(h));
    SealReads(body);
    assert Sealed(body)[..252] == body;
    ReadPrintedHeader(H, h);
  }

  lemma EncodeParsedHeader(H: Hash, data: seq<Byte>)
    requires ParseHeader(H, data).Ok?
    ensures var h := ParseHeader(H, data).value;
            ValidHeader(H, h) && EncodeHeader(H, h) == Ok(data)
  {
    hide LE, FromLE, Join, Split, SealIntact, ReadHeader, HeaderFields, Sealed, HeaderWidths, Total, Widths;
    var f := Split(data[..252], HeaderWidths());
    var h := ParseHeader(H, data).value;
    JoinSplit(data[..252], HeaderWidths());
    SealedAgain(data);
    PrintReadHeader(H, f);
    assert h.(seed := SemanticSeed(H, h)) == h;
  }

  // ----- Records -----

  function RecordLayout(): (l: Layout)
    ensures IsLayout(l) && Total(l.widths) == 48 && |l.widths| == 9 && l.limit == MAX_RECORD_BYTES && l.payloadField == 8
  {
    var widths := [4, 2, 2, 8, 8, 8, 8, 4, 4];
    assert Total([4, 2, 2, 8, 8, 8, 8, 4, 4]) == 48;
    Layout(widths, 8, MAX_RECORD_BYTES)
  }

  predicate ValidRecord(r: Record) {
    && r.kind < U16 && r.flags < U16 && r.sequence < U64 && r.boundary < U64 && r.cycle < U64
    && r.selectorMask < U64 && r.eventClass < U32
    && Ordered(r.tlvs, 0)
    && FrameLength(48, |EncodeTlvs(r.tlvs)|) <= MAX_RECORD_BYTES
  }

  function RecordFrame(r: Record): Frame {
    var payload := EncodeTlvs(r.tlvs);
    Frame([LE(FrameLength(48, |payload|), 4), LE(r.kind, 2), LE(r.flags, 2), LE(r.sequence, 8), LE(r.boundary, 8),
           LE(r.cycle, 8), LE(r.selectorMask, 8), LE(r.eventClass, 4), LE(|payload|, 4)], payload)
  }

  function RecordBytes(r: Record): seq<Byte> { FrameBytes(RecordLayout(), RecordFrame(r)) }

  function EncodeRecord(r: Record): Result<seq<Byte>> {
    if ValidRecord(r) then Ok(RecordBytes(r)) else Err
  }

  // Types with a meaning in version 1; other types must be optional and in the extension range.
  predicate KnownType(t: nat) { 1 <= t <= 12 || 100 <= t <= 102 || 110 <= t <= 112 || 120 <= t <= 122 }

  predicate Admissible(tlvs: seq<Tlv>) {
    forall i :: 0 <= i < |tlvs| ==> KnownType(tlvs[i].typ) || (!tlvs[i].flag && tlvs[i].typ >= EXTENSION)
  }

  // The record with the unpacked fields f and items tlvs.
  function ReadRecord(f: seq<seq<Byte>>, tlvs: seq<Tlv>): Record
    requires |f| == 9
  {
    Record(FromLE(f[1]), FromLE(f[2]), FromLE(f[3]), FromLE(f[4]), FromLE(f[5]), FromLE(f[6]), FromLE(f[7]), tlvs)
  }

  // The record at the front of data and how many bytes it takes.
  function ParseRecord(data: seq<Byte>): (r: Result<(Record, nat)>)
    ensures r.Ok? ==> 0 < r.value.1 <= |data|
  {
    var (frame, total) :- ParseFrame(RecordLayout(), data);
    var tlvs :- ParseTlvs(frame.payload, 0);
    :- Need(Admissible(tlvs));
    Ok((ReadRecord(frame.fields, tlvs), total))
  }

  lemma RecordFrameReads(r: Record)
    requires ValidRecord(r)
    ensures IsFrame(RecordLayout(), RecordFrame(r))
    ensures ReadRecord(RecordFrame(r).fields, r.tlvs) == r
  {
    hide LE, FromLE, Pow256, EncodeTlvs, Total;
    Pow256Values();
    var payload := |EncodeTlvs(r.tlvs)|;
    FromLEOfLE(FrameLength(48, payload), 4);
    FromLEOfLE(r.kind, 2);
    FromLEOfLE(r.flags, 2);
    FromLEOfLE(r.sequence, 8);
    FromLEOfLE(r.boundary, 8);
    FromLEOfLE(r.cycle, 8);
    FromLEOfLE(r.selectorMask, 8);
    FromLEOfLE(r.eventClass, 4);
    FromLEOfLE(payload, 4);
    assert Widths(RecordFrame(r).fields) == RecordLayout().widths;
  }

  lemma FrameOfReadRecord(f: Frame, tlvs: seq<Tlv>)
    requires IsFrame(RecordLayout(), f) && |f.fields| == 9 && f.payload == EncodeTlvs(tlvs)
    ensures RecordFrame(ReadRecord(f.fields, tlvs)) == f
    ensures Ordered(tlvs, 0) ==> ValidRecord(ReadRecord(f.fields, tlvs))
  {
    Pow256Values();
    hide LE, FromLE, Pow256, EncodeTlvs, Total, Ordered;
    var w := RecordLayout().widths;
    forall i | 0 <= i < 9 ensures |f.fields[i]| == w[i] && LE(FromLE(f.fields[i]), w[i]) == f.fields[i] {
      assert |f.fields[i]| == Widths(f.fields)[i];
      LEOfFromLE(f.fields[i]);
    }
  }

  lemma ParseEncodedRecord(r: Record, rest: seq<Byte>)
    requires ValidRecord(r) && Admissible(r.tlvs)
    ensures ParseRecord(RecordBytes(r) + rest) == Ok((r, |RecordBytes(r)|))
  {
    RecordFrameReads(r);
    ParseFrameBytes(RecordLayout(), RecordFrame(r), rest);
    ParsePrintedTlvs(r.tlvs, 0);
    assert RecordFrame(r).payload == EncodeTlvs(r.tlvs);
    hide ParseFrame, FrameBytes, ParseTlvs, EncodeTlvs, Admissible, IsFrame, ReadRecord, RecordLayout, RecordFrame;
  }

  lemma EncodeParsedRecord(data: seq<Byte>)
    requires ParseRecord(data).Ok?
    ensures var (r, n) := ParseRecord(data).value;
            ValidRecord(r) && Admissible(r.tlvs) && RecordBytes(r) == data[..n]
  {
    hide ParseFrame, FrameBytes, ParseTlvs, EncodeTlvs, Admissible, IsFrame, ReadRecord, RecordLayout, RecordFrame,
      ValidRecord;
    var (frame, total) := ParseFrame(RecordLayout(), data).value;
    FrameBytesParsed(RecordLayout(), data);
    PrintParsedTlvs(frame.payload, 0);
    FrameOfReadRecord(frame, ParseTlvs(frame.payload, 0).value);
    ReadRecordTlvs(frame.fields, ParseTlvs(frame.payload, 0).value);
  }

  lemma ReadRecordTlvs(f: seq<seq<Byte>>, tlvs: seq<Tlv>)
    requires |f| == 9
    ensures ReadRecord(f, tlvs).tlvs == tlvs
  {}
}
