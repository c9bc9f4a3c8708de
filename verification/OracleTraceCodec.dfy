/** Header and records of the native-oracle trace format CDRTRC1: printer, parser, round trips. */
module OracleTraceCodec {
  import opened Bytes
  import opened RecordFraming
  import opened TlvFraming

  const STREAMING_COUNT: nat := U64 - 1
  const MAX_RECORDS: nat := 1_000_000
  const MAX_RECORD_BYTES: nat := 16 * 1024 * 1024
  const HEADER_SIZE: nat := 64

  datatype Header = Header(recordCount: nat, uuid: seq<Byte>)
  datatype Record = Record(kind: nat, sequence: nat, cycle: nat, tlvs: seq<Tlv>)

  const KIND_BOUNDARY: nat := 1
  const KIND_EVENT: nat := 3
  const KIND_TERMINAL: nat := 4

  // ----- Header -----

  predicate ValidHeader(h: Header) {
    && h.recordCount < U64 && (h.recordCount == STREAMING_COUNT || h.recordCount <= MAX_RECORDS)
    && |h.uuid| == 16
  }

  function HeaderFields(h: Header): (f: seq<seq<Byte>>)
    ensures |f| == 7
  {
    [Ascii("CDRTRC1\0"), LE(1, 2), LE(HEADER_SIZE, 2), LE(0, 4), LE(h.recordCount, 8), h.uuid, Zeros(20)]
  }

  function HeaderWidths(): (w: seq<nat>)
    ensures |w| == 7 && Total(w) == 60
  {
    [8, 2, 2, 4, 8, 16, 20]
  }

  function EncodeHeader(h: Header): Result<seq<Byte>> {
    if ValidHeader(h) then Ok(Sealed(Join(HeaderFields(h)))) else Err
  }

  function ReadHeader(f: seq<seq<Byte>>): Result<Header>
    requires |f| == 7
  {
    if f[0] != Ascii("CDRTRC1\0") || FromLE(f[1]) != 1 || FromLE(f[2]) != HEADER_SIZE then Err else
    :- Need(FromLE(f[3]) == 0 && f[6] == Zeros(20));
    var count := FromLE(f[4]);
    :- Need(count == STREAMING_COUNT || count <= MAX_RECORDS);
    Ok(Header(count, f[5]))
  }

  function ParseHeader(data: seq<Byte>): Result<Header> {
    if |data| != HEADER_SIZE then Err else
    var h :- ReadHeader(Split(data[..60], HeaderWidths()));
    :- Need(SealIntact(data));
    Ok(h)
  }

  lemma ReadPrintedHeader(h: Header)
    requires ValidHeader(h)
    ensures ReadHeader(HeaderFields(h)) == Ok(h) && Widths(HeaderFields(h)) == HeaderWidths()
  {
    hide LE, FromLE, Pow256, Ascii;
    Pow256Values();
    FromLEOfLE(1, 2);
    FromLEOfLE(HEADER_SIZE, 2);
    FromLEOfLE(0, 4);
    FromLEOfLE(h.recordCount, 8);
  }

  lemma PrintReadHeader(f: seq<seq<Byte>>)
    requires Widths(f) == HeaderWidths() && |f| == 7 && ReadHeader(f).Ok?
    ensures ValidHeader(ReadHeader(f).value) && HeaderFields(ReadHeader(f).value) == f
  {
    Pow256Values();
    hide LE, FromLE, Pow256, Ascii, Zeros;
    forall i | 0 <= i < 7
      ensures |f[i]| == HeaderWidths()[i] && LE(FromLE(f[i]), HeaderWidths()[i]) == f[i]
              && FromLE(f[i]) < Pow256(HeaderWidths()[i])
    {
      assert |f[i]| == Widths(f)[i];
      LEOfFromLE(f[i]);
    }
  }

  lemma ParseEncodedHeader(h: Header)
    requires ValidHeader(h)
    ensures ParseHeader(EncodeHeader(h).value) == Ok(h) && |EncodeHeader(h).value| == HEADER_SIZE
  {
    hide HeaderFields, HeaderWidths, ReadHeader, LE, FromLE, Split, Join, SealIntact, Widths, Total;
    ReadPrintedHeader(h);
    SplitJoin(HeaderFields(h), HeaderWidths());
    var body := Join(HeaderFields(h));
    SealReads(body);
    assert Sealed(body)[..60] == body;
  }

  lemma EncodeParsedHeader(data: seq<Byte>)
    requires ParseHeader(data).Ok?
    ensures ValidHeader(ParseHeader(data).value) && EncodeHeader(ParseHeader(data).value) == Ok(data)
  {
    hide LE, FromLE, Join, Split, SealIntact, ReadHeader, HeaderFields, Sealed, HeaderWidths, Total, Widths;
    var f := Split(data[..60], HeaderWidths());
    JoinSplit(data[..60], HeaderWidths());
    SealedAgain(data);
    PrintReadHeader(f);
  }

  // ----- Records -----

  function RecordLayout(): (l: Layout)
    ensures IsLayout(l) && Total(l.widths) == 32 && |l.widths| == 7 && l.limit == MAX_RECORD_BYTES && l.payloadField == 5
  {
    var widths := [4, 2, 2, 8, 8, 4, 4];
    assert Total([4, 2, 2, 8, 8, 4, 4]) == 32;
    Layout(widths, 5, MAX_RECORD_BYTES)
  }

  predicate ValidRecord(r: Record) {
    && r.kind in {KIND_BOUNDARY, KIND_EVENT, KIND_TERMINAL} && r.sequence < U64 && r.cycle < U64
    && Ordered(r.tlvs, 0)
    && FrameLength(32, |EncodeTlvs(r.tlvs)|) <= MAX_RECORD_BYTES
  }

  function RecordFrame(r: Record): Frame {
    var payload := EncodeTlvs(r.tlvs);
    Frame([LE(FrameLength(32, |payload|), 4), LE(r.kind, 2), LE(0, 2), LE(r.sequence, 8), LE(r.cycle, 8),
           LE(|payload|, 4), LE(0, 4)], payload)
  }

  function RecordBytes(r: Record): seq<Byte> { FrameBytes(RecordLayout(), RecordFrame(r)) }

  function EncodeRecord(r: Record): Result<seq<Byte>> {
    if ValidRecord(r) then Ok(RecordBytes(r)) else Err
  }

  function ReadRecord(f: seq<seq<Byte>>, tlvs: seq<Tlv>): Record
    requires |f| == 7
  {
    Record(FromLE(f[1]), FromLE(f[3]), FromLE(f[4]), tlvs)
  }

  // The record at the front of data and how many bytes it takes; flags and reserved field are zero.
  function ParseRecord(data: seq<Byte>): (r: Result<(Record, nat)>)
    ensures r.Ok? ==> 0 < r.value.1 <= |data|
  {
    var (frame, total) :- ParseFrame(RecordLayout(), data);
    :- Need(FromLE(frame.fields[2]) == 0 && FromLE(frame.fields[6]) == 0);
    var tlvs :- ParseTlvs(frame.payload, 0);
    :- Need(FromLE(frame.fields[1]) in {KIND_BOUNDARY, KIND_EVENT, KIND_TERMINAL});
    Ok((ReadRecord(frame.fields, tlvs), total))
  }

  lemma RecordFrameReads(r: Record)
    requires ValidRecord(r)
    ensures IsFrame(RecordLayout(), RecordFrame(r))
    ensures var f := RecordFrame(r).fields;
            ReadRecord(f, r.tlvs) == r && FromLE(f[1]) == r.kind && FromLE(f[2]) == 0 && FromLE(f[6]) == 0
  {
    hide LE, FromLE, Pow256, EncodeTlvs, Total;
    Pow256Values();
    var payload := |EncodeTlvs(r.tlvs)|;
    FromLEOfLE(FrameLength(32, payload), 4);
    FromLEOfLE(r.kind, 2);
    FromLEOfLE(0, 2);
    FromLEOfLE(r.sequence, 8);
    FromLEOfLE(r.cycle, 8);
    FromLEOfLE(payload, 4);
    FromLEOfLE(0, 4);
    assert Widths(RecordFrame(r).fields) == RecordLayout().widths;
  }

  lemma FrameOfReadRecord(f: Frame, tlvs: seq<Tlv>)
    requires IsFrame(RecordLayout(), f) && |f.fields| == 7 && f.payload == EncodeTlvs(tlvs) && Ordered(tlvs, 0)
    requires FromLE(f.fields[2]) == 0 && FromLE(f.fields[6]) == 0
    requires FromLE(f.fields[1]) in {KIND_BOUNDARY, KIND_EVENT, KIND_TERMINAL}
    ensures RecordFrame(ReadRecord(f.fields, tlvs)) == f
    ensures ValidRecord(ReadRecord(f.fields, tlvs))
  {
    Pow256Values();
    hide LE, FromLE, Pow256, EncodeTlvs, Total, Ordered;
    var w := RecordLayout().widths;
    forall i | 0 <= i < 7
      ensures |f.fields[i]| == w[i] && LE(FromLE(f.fields[i]), w[i]) == f.fields[i]
    {
      assert |f.fields[i]| == Widths(f.fields)[i];
      LEOfFromLE(f.fields[i]);
    }
  }

  lemma ParseEncodedRecord(r: Record, rest: seq<Byte>)
    requires ValidRecord(r)
    ensures ParseRecord(RecordBytes(r) + rest) == Ok((r, |RecordBytes(r)|))
  {
    RecordFrameReads(r);
    ParseFrameBytes(RecordLayout(), RecordFrame(r), rest);
    ParsePrintedTlvs(r.tlvs, 0);
    assert RecordFrame(r).payload == EncodeTlvs(r.tlvs);
    hide ParseFrame, FrameBytes, ParseTlvs, EncodeTlvs, IsFrame, ReadRecord, RecordLayout, RecordFrame, FromLE;
  }

  lemma EncodeParsedRecord(data: seq<Byte>)
    requires ParseRecord(data).Ok?
    ensures var (r, n) := ParseRecord(data).value;
            ValidRecord(r) && RecordBytes(r) == data[..n]
  {
    hide ParseFrame, FrameBytes, ParseTlvs, EncodeTlvs, IsFrame, ReadRecord, RecordLayout, RecordFrame, ValidRecord,
      FromLE;
    var (frame, total) := ParseFrame(RecordLayout(), data).value;
    FrameBytesParsed(RecordLayout(), data);
    PrintParsedTlvs(frame.payload, 0);
    FrameOfReadRecord(frame, ParseTlvs(frame.payload, 0).value);
    ReadRecordTlvs(frame.fields, ParseTlvs(frame.payload, 0).value);
  }

  lemma ReadRecordTlvs(f: seq<seq<Byte>>, tlvs: seq<Tlv>)
    requires |f| == 7
    ensures ReadRecord(f, tlvs).tlvs == tlvs
  {}
}
