/** The upstream normalizer's own decoding of the CDRTRC1 envelope, and its agreement with the codec's. */
module UpstreamReader {
  import opened Bytes
  import opened Crc32c
  import opened RecordFraming
  import opened TlvFraming
  import Codec = OracleTraceCodec

  // ----- Items -----

  // Criticality and value by type.
  type Dictionary = map<nat, (bool, seq<Byte>)>

  // A later item replaces an earlier one of its type.
  function Indexed(tlvs: seq<Tlv>): Dictionary {
    if tlvs == [] then map[] else
    var last := tlvs[|tlvs| - 1];
    Indexed(tlvs[..|tlvs| - 1])[last.typ := (last.flag, last.value)]
  }

  function IndexedResult(tlvs: Result<seq<Tlv>>): Result<Dictionary> {
    match tlvs
    case Ok(list) => Ok(Indexed(list))
    case Err => Err
  }

  lemma IndexedOneMore(done: seq<Tlv>, t: Tlv)
    ensures Indexed(done + [t]) == Indexed(done)[t.typ := (t.flag, t.value)]
  {
    assert (done + [t])[..|done|] == done;
  }

  // Reads the payload into a dictionary; the codec reads the same items or refuses as well.
  method ParseDictionary(payload: seq<Byte>) returns (r: Result<Dictionary>)
    ensures r == IndexedResult(ParseTlvs(payload, 0))
  {
    hide ParseTlv, Pad8, FromLE, Zeros;
    var offset, prior := 0, 0;
    var values: Dictionary := map[];
    ghost var done: seq<Tlv> := [];
    assert payload[0..] == payload;
    while offset < |payload|
      invariant 0 <= offset <= |payload|
      invariant ParseTlvs(payload, 0) == Prepend(done, ParseTlvs(payload[offset..], prior))
      invariant values == Indexed(done)
    {
      var item := ReadItem(payload, offset, prior);
      if item.Err? {
        return Err;
      }
      var (kind, critical, value, padded) := item.value;
      PrependItem(done, payload[offset..], prior);
      IndexedOneMore(done, Tlv(kind, critical, value));
      values := values[kind := (critical, value)];
      done := done + [Tlv(kind, critical, value)];
      prior := kind;
      assert payload[offset..][padded - offset..] == payload[padded..];
      offset := padded;
    }
    assert payload[offset..] == [];
    assert done + [] == done;
    return Ok(values);
  }

  // One turn of the loop: type, criticality, value, and where the next item starts.
  method ReadItem(payload: seq<Byte>, offset: nat, prior: nat) returns (r: Result<(nat, bool, seq<Byte>, nat)>)
    requires offset < |payload|
    ensures r.Ok? <==> ParseTlv(payload[offset..], prior).Ok?
    ensures r.Ok? ==> var (t, n) := ParseTlv(payload[offset..], prior).value;
                      r.value == (t.typ, t.flag, t.value, offset + n)
  {
    hide LE, FromLE, Pow256, Zeros;
    if |payload| - offset < 8 {
      return Err;
    }
    assert payload[offset..][..2] == payload[offset..offset + 2];
    assert payload[offset..][2..4] == payload[offset + 2..offset + 4];
    assert payload[offset..][4..8] == payload[offset + 4..offset + 8];
    var kind, flags, length := FromLE(payload[offset..offset + 2]), FromLE(payload[offset + 2..offset + 4]),
        FromLE(payload[offset + 4..offset + 8]);
    if kind == 0 || flags > 1 || kind <= prior {
      return Err;
    }
    var end := offset + 8 + length;
    var padded := end + Pad8(8 + length);
    if end > |payload| || padded > |payload| || payload[end..padded] != Zeros(padded - end) {
      if padded <= |payload| {
        assert payload[offset..][end - offset..padded - offset] == payload[end..padded];
      }
      return Err;
    }
    assert payload[offset..][end - offset..padded - offset] == payload[end..padded];
    assert payload[offset..][8..end - offset] == payload[offset + 8..end];
    return Ok((kind, flags == 1, payload[offset + 8..end], padded));
  }

  // What the dictionary holds under each type is what a search of the list finds.
  lemma {:induction false} IndexedHolds(tlvs: seq<Tlv>, i: nat)
    requires Ordered(tlvs, 0) && i < |tlvs|
    ensures tlvs[i].typ in Indexed(tlvs) && Indexed(tlvs)[tlvs[i].typ] == (tlvs[i].flag, tlvs[i].value)
    decreases |tlvs|
  {
    hide Ordered;
    var n := |tlvs| - 1;
    if i < n {
      OrderedPrefix(tlvs, 0, n);
      IndexedHolds(tlvs[..n], i);
      OrderedDistinct(tlvs, 0, i, n);
    }
  }

  lemma {:induction false} OrderedPrefix(tlvs: seq<Tlv>, last: nat, n: nat)
    requires Ordered(tlvs, last) && n <= |tlvs|
    ensures Ordered(tlvs[..n], last)
    decreases n
  {
    if n > 0 {
      OrderedPrefix(tlvs[1..], tlvs[0].typ, n - 1);
      assert tlvs[..n][1..] == tlvs[1..][..n - 1];
    }
  }

  lemma {:induction false} IndexedOnly(tlvs: seq<Tlv>, typ: nat)
    requires forall i :: 0 <= i < |tlvs| ==> tlvs[i].typ != typ
    ensures typ !in Indexed(tlvs)
    decreases |tlvs|
  {
    if tlvs != [] {
      IndexedOnly(tlvs[..|tlvs| - 1], typ);
    }
  }

  // ----- Records -----

  // What the reader yields for one record.
  datatype Raw = Raw(kind: nat, cycle: nat, payload: seq<Byte>)

  const PREFIX: nat := 32
  const LIMIT: nat := 16 * 1024 * 1024

  function PrefixWidths(): (w: seq<nat>)
    ensures |w| == 7 && Total(w) == PREFIX
  {
    [4, 2, 2, 8, 8, 4, 4]
  }

  // The record at the front of data, which must carry the next sequence number and no earlier cycle,
  // and how many bytes it takes.
  function ReadRaw(data: seq<Byte>, sequence: nat, previousCycle: nat): (r: Result<(Raw, nat)>)
    ensures r.Ok? ==> 0 < r.value.1 <= |data|
  {
    if |data| < PREFIX then Err else
    var f := Split(data[..PREFIX], PrefixWidths());
    var total, kind, flags, index, cycle := FromLE(f[0]), FromLE(f[1]), FromLE(f[2]), FromLE(f[3]), FromLE(f[4]);
    var length, reserved := FromLE(f[5]), FromLE(f[6]);
    :- Need(40 <= total <= LIMIT && total % 8 == 0 && length <= LIMIT);
    :- Need(flags == 0 && reserved == 0 && index == sequence && (sequence != 0 ==> cycle >= previousCycle));
    var trailing := total - PREFIX;
    :- Need(trailing <= |data| - PREFIX);
    var padding := Pad8(PREFIX + length + 4);
    :- Need(trailing == length + padding + 4);
    :- Need(data[PREFIX + length..PREFIX + length + padding] == Zeros(padding));
    :- Need(FromLE(data[total - 4..total]) == Crc(data[..total - 4]));
    Ok((Raw(kind, cycle, data[PREFIX..PREFIX + length]), total))
  }

  // Wherever the codec reads a record, this reader yields the same one, provided its sequence number
  // and cycle are in order; the codec leaves those two checks to its trace parser.
  lemma ReadersAgree(data: seq<Byte>, sequence: nat, previousCycle: nat)
    requires Codec.ParseRecord(data).Ok?
    ensures var (r, n) := Codec.ParseRecord(data).value;
            var raw := ReadRaw(data, sequence, previousCycle);
            && (raw.Ok? <==> r.sequence == sequence && (sequence != 0 ==> r.cycle >= previousCycle))
            && (raw.Ok? ==> raw.value == (Raw(r.kind, r.cycle, EncodeTlvs(r.tlvs)), n)
                            && ParseTlvs(raw.value.0.payload, 0) == Ok(r.tlvs))
  {
    hide LE, FromLE, Crc, Join, Split, Total, Zeros, EncodeTlvs, ParseTlvs, Codec.RecordLayout;
    var (frame, total) := ParseFrame(Codec.RecordLayout(), data).value;
    PrintParsedTlvs(frame.payload, 0);
    LayoutWidths();
    assert data[..total][total - 4..] == data[total - 4..total] && data[..total][..total - 4] == data[..total - 4];
    assert frame.fields == Split(data[..PREFIX], PrefixWidths());
    assert frame.payload == data[PREFIX..PREFIX + |frame.payload|];
  }

  // And the other way round: a record this reader yields, with items it accepts and one of the codec's
  // kinds, is the record the codec reads.
  lemma RawIsRecord(data: seq<Byte>, sequence: nat, previousCycle: nat)
    requires ReadRaw(data, sequence, previousCycle).Ok?
    requires ParseTlvs(ReadRaw(data, sequence, previousCycle).value.0.payload, 0).Ok?
    requires ReadRaw(data, sequence, previousCycle).value.0.kind in
               {Codec.KIND_BOUNDARY, Codec.KIND_EVENT, Codec.KIND_TERMINAL}
    ensures var (raw, n) := ReadRaw(data, sequence, previousCycle).value;
            Codec.ParseRecord(data) == Ok((Codec.Record(raw.kind, sequence, raw.cycle, ParseTlvs(raw.payload, 0).value), n))
  {
    hide LE, FromLE, Crc, Join, Split, Total, Zeros, EncodeTlvs, ParseTlvs, Codec.RecordLayout;
    LayoutWidths();
    var (raw, n) := ReadRaw(data, sequence, previousCycle).value;
    var f := Split(data[..PREFIX], PrefixWidths());
    assert data[..n][n - 4..] == data[n - 4..n] && data[..n][..n - 4] == data[..n - 4];
    assert ParseFrame(Codec.RecordLayout(), data) == Ok((Frame(f, raw.payload), n));
  }

  lemma LayoutWidths()
    ensures Codec.RecordLayout().widths == PrefixWidths()
  {}
}
