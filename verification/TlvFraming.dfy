/** Type-length-value items with padding to eight bytes, shared by both trace formats. */
module TlvFraming {
  import opened Bytes

  // The flag is the required bit of one format and the critical bit of the other.
  datatype Tlv = Tlv(typ: nat, flag: bool, value: seq<Byte>)

  function Pad8(n: int): nat { (-n) % 8 }

  predicate WellFormed(t: Tlv) { 0 < t.typ < U16 && |t.value| < U32 }

  // Strictly increasing types, all above last.
  predicate Ordered(tlvs: seq<Tlv>, last: nat)
    decreases |tlvs|
  {
    tlvs == [] || (WellFormed(tlvs[0]) && last < tlvs[0].typ && Ordered(tlvs[1..], tlvs[0].typ))
  }

  // ----- Printer -----

  function EncodeTlv(t: Tlv): seq<Byte> {
    LE(t.typ, 2) + LE(if t.flag then 1 else 0, 2) + LE(|t.value|, 4) + t.value + Zeros(Pad8(8 + |t.value|))
  }

  function EncodeTlvs(tlvs: seq<Tlv>): seq<Byte>
    decreases |tlvs|
  {
    if tlvs == [] then [] else EncodeTlv(tlvs[0]) + EncodeTlvs(tlvs[1..])
  }

  function PrintTlvs(tlvs: seq<Tlv>): Result<seq<Byte>> {
    if Ordered(tlvs, 0) then Ok(EncodeTlvs(tlvs)) else Err
  }

  // ----- Parser -----

  // The first item of data and how many bytes it takes.
  function ParseTlv(data: seq<Byte>, last: nat): (r: Result<(Tlv, nat)>)
    ensures r.Ok? ==> 0 < r.value.1 <= |data|
  {
    if |data| < 8 then Err else
    var typ, flags, length := FromLE(data[..2]), FromLE(data[2..4]), FromLE(data[4..8]);
    :- Need(typ != 0 && flags <= 1 && typ > last && length <= |data| - 8);
    var end := 8 + length;
    var padded := end + Pad8(end);
    :- Need(padded <= |data| && data[end..padded] == Zeros(padded - end));
    Ok((Tlv(typ, flags == 1, data[8..end]), padded))
  }

  function ParseTlvs(data: seq<Byte>, last: nat): Result<seq<Tlv>>
    decreases |data|
  {
    if data == [] then Ok([]) else
    var (t, n) :- ParseTlv(data, last);
    var rest :- ParseTlvs(data[n..], t.typ);
    Ok([t] + rest)
  }

  // ----- Printer and parser undo each other -----

  lemma FivePieces(a: seq<Byte>, b: seq<Byte>, c: seq<Byte>, d: seq<Byte>, e: seq<Byte>, rest: seq<Byte>)
    requires |a| == 2 && |b| == 2 && |c| == 4
    ensures var data := a + b + c + d + e + rest;
            var end := 8 + |d|;
            && data[..2] == a && data[2..4] == b && data[4..8] == c
            && data[8..end] == d && data[end..end + |e|] == e
  {}

  lemma ParseEncodedTlv(t: Tlv, rest: seq<Byte>, last: nat)
    requires WellFormed(t) && last < t.typ
    ensures ParseTlv(EncodeTlv(t) + rest, last) == Ok((t, |EncodeTlv(t)|))
  {
    Pow256Values();
    var flags := if t.flag then 1 else 0;
    FromLEOfLE(t.typ, 2);
    FromLEOfLE(flags, 2);
    FromLEOfLE(|t.value|, 4);
    FivePieces(LE(t.typ, 2), LE(flags, 2), LE(|t.value|, 4), t.value, Zeros(Pad8(8 + |t.value|)), rest);
    hide LE, FromLE, Pow256;
  }

  lemma EncodeParsedTlv(data: seq<Byte>, last: nat)
    requires ParseTlv(data, last).Ok?
    ensures var (t, n) := ParseTlv(data, last).value;
            WellFormed(t) && last < t.typ && EncodeTlv(t) == data[..n]
  {
    hide LE, FromLE, Pow256;
    Pow256Values();
    LEOfFromLE(data[..2]);
    LEOfFromLE(data[2..4]);
    LEOfFromLE(data[4..8]);
    var (t, n) := ParseTlv(data, last).value;
    assert data[..n] == data[..2] + data[2..4] + data[4..8] + data[8..8 + |t.value|] + data[8 + |t.value|..n];
  }

  lemma {:induction false} ParsePrintedTlvs(tlvs: seq<Tlv>, last: nat)
    requires Ordered(tlvs, last)
    ensures ParseTlvs(EncodeTlvs(tlvs), last) == Ok(tlvs)
    decreases |tlvs|
  {
    hide EncodeTlv, ParseTlv, WellFormed;
    if tlvs != [] {
      var t, rest := tlvs[0], EncodeTlvs(tlvs[1..]);
      ParseEncodedTlv(t, rest, last);
      assert (EncodeTlv(t) + rest)[|EncodeTlv(t)|..] == rest;
      ParsePrintedTlvs(tlvs[1..], t.typ);
      assert EncodeTlv(t) + rest != [];
      assert tlvs == [t] + tlvs[1..];
    }
  }

  lemma {:induction false} PrintParsedTlvs(data: seq<Byte>, last: nat)
    requires ParseTlvs(data, last).Ok?
    ensures var tlvs := ParseTlvs(data, last).value;
            Ordered(tlvs, last) && EncodeTlvs(tlvs) == data
    decreases |data|
  {
    hide EncodeTlv, ParseTlv, WellFormed;
    if data != [] {
      EncodeParsedTlv(data, last);
      var (t, n) := ParseTlv(data, last).value;
      PrintParsedTlvs(data[n..], t.typ);
      assert data == data[..n] + data[n..];
    }
  }

  // Different item lists never print alike.
  lemma EncodeTlvsInjective(a: seq<Tlv>, b: seq<Tlv>)
    requires Ordered(a, 0) && Ordered(b, 0) && EncodeTlvs(a) == EncodeTlvs(b)
    ensures a == b
  {
    ParsePrintedTlvs(a, 0);
    ParsePrintedTlvs(b, 0);
  }

  // ----- Facts about ordered lists -----

  lemma {:induction false} OrderedAbove(tlvs: seq<Tlv>, last: nat, i: nat)
    requires Ordered(tlvs, last) && i < |tlvs|
    ensures last < tlvs[i].typ < U16 && WellFormed(tlvs[i])
    decreases |tlvs|
  {
    if i > 0 {
      OrderedAbove(tlvs[1..], tlvs[0].typ, i - 1);
    }
  }

  lemma {:induction false} OrderedDistinct(tlvs: seq<Tlv>, last: nat, i: nat, j: nat)
    requires Ordered(tlvs, last) && i < j < |tlvs|
    ensures tlvs[i].typ < tlvs[j].typ
    decreases |tlvs|
  {
    if i > 0 {
      OrderedDistinct(tlvs[1..], tlvs[0].typ, i - 1, j - 1);
    } else {
      OrderedAbove(tlvs[1..], tlvs[0].typ, j - 1);
    }
  }

  lemma {:induction false} OrderedFromIndices(tlvs: seq<Tlv>, last: nat)
    requires forall i :: 0 <= i < |tlvs| ==> WellFormed(tlvs[i]) && last < tlvs[i].typ
    requires forall i, j :: 0 <= i < j < |tlvs| ==> tlvs[i].typ < tlvs[j].typ
    ensures Ordered(tlvs, last)
    decreases |tlvs|
  {
    if tlvs != [] {
      OrderedFromIndices(tlvs[1..], tlvs[0].typ);
    }
  }

  // ----- The loops -----

  lemma {:induction false} OrderedAppend(tlvs: seq<Tlv>, t: Tlv, last: nat)
    ensures Ordered(tlvs + [t], last) <==>
              Ordered(tlvs, last) && WellFormed(t) && (if tlvs == [] then last else tlvs[|tlvs| - 1].typ) < t.typ
    ensures EncodeTlvs(tlvs + [t]) == EncodeTlvs(tlvs) + EncodeTlv(t)
    decreases |tlvs|
  {
    hide EncodeTlv, WellFormed;
    if tlvs == [] {
      assert [] + [t] == [t] && [t][1..] == [] && EncodeTlv(t) + [] == EncodeTlv(t);
    } else {
      assert (tlvs + [t])[1..] == tlvs[1..] + [t];
      OrderedAppend(tlvs[1..], t, tlvs[0].typ);
    }
  }

  lemma {:induction false} OrderedFront(a: seq<Tlv>, b: seq<Tlv>, last: nat)
    requires Ordered(a + b, last)
    ensures Ordered(a, last)
    decreases |a|
  {
    hide WellFormed;
    if a != [] {
      assert (a + b)[1..] == a[1..] + b;
      OrderedFront(a[1..], b, a[0].typ);
    }
  }

  method EncodeAll(tlvs: seq<Tlv>) returns (r: Result<seq<Byte>>)
    ensures r == PrintTlvs(tlvs)
  {
    hide Ordered, EncodeTlv, EncodeTlvs, WellFormed;
    var previous, encoded := 0, [];
    NothingOrdered();
    for i := 0 to |tlvs|
      invariant Ordered(tlvs[..i], 0) && encoded == EncodeTlvs(tlvs[..i])
      invariant previous == if i == 0 then 0 else tlvs[i - 1].typ
    {
      var t := tlvs[i];
      OrderedAppend(tlvs[..i], t, 0);
      assert tlvs[..i + 1] == tlvs[..i] + [t];
      if t.typ <= previous || !WellFormed(t) {
        assert tlvs == tlvs[..i + 1] + tlvs[i + 1..];
        if Ordered(tlvs, 0) {
          OrderedFront(tlvs[..i + 1], tlvs[i + 1..], 0);
        }
        return Err;
      }
      previous := t.typ;
      encoded := encoded + EncodeTlv(t);
    }
    assert tlvs[..|tlvs|] == tlvs;
    return Ok(encoded);
  }

  lemma NothingOrdered()
    ensures Ordered([], 0) && EncodeTlvs([]) == []
  {}

  function Prepend(done: seq<Tlv>, rest: Result<seq<Tlv>>): (r: Result<seq<Tlv>>)
    ensures done == [] ==> r == rest
  {
    match rest
    case Ok(tlvs) =>
      assert done == [] ==> done + tlvs == tlvs;
      Ok(done + tlvs)
    case Err => Err
  }

  lemma PrependItem(done: seq<Tlv>, data: seq<Byte>, last: nat)
    requires data != [] && ParseTlv(data, last).Ok?
    ensures var (t, n) := ParseTlv(data, last).value;
            Prepend(done, ParseTlvs(data, last)) == Prepend(done + [t], ParseTlvs(data[n..], t.typ))
  {
    hide ParseTlv;
    var (t, n) := ParseTlv(data, last).value;
    var rest := ParseTlvs(data[n..], t.typ);
    if rest.Ok? {
      assert done + ([t] + rest.value) == done + [t] + rest.value;
    }
  }

  method ParseAll(payload: seq<Byte>) returns (r: Result<seq<Tlv>>)
    ensures r == ParseTlvs(payload, 0)
  {
    hide ParseTlv;
    var offset, previous := 0, 0;
    var result: seq<Tlv> := [];
    assert payload[0..] == payload;
    while offset < |payload|
      invariant 0 <= offset <= |payload|
      invariant ParseTlvs(payload, 0) == Prepend(result, ParseTlvs(payload[offset..], previous))
    {
      var item := ParseTlv(payload[offset..], previous);
      if item.Err? {
        return Err;
      }
      var (t, n) := item.value;
      PrependItem(result, payload[offset..], previous);
      assert payload[offset..][n..] == payload[offset + n..];
      result, previous, offset := result + [t], t.typ, offset + n;
    }
    assert payload[offset..] == [] && result + [] == result;
    return Ok(result);
  }
}
