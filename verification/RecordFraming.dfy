/** Length-prefixed, padded, CRC-sealed frames: the record envelope of both trace formats. */
module RecordFraming {
  import opened Bytes
  import opened Crc32c
  import opened TlvFraming

  // The widths of the fixed fields, which of them counts the payload bytes, and the longest frame.
  // The first field counts the bytes of the whole frame.
  datatype Layout = Layout(widths: seq<nat>, payloadField: nat, limit: nat)

  ghost predicate IsLayout(l: Layout) {
    && 0 < l.payloadField < |l.widths| && l.limit < U32 && Total(l.widths) % 4 == 0
    && l.widths[0] == l.widths[l.payloadField] == 4
  }

  datatype Frame = Frame(fields: seq<seq<Byte>>, payload: seq<Byte>)

  function Sealed(body: seq<Byte>): (s: seq<Byte>)
    ensures |s| == |body| + 4
  {
    body + LE(Crc(body), 4)
  }

  predicate SealIntact(data: seq<Byte>)
    requires |data| >= 4
  {
    FromLE(data[|data| - 4..]) == Crc(data[..|data| - 4])
  }

  function FrameLength(header: nat, payload: nat): nat { header + payload + Pad8(header + payload + 4) + 4 }

  function Padding(header: nat, payload: nat): (z: seq<Byte>)
    ensures header + payload + |z| + 4 == FrameLength(header, payload)
  {
    Zeros(Pad8(header + payload + 4))
  }

  // The fields agree with the payload.
  ghost predicate IsFrame(l: Layout, f: Frame)
    requires IsLayout(l)
  {
    && Widths(f.fields) == l.widths
    && FromLE(f.fields[0]) == FrameLength(Total(l.widths), |f.payload|) <= l.limit
    && FromLE(f.fields[l.payloadField]) == |f.payload|
  }

  function FrameBytes(l: Layout, f: Frame): seq<Byte> {
    Sealed(Join(f.fields) + f.payload + Padding(Total(l.widths), |f.payload|))
  }

  // The frame at the front of data and how many bytes it takes.
  function ParseFrame(l: Layout, data: seq<Byte>): (r: Result<(Frame, nat)>)
    requires IsLayout(l)
    ensures r.Ok? ==> var (f, n) := r.value;
                      |f.fields| == |l.widths| && n == FrameLength(Total(l.widths), |f.payload|) && 0 < n <= |data|
  {
    var header := Total(l.widths);
    :- Need(|data| >= header + 4);
    var fields := Split(data[..header], l.widths);
    var total, payload := FromLE(fields[0]), FromLE(fields[l.payloadField]);
    :- Need(header + 4 <= total <= l.limit && total % 8 == 0 && total <= |data|);
    :- Need(payload <= total - header - 4 && FrameLength(header, payload) == total);
    :- Need(SealIntact(data[..total]));
    :- Need(data[header + payload..total - 4] == Padding(header, payload));
    Ok((Frame(fields, data[header..header + payload]), total))
  }

  lemma FrameLengthAligned(header: nat, payload: nat)
    ensures FrameLength(header, payload) % 8 == 0
  {}

  lemma PaddedLength(n: nat)
    ensures 0 <= Pad8(n) < 8 && (n + Pad8(n)) % 8 == 0
  {}

  lemma OneMultiple(n: nat, p: nat, q: nat)
    requires n <= 8 * p < n + 8 && n <= 8 * q < n + 8
    ensures p == q
  {}

  // A frame's length is its fixed bytes, seal and payload, rounded up to eight.
  lemma FrameLengthIs(header: nat, payload: nat, total: nat)
    ensures FrameLength(header, payload) == total <==>
              header + payload + 4 <= total < header + payload + 12 && total % 8 == 0
  {
    hide Pad8;
    var n := header + payload + 4;
    PaddedLength(n);
    if total % 8 == 0 && n <= total < n + 8 {
      OneMultiple(n, total / 8, (n + Pad8(n)) / 8);
    }
  }

  lemma FourPieces(a: seq<Byte>, b: seq<Byte>, c: seq<Byte>, seal: seq<Byte>, rest: seq<Byte>)
    ensures var body := a + b + c;
            var data := body + seal + rest;
            var end := |body| + |seal|;
            && data[..|a|] == a && data[|a|..|a| + |b|] == b && data[|a| + |b|..|body|] == c
            && data[..end] == body + seal && data[..end][..|body|] == body && data[..end][|body|..] == seal
  {}

  lemma SealReads(body: seq<Byte>)
    ensures SealIntact(Sealed(body))
  {
    Pow256Values();
    CrcFits(body);
    FromLEOfLE(Crc(body), 4);
    hide LE, FromLE, Crc, Pow256;
    assert Sealed(body)[..|body|] == body;
  }

  lemma SealedAgain(data: seq<Byte>)
    requires |data| >= 4 && SealIntact(data)
    ensures Sealed(data[..|data| - 4]) == data
  {
    LEOfFromLE(data[|data| - 4..]);
  }

  // The last four bytes are the CRC of the others.
  predicate SealedBy(d: seq<Byte>)
    requires |d| >= 4
  {
    d[|d| - 4..] == LE(Crc(d[..|d| - 4]), 4)
  }

  lemma SealedByIs(d: seq<Byte>)
    requires |d| >= 4
    ensures SealIntact(d) <==> SealedBy(d)
  {
    hide LE, FromLE, Crc, Pow256;
    Pow256Values();
    CrcFits(d[..|d| - 4]);
    FromLEOfLE(Crc(d[..|d| - 4]), 4);
    LEOfFromLE(d[|d| - 4..]);
  }

  lemma ParseFrameBytes(l: Layout, f: Frame, rest: seq<Byte>)
    requires IsLayout(l) && IsFrame(l, f)
    ensures ParseFrame(l, FrameBytes(l, f) + rest) == Ok((f, |FrameBytes(l, f)|))
  {
    hide LE, FromLE, Crc, SealIntact, Pad8, Join, Split, Total, Widths, Padding;
    var header := Total(l.widths);
    SplitJoin(f.fields, l.widths);
    var front, padding := Join(f.fields), Padding(header, |f.payload|);
    var body := front + f.payload + padding;
    SealReads(body);
    FourPieces(front, f.payload, padding, Sealed(body)[|body|..], rest);
    assert FrameBytes(l, f) == Sealed(body) == body + Sealed(body)[|body|..];
    FrameLengthAligned(header, |f.payload|);
  }

  lemma FrameBytesParsed(l: Layout, data: seq<Byte>)
    requires IsLayout(l) && ParseFrame(l, data).Ok?
    ensures var (f, n) := ParseFrame(l, data).value; IsFrame(l, f) && FrameBytes(l, f) == data[..n]
  {
    hide LE, FromLE, Crc, SealIntact, Pad8, Sealed, Join, Split, Total, Padding, FrameLength;
    var (f, n) := ParseFrame(l, data).value;
    var header, payload := Total(l.widths), |f.payload|;
    JoinSplit(data[..header], l.widths);
    SealedAgain(data[..n]);
    assert data[..n][..n - 4] == data[..header] + data[header..header + payload] + data[header + payload..n - 4];
  }
}
