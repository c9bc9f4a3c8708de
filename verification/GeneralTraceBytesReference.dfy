/** The bytes of a general trace said again from the format: every field by its offset. */
module GeneralTraceBytesReference {
  import opened Bytes
  import opened Crc32c
  import opened TlvFraming
  import opened RecordFraming
  import opened GeneralTraceCodec

  // ----- Header -----

  // Magic, version 1, size 256, no flags; then first boundary, record count, selector and event masks, four
  // digests, the seed, 44 zero bytes and the CRC.
  predicate HeaderReads(H: Hash, d: seq<Byte>) {
    && |d| == 256 && SealedBy(d)
    && d[..8] == [67, 68, 82, 71, 84, 82, 67, 49] && d[8..10] == [1, 0] && d[10..12] == [0, 1] && d[12..16] == [0, 0, 0, 0]
    && (FromLE(d[24..32]) <= 1_000_000 || FromLE(d[24..32]) == 18_446_744_073_709_551_615)
    && FromLE(d[32..40]) <= 4095 && FromLE(d[40..48]) <= 31
    && d[176..208] == H([67, 68, 82, 71, 72, 68, 82, 49, 0] + d[48..176] + d[16..24] + d[32..40] + d[40..48])
    && forall i :: 208 <= i < 252 ==> d[i] == 0
  }

  function HeaderOf(d: seq<Byte>): Header
    requires |d| == 256
  {
    Header(FromLE(d[16..24]), FromLE(d[24..32]), FromLE(d[32..40]), FromLE(d[40..48]),
           d[48..80], d[80..112], d[112..144], d[144..176], d[176..208])
  }

  function HeaderOffset(i: nat): nat
    requires i <= 14
  {
    if i < 8 then [0, 8, 10, 12, 16, 24, 32, 40][i] else if i < 13 then 48 + 32 * (i - 8) else 208 + 44 * (i - 13)
  }

  lemma {:induction false} HeaderOffsets(i: nat)
    requires i <= 14
    ensures Total(HeaderWidths()[..i]) == HeaderOffset(i)
  {
    hide HeaderWidths, Total;
    var w := HeaderWidths();
    WidthsAre();
    if i > 0 {
      HeaderOffsets(i - 1);
      TotalNext(w, i - 1);
    } else {
      TotalOfNone();
      assert w[..0] == [];
    }
  }

  lemma WidthsAre()
    ensures HeaderWidths() == [8, 2, 2, 4, 8, 8, 8, 8, 32, 32, 32, 32, 32, 44]
  {}

  lemma HeaderPiece(d: seq<Byte>, i: nat, o: nat, n: nat)
    requires |d| == 256 && i < 14 && HeaderOffset(i) == o && HeaderWidths()[i] == n
    ensures o + n <= 252 && Split(d[..252], HeaderWidths())[i] == d[o..o + n]
  {
    hide HeaderOffset, Split, Total, HeaderWidths;
    HeaderOffsets(i);
    FieldAt(d, HeaderWidths(), i, o, n);
  }

  ghost predicate NumbersCut(d: seq<Byte>, f: seq<seq<Byte>>)
    requires |d| == 256 && |f| == 14
  {
    && f[0] == d[..8] && f[1] == d[8..10] && f[2] == d[10..12] && f[3] == d[12..16] && f[4] == d[16..24]
    && f[5] == d[24..32] && f[6] == d[32..40] && f[7] == d[40..48]
  }

  ghost predicate DigestsCut(d: seq<Byte>, f: seq<seq<Byte>>)
    requires |d| == 256 && |f| == 14
  {
    && f[8] == d[48..80] && f[9] == d[80..112] && f[10] == d[112..144] && f[11] == d[144..176] && f[12] == d[176..208]
    && f[13] == d[208..252]
  }

  lemma NumberPieces(d: seq<Byte>)
    requires |d| == 256
    ensures NumbersCut(d, Split(d[..252], HeaderWidths()))
  {
    hide Split, Total, HeaderWidths;
    WidthsAre();
    HeaderPiece(d, 0, 0, 8);
    HeaderPiece(d, 1, 8, 2);
    HeaderPiece(d, 2, 10, 2);
    HeaderPiece(d, 3, 12, 4);
    HeaderPiece(d, 4, 16, 8);
    HeaderPiece(d, 5, 24, 8);
    HeaderPiece(d, 6, 32, 8);
    HeaderPiece(d, 7, 40, 8);
  }

  lemma DigestPieces(d: seq<Byte>)
    requires |d| == 256
    ensures DigestsCut(d, Split(d[..252], HeaderWidths()))
  {
    hide Split, Total, HeaderWidths;
    WidthsAre();
    HeaderPiece(d, 8, 48, 32);
    HeaderPiece(d, 9, 80, 32);
    HeaderPiece(d, 10, 112, 32);
    HeaderPiece(d, 11, 144, 32);
    HeaderPiece(d, 12, 176, 32);
    HeaderPiece(d, 13, 208, 44);
  }

  lemma ConstantFields(d: seq<Byte>)
    requires |d| == 256
    ensures FromLE(d[8..10]) == 1 <==> d[8..10] == [1, 0]
    ensures FromLE(d[10..12]) == 256 <==> d[10..12] == [0, 1]
    ensures FromLE(d[12..16]) == 0 <==> d[12..16] == [0, 0, 0, 0]
    ensures d[208..252] == Zeros(44) <==> forall i :: 208 <= i < 252 ==> d[i] == 0
  {
    FromLEOfFew(d[8..10]);
    FromLEOfFew(d[10..12]);
    FromLEOfFew(d[12..16]);
    assert forall i :: 208 <= i < 252 ==> d[208..252][i - 208] == d[i];
  }

  lemma MagicIs()
    ensures Ascii("CDRGTRC1") == [67, 68, 82, 71, 84, 82, 67, 49]
    ensures Ascii("CDRGHDR1\0") == [67, 68, 82, 71, 72, 68, 82, 49, 0]
  {}

  lemma SeedInputIs(d: seq<Byte>)
    requires |d| == 256
    ensures SeedInput(HeaderOf(d)) == [67, 68, 82, 71, 72, 68, 82, 49, 0] + d[48..176] + d[16..24] + d[32..40] + d[40..48]
  {
    hide FromLE, LE;
    MagicIs();
    LEOfFromLE(d[16..24]);
    LEOfFromLE(d[32..40]);
    LEOfFromLE(d[40..48]);
    var m: seq<Byte> := [67, 68, 82, 71, 72, 68, 82, 49, 0];
    assert d[48..176] == d[48..80] + d[80..112] + d[112..144] + d[144..176];
    assert m + d[48..80] + d[80..112] + d[112..144] + d[144..176] == m + d[48..176];
  }

  // The fixed fields.
  predicate FixedReads(f: seq<seq<Byte>>)
    requires |f| == 14
  {
    && f[0] == [67, 68, 82, 71, 84, 82, 67, 49] && f[1] == [1, 0] && f[2] == [0, 1] && f[3] == [0, 0, 0, 0]
    && f[13] == Zeros(44)
  }

  lemma FixedIs(d: seq<Byte>, f: seq<seq<Byte>>)
    requires |d| == 256 && |f| == 14 && NumbersCut(d, f) && DigestsCut(d, f)
    ensures FixedReads(f) <==>
              f[0] == Ascii("CDRGTRC1") && FromLE(f[1]) == 1 && FromLE(f[2]) == 256 && FromLE(f[3]) == 0 && f[13] == Zeros(44)
    ensures f[13] == Zeros(44) <==> forall i :: 208 <= i < 252 ==> d[i] == 0
  {
    MagicIs();
    ConstantFields(d);
    hide FromLE, Ascii, Zeros;
  }

  lemma CutReads(H: Hash, d: seq<Byte>, f: seq<seq<Byte>>)
    requires |d| == 256 && |f| == 14 && NumbersCut(d, f) && DigestsCut(d, f) && SealedBy(d)
    ensures ReadHeader(H, f).Ok? <==> HeaderReads(H, d)
    ensures ReadHeader(H, f).Ok? ==> ReadHeader(H, f).value == HeaderOf(d)
  {
    hide FromLE, LE, SealedBy, SeedInput, Ascii, Zeros;
    FixedIs(d, f);
    SeedInputIs(d);
    var h := Header(FromLE(f[4]), FromLE(f[5]), FromLE(f[6]), FromLE(f[7]), f[8], f[9], f[10], f[11], f[12]);
    assert h == HeaderOf(d);
  }

  // A header is accepted exactly when its bytes are these, and holds what stands at these offsets.
  lemma HeaderIs(H: Hash, d: seq<Byte>)
    ensures ParseHeader(H, d).Ok? <==> HeaderReads(H, d)
    ensures ParseHeader(H, d).Ok? ==> |d| == 256 && ParseHeader(H, d).value == HeaderOf(d)
  {
    hide NumbersCut, DigestsCut, Split, HeaderWidths, SealIntact, SealedBy, ReadHeader, HeaderOf, FromLE;
    if |d| == 256 {
      SealedByIs(d);
      NumberPieces(d);
      DigestPieces(d);
      if SealedBy(d) {
        CutReads(H, d, Split(d[..252], HeaderWidths()));
      }
    }
  }

  // ----- Records -----

  // Item types with a meaning; others must be optional and 2000 or more.
  predicate ItemsKnown(tlvs: seq<Tlv>) {
    forall i :: 0 <= i < |tlvs| ==>
      var t := tlvs[i].typ;
      || 1 <= t <= 12 || t in {100, 101, 102, 110, 111, 112, 120, 121, 122} || (t >= 2000 && !tlvs[i].flag)
  }

  // A record at the front of d: its length is its 52 fixed bytes and its payload, rounded up to eight.
  predicate RecordReads(d: seq<Byte>) {
    && |d| >= 52
    && var total, payload := FromLE(d[..4]), FromLE(d[44..48]);
       && 52 + payload <= total < 60 + payload && total % 8 == 0 && total <= 16_384 && total <= |d|
       && SealedBy(d[..total])
       && (forall i :: 48 + payload <= i < total - 4 ==> d[i] == 0)
       && ParseTlvs(d[48..48 + payload], 0).Ok? && ItemsKnown(ParseTlvs(d[48..48 + payload], 0).value)
  }

  // Kind and flags, sequence, boundary, cycle, selector mask, event class, items.
  function RecordOf(d: seq<Byte>): Record
    requires RecordReads(d)
  {
    Record(FromLE(d[4..6]), FromLE(d[6..8]), FromLE(d[8..16]), FromLE(d[16..24]), FromLE(d[24..32]), FromLE(d[32..40]),
           FromLE(d[40..44]), ParseTlvs(d[48..48 + FromLE(d[44..48])], 0).value)
  }

  lemma KnownIs(tlvs: seq<Tlv>)
    ensures Admissible(tlvs) <==> ItemsKnown(tlvs)
  {}

  lemma RecordWidthsAre()
    ensures RecordLayout().widths == [4, 2, 2, 8, 8, 8, 8, 4, 4]
  {}

  lemma RecordOffsets()
    ensures var w := RecordLayout().widths;
            && Total(w[..0]) == 0 && Total(w[..1]) == 4 && Total(w[..2]) == 6 && Total(w[..3]) == 8 && Total(w[..4]) == 16
            && Total(w[..5]) == 24 && Total(w[..6]) == 32 && Total(w[..7]) == 40 && Total(w[..8]) == 44
  {
    hide Total, RecordLayout;
    RecordWidthsAre();
    TotalOfNone();
    forall i | 0 <= i < 8
      ensures Total(RecordLayout().widths[..i + 1]) == Total(RecordLayout().widths[..i]) + RecordLayout().widths[i]
    {
      TotalNext(RecordLayout().widths, i);
    }
    assert RecordLayout().widths[..0] == [];
  }

  lemma RecordPieces(d: seq<Byte>)
    requires |d| >= 48
    ensures var f := Split(d[..48], RecordLayout().widths);
            && f[0] == d[..4] && f[1] == d[4..6] && f[2] == d[6..8] && f[3] == d[8..16] && f[4] == d[16..24]
            && f[5] == d[24..32] && f[6] == d[32..40] && f[7] == d[40..44] && f[8] == d[44..48]
  {
    hide Split, Total, RecordLayout;
    var w := RecordLayout().widths;
    RecordOffsets();
    RecordWidthsAre();
    FieldAt(d, w, 0, 0, 4);
    FieldAt(d, w, 1, 4, 2);
    FieldAt(d, w, 2, 6, 2);
    FieldAt(d, w, 3, 8, 8);
    FieldAt(d, w, 4, 16, 8);
    FieldAt(d, w, 5, 24, 8);
    FieldAt(d, w, 6, 32, 8);
    FieldAt(d, w, 7, 40, 4);
    FieldAt(d, w, 8, 44, 4);
  }

  // A record is accepted exactly when its bytes are these, and holds what stands at these offsets.
  lemma RecordIs(d: seq<Byte>)
    ensures ParseRecord(d).Ok? <==> RecordReads(d)
    ensures ParseRecord(d).Ok? ==> ParseRecord(d).value == (RecordOf(d), FromLE(d[..4]))
  {
    hide Split, Total, RecordLayout, FromLE, SealIntact, SealedBy, ParseTlvs, Admissible, ItemsKnown, Pad8, Zeros;
    if |d| >= 52 {
      var total, payload := FromLE(d[..4]), FromLE(d[44..48]);
      RecordPieces(d);
      FrameLengthIs(48, payload, total);
      if 52 + payload <= total <= |d| {
        SealedByIs(d[..total]);
        ZerosAre(d, 48 + payload, total - 4);
        if ParseTlvs(d[48..48 + payload], 0).Ok? {
          KnownIs(ParseTlvs(d[48..48 + payload], 0).value);
        }
      }
    }
  }
}
