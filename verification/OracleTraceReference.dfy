/** The native-oracle trace said again from the format: fields by offset, kinds, items and flags by number. */
module OracleTraceReference {
  import opened Bytes
  import opened Crc32c
  import opened TlvFraming
  import opened RecordFraming
  import opened OracleTraceCodec
  import opened OracleTraceParser
  import opened OracleTraceShape

  // ----- Header -----

  // Magic, version 1, size 64, no flags; then the record count, the trace's name, 20 zero bytes and the CRC.
  predicate HeaderReads(d: seq<Byte>) {
    && |d| == 64 && SealedBy(d)
    && d[..8] == [67, 68, 82, 84, 82, 67, 49, 0] && d[8..10] == [1, 0] && d[10..12] == [64, 0] && d[12..16] == [0, 0, 0, 0]
    && (FromLE(d[16..24]) <= 1_000_000 || FromLE(d[16..24]) == 18_446_744_073_709_551_615)
    && forall i :: 40 <= i < 60 ==> d[i] == 0
  }

  function HeaderOf(d: seq<Byte>): Header
    requires |d| == 64
  {
    Header(FromLE(d[16..24]), d[24..40])
  }

  lemma HeaderWidthsAre()
    ensures HeaderWidths() == [8, 2, 2, 4, 8, 16, 20]
  {}

  lemma HeaderOffsets()
    ensures var w := HeaderWidths();
            && Total(w[..0]) == 0 && Total(w[..1]) == 8 && Total(w[..2]) == 10 && Total(w[..3]) == 12 && Total(w[..4]) == 16
            && Total(w[..5]) == 24 && Total(w[..6]) == 40
  {
    hide Total, HeaderWidths;
    HeaderWidthsAre();
    TotalOfNone();
    forall i | 0 <= i < 6
      ensures Total(HeaderWidths()[..i + 1]) == Total(HeaderWidths()[..i]) + HeaderWidths()[i]
    {
      TotalNext(HeaderWidths(), i);
    }
    assert HeaderWidths()[..0] == [];
  }

  lemma HeaderPieces(d: seq<Byte>)
    requires |d| == 64
    ensures var f := Split(d[..60], HeaderWidths());
            && f[0] == d[..8] && f[1] == d[8..10] && f[2] == d[10..12] && f[3] == d[12..16] && f[4] == d[16..24]
            && f[5] == d[24..40] && f[6] == d[40..60]
  {
    hide Split, Total, HeaderWidths;
    var w := HeaderWidths();
    HeaderOffsets();
    HeaderWidthsAre();
    FieldAt(d, w, 0, 0, 8);
    FieldAt(d, w, 1, 8, 2);
    FieldAt(d, w, 2, 10, 2);
    FieldAt(d, w, 3, 12, 4);
    FieldAt(d, w, 4, 16, 8);
    FieldAt(d, w, 5, 24, 16);
    FieldAt(d, w, 6, 40, 20);
  }

  lemma FixedIs(d: seq<Byte>)
    requires |d| == 64
    ensures FromLE(d[8..10]) == 1 <==> d[8..10] == [1, 0]
    ensures FromLE(d[10..12]) == 64 <==> d[10..12] == [64, 0]
    ensures FromLE(d[12..16]) == 0 <==> d[12..16] == [0, 0, 0, 0]
    ensures d[40..60] == Zeros(20) <==> forall i :: 40 <= i < 60 ==> d[i] == 0
    ensures Ascii("CDRTRC1\0") == [67, 68, 82, 84, 82, 67, 49, 0]
  {
    FromLEOfFew(d[8..10]);
    FromLEOfFew(d[10..12]);
    FromLEOfFew(d[12..16]);
    ZerosAre(d, 40, 60);
  }

  // A header is accepted exactly when its bytes are these, and holds what stands at these offsets.
  lemma HeaderIs(d: seq<Byte>)
    ensures ParseHeader(d).Ok? <==> HeaderReads(d)
    ensures ParseHeader(d).Ok? ==> |d| == 64 && ParseHeader(d).value == HeaderOf(d)
  {
    hide Split, HeaderWidths, SealIntact, SealedBy, FromLE, Ascii, Zeros;
    if |d| == 64 {
      SealedByIs(d);
      HeaderPieces(d);
      FixedIs(d);
    }
  }

  // ----- Records -----

  // A record at the front of d: its length is its 36 fixed bytes and its payload, rounded up to eight.
  predicate RecordReads(d: seq<Byte>) {
    && |d| >= 36
    && var total, payload := FromLE(d[..4]), FromLE(d[24..28]);
       && 36 + payload <= total < 44 + payload && total % 8 == 0 && total <= 16_777_216 && total <= |d|
       && FromLE(d[4..6]) in {1, 3, 4} && d[6] == 0 && d[7] == 0 && d[28..32] == [0, 0, 0, 0]
       && SealedBy(d[..total])
       && (forall i :: 32 + payload <= i < total - 4 ==> d[i] == 0)
       && ParseTlvs(d[32..32 + payload], 0).Ok?
  }

  // Kind, sequence, cycle, items.
  function RecordOf(d: seq<Byte>): Record
    requires RecordReads(d)
  {
    Record(FromLE(d[4..6]), FromLE(d[8..16]), FromLE(d[16..24]), ParseTlvs(d[32..32 + FromLE(d[24..28])], 0).value)
  }

  lemma RecordWidthsAre()
    ensures RecordLayout().widths == [4, 2, 2, 8, 8, 4, 4]
  {}

  lemma RecordOffsets()
    ensures var w := RecordLayout().widths;
            && Total(w[..0]) == 0 && Total(w[..1]) == 4 && Total(w[..2]) == 6 && Total(w[..3]) == 8 && Total(w[..4]) == 16
            && Total(w[..5]) == 24 && Total(w[..6]) == 28
  {
    hide Total, RecordLayout;
    RecordWidthsAre();
    TotalOfNone();
    forall i | 0 <= i < 6
      ensures Total(RecordLayout().widths[..i + 1]) == Total(RecordLayout().widths[..i]) + RecordLayout().widths[i]
    {
      TotalNext(RecordLayout().widths, i);
    }
    assert RecordLayout().widths[..0] == [];
  }

  lemma RecordPieces(d: seq<Byte>)
    requires |d| >= 32
    ensures var f := Split(d[..32], RecordLayout().widths);
            && f[0] == d[..4] && f[1] == d[4..6] && f[2] == d[6..8] && f[3] == d[8..16] && f[4] == d[16..24]
            && f[5] == d[24..28] && f[6] == d[28..32]
  {
    hide Split, Total, RecordLayout;
    var w := RecordLayout().widths;
    RecordOffsets();
    RecordWidthsAre();
    FieldAt(d, w, 0, 0, 4);
    FieldAt(d, w, 1, 4, 2);
    FieldAt(d, w, 2, 6, 2);
    FieldAt(d, w, 3, 8, 8);
    FieldAt(d, w, 4, 16, 8);
    FieldAt(d, w, 5, 24, 4);
    FieldAt(d, w, 6, 28, 4);
  }

  lemma UnusedIs(d: seq<Byte>)
    requires |d| >= 32
    ensures FromLE(d[6..8]) == 0 <==> d[6] == 0 && d[7] == 0
    ensures FromLE(d[28..32]) == 0 <==> d[28..32] == [0, 0, 0, 0]
  {
    FromLEOfFew(d[6..8]);
    FromLEOfFew(d[28..32]);
  }

  // A record is accepted exactly when its bytes are these, and holds what stands at these offsets.
  lemma RecordIs(d: seq<Byte>)
    ensures ParseRecord(d).Ok? <==> RecordReads(d)
    ensures ParseRecord(d).Ok? ==> ParseRecord(d).value == (RecordOf(d), FromLE(d[..4]))
  {
    hide Split, Total, RecordLayout, FromLE, SealIntact, SealedBy, ParseTlvs, Pad8, Zeros;
    if |d| >= 36 {
      var total, payload := FromLE(d[..4]), FromLE(d[24..28]);
      RecordPieces(d);
      UnusedIs(d);
      FrameLengthIs(32, payload, total);
      if 36 + payload <= total <= |d| {
        SealedByIs(d[..total]);
        ZerosAre(d, 32 + payload, total - 4);
      }
    }
  }

  // ----- Items -----

  // In an ordered list the item of a type is its only member of that type.
  lemma {:induction false} FindIs(tlvs: seq<Tlv>, typ: nat, x: Tlv, last: nat)
    requires Ordered(tlvs, last)
    ensures Find(tlvs, typ) == Some(x) <==> x in tlvs && x.typ == typ
    decreases |tlvs|
  {
    if tlvs != [] {
      FindIs(tlvs[1..], typ, x, tlvs[0].typ);
      assert tlvs == [tlvs[0]] + tlvs[1..];
      if x in tlvs[1..] {
        var i :| 0 <= i < |tlvs[1..]| && tlvs[1..][i] == x;
        OrderedAbove(tlvs[1..], tlvs[0].typ, i);
      }
    }
  }

  function N(r: Record, typ: nat): nat { FromLE(ValueOf(r, typ)) }

  // Whether an item is critical, and how wide it is.
  predicate ItemReads(kind: nat, x: Tlv) {
    match kind
    case 1 =>
      if 1 <= x.typ <= 3 then x.flag && |x.value| == 32
      else if 4 <= x.typ <= 7 then x.flag && |x.value| == 8
      else if x.typ == 8 then x.flag && |x.value| == 4
      else !x.flag && (100 <= x.typ <= 108 ==> |x.value| == 32)
    case 3 => if 1 <= x.typ <= 2 then x.flag && |x.value| == 4 else x.flag <==> x.typ == 3
    case _ =>
      if 1 <= x.typ <= 2 then x.flag && |x.value| == 8
      else if x.typ == 3 then x.flag && |x.value| == 32
      else if 4 <= x.typ <= 5 then x.flag && |x.value| == 4
      else !x.flag
  }

  predicate NeededItems(r: Record) {
    match r.kind
    case 1 => Has(r, 1) && Has(r, 2) && Has(r, 3) && Has(r, 4) && Has(r, 6) && Has(r, 7) && Has(r, 8)
    case 3 => Has(r, 1) && Has(r, 2) && Has(r, 3)
    case _ => Has(r, 1) && Has(r, 2) && Has(r, 3) && Has(r, 4) && Has(r, 5)
  }

  predicate ItemsRead(r: Record) { NeededItems(r) && forall x :: x in r.tlvs ==> ItemReads(r.kind, x) }

  lemma ItemsAre(r: Record)
    requires (forall x :: x in r.tlvs ==> x.typ > 0) && r.kind in {1, 3, 4}
    ensures RequiredTlvs(r) <==> ItemsRead(r)
  {
    hide Has;
    assert KIND_BOUNDARY == 1 && KIND_EVENT == 3 && KIND_TERMINAL == 4;
    forall x | x in r.tlvs
      ensures (match Known(r.kind, x.typ)
               case None => !x.flag
               case Some(k) => x.flag == k.0 && (k.1.Some? ==> |x.value| == k.1.value)) <==> ItemReads(r.kind, x)
    {
      ItemIs(r.kind, x);
    }
    NeededAre(r);
    hide Known, ItemReads, NeededItems, Required;
  }

  lemma ItemIs(kind: nat, x: Tlv)
    requires x.typ > 0 && kind in {1, 3, 4}
    ensures (match Known(kind, x.typ)
             case None => !x.flag
             case Some(k) => x.flag == k.0 && (k.1.Some? ==> |x.value| == k.1.value)) <==> ItemReads(kind, x)
  {}

  lemma NeededAre(r: Record)
    requires r.kind in {1, 3, 4}
    ensures (forall typ :: typ in Required(r.kind) ==> Has(r, typ)) <==> NeededItems(r)
  {
    hide Has;
  }

  // ----- The three hashes -----

  function IdentityInput(r: Record): seq<Byte> {
    [67, 68, 82, 73, 68, 69, 78, 84, 49, 0] + ValueOf(r, 101) + ValueOf(r, 102) + ValueOf(r, 103) + ValueOf(r, 104)
    + ValueOf(r, 105) + ValueOf(r, 106) + ValueOf(r, 107) + ValueOf(r, 108)
  }

  function SemanticInput(r: Record): seq<Byte> { [67, 68, 82, 66, 79, 85, 78, 68, 49, 0] + EncodeTlvs(r.tlvs) }

  const NO_MUTATION: seq<Byte> := [67, 68, 82, 77, 85, 84, 49, 0]

  lemma InputsAre(H: Hash, r: Record)
    ensures IdentityBundle(H, r) == H(IdentityInput(r)) && Semantic(H, r) == H(SemanticInput(r)) && EmptyMutation(H) == H(NO_MUTATION)
  {
    assert Ascii("CDRIDENT1\0") == [67, 68, 82, 73, 68, 69, 78, 84, 49, 0];
    assert Ascii("CDRBOUND1\0") == [67, 68, 82, 66, 79, 85, 78, 68, 49, 0];
    assert Ascii("CDRMUT1\0") == NO_MUTATION;
    ComponentsJoined(r);
    hide ValueOf, EncodeTlvs, Join, Ascii, Components;
  }

  lemma ComponentsJoined(r: Record)
    ensures [67, 68, 82, 73, 68, 69, 78, 84, 49, 0] + Join(Components(r)) == IdentityInput(r)
  {
    hide ValueOf, Join;
    var c := Components(r);
    JoinFrom(c, 0);
    JoinFrom(c, 1);
    JoinFrom(c, 2);
    JoinFrom(c, 3);
    JoinFrom(c, 4);
    JoinFrom(c, 5);
    JoinFrom(c, 6);
    JoinFrom(c, 7);
    NothingJoined(c);
    assert c[0..] == c;
    EightInLine([67, 68, 82, 73, 68, 69, 78, 84, 49, 0], c[0], c[1], c[2], c[3], c[4], c[5], c[6], c[7]);
  }

  lemma EightInLine(m: seq<Byte>, a: seq<Byte>, b: seq<Byte>, c: seq<Byte>, d: seq<Byte>, e: seq<Byte>, f: seq<Byte>,
                    g: seq<Byte>, h: seq<Byte>)
    ensures m + (a + (b + (c + (d + (e + (f + (g + (h + [])))))))) == m + a + b + c + d + e + f + g + h
  {}

  lemma JoinFrom(fields: seq<seq<Byte>>, i: nat)
    requires i < |fields|
    ensures Join(fields[i..]) == fields[i] + Join(fields[i + 1..])
  {
    assert fields[i..][1..] == fields[i + 1..];
  }

  lemma NothingJoined(fields: seq<seq<Byte>>)
    ensures Join(fields[|fields|..]) == []
  {}

  predicate IdentityReads(H: Hash, uuid: seq<Byte>, r: Record) {
    && (forall typ :: 100 <= typ <= 108 ==> Has(r, typ))
    && ValueOf(r, 100) == H(IdentityInput(r)) && uuid == H(IdentityInput(r))[..16]
  }

  // ----- Rules in their order -----

  // The latest record of kind 1 before position i, or -1.
  function Latest(records: seq<Record>, i: nat): (b: int)
    requires i <= |records|
    ensures -1 <= b < i
  {
    if i == 0 then -1 else if records[i - 1].kind == 1 then i - 1 else Latest(records, i - 1)
  }

  // The flags word of the latest boundary is 16 or more.
  predicate HaltedReads(records: seq<Record>, i: nat)
    requires i <= |records|
  {
    Latest(records, i) >= 0 && N(records[Latest(records, i)], 8) >= 16
  }

  // S0: flags word 1, no slot, 32 zero bytes for a predecessor, no mutations.
  predicate OpeningReads(r: Record) {
    N(r, 4) == 0 && N(r, 8) == 1 && !Has(r, 5) && ValueOf(r, 1) == Zeros(32) && N(r, 6) == 0 && N(r, 7) == 0
  }

  // Executed (2) or inhibited (4), with or without checkpoint (8) and halt (16); the rest goes on from p.
  predicate LaterReads(H: Hash, p: Record, r: Record) {
    && N(r, 8) in {2, 4, 10, 12, 18, 20, 26, 28}
    && Has(r, 5) && N(r, 4) == N(r, 5) + 1 == N(p, 4) + 1
    && ValueOf(r, 1) == H(SemanticInput(p)) && N(r, 6) == N(p, 6) + N(p, 7)
  }

  predicate BoundaryReads(H: Hash, records: seq<Record>, i: nat)
    requires i < |records|
  {
    var b, r := Latest(records, i), records[i];
    && !HaltedReads(records, i) && (N(r, 7) == 0 ==> ValueOf(r, 3) == H(NO_MUTATION))
    && if b < 0 then OpeningReads(r) else LaterReads(H, records[b], r)
  }

  // Complete by halt or by limit, aborted, failed.
  predicate EndReads(status: nat, reason: nat) {
    (status == 0 && reason <= 1) || (status == 1 && reason == 2) || (status == 2 && reason == 3)
  }

  ghost predicate TerminalReads(H: Hash, records: seq<Record>, i: nat)
    requires i < |records|
  {
    var b, r := Latest(records, i), records[i];
    && EndReads(N(r, 4), N(r, 5)) && N(r, 1) == i + 1
    && (if b < 0 then N(r, 2) == 18_446_744_073_709_551_615 && ValueOf(r, 3) == Zeros(32)
        else N(r, 2) == N(records[b], 4) && ValueOf(r, 3) == H(SemanticInput(records[b])))
    && (N(r, 4) == 0 ==>
          && b >= 0 && (forall j :: 0 <= j < i ==> records[j].kind != 3)
          && (N(r, 5) == 0 <==> HaltedReads(records, i)))
  }

  ghost predicate FitsReads(H: Hash, uuid: seq<Byte>, records: seq<Record>, i: nat)
    requires i < |records|
  {
    var r := records[i];
    && i < 1_000_000 && r.sequence == i && (i > 0 ==> records[i - 1].cycle <= r.cycle) && ItemsRead(r)
    && (if r.kind == 1 && i == 0 && N(r, 4) == 0 then IdentityReads(H, uuid, r) else forall typ :: 100 <= typ <= 108 ==> !Has(r, typ))
    && (forall j :: 0 <= j < i ==> records[j].kind != 4)
    && match r.kind {
         case 1 => BoundaryReads(H, records, i)
         case 3 => !HaltedReads(records, i)
         case _ => TerminalReads(H, records, i)
       }
  }

  ghost predicate TraceReads(H: Hash, header: Header, records: seq<Record>) {
    && records != [] && records[0].kind == 1 && N(records[0], 4) == 0 && records[|records| - 1].kind == 4
    && (forall i :: 0 <= i < |records| ==> FitsReads(H, header.uuid, records, i))
    && (header.recordCount == 18_446_744_073_709_551_615 || header.recordCount == |records|)
  }

  // Flags words below 32, by their bits.
  lemma FlagWords(n: nat)
    requires n < 32
    ensures Bit(n, HALT) <==> n >= 16
    ensures !Bit(n, S0) && Bit(n, EXECUTED) != Bit(n, INHIBITED) <==> n in {2, 4, 10, 12, 18, 20, 26, 28}
  {
    hide Bit;
    LowBits(n);
    WordsBelow32(n);
  }

  lemma WordsBelow32(n: nat)
    requires n < 32
    ensures n / 16 % 2 == 1 <==> n >= 16
    ensures n % 2 == 0 && (n / 2 % 2 == 1) != (n / 4 % 2 == 1) <==> n in {2, 4, 10, 12, 18, 20, 26, 28}
  {}

  // Boundaries before position i have known flags.
  ghost predicate KnownFlags(records: seq<Record>, i: nat)
    requires i <= |records|
  {
    forall j :: 0 <= j < i && records[j].kind == 1 ==> N(records[j], 8) < 32
  }

  lemma {:induction false} LatestIs(records: seq<Record>, i: nat)
    requires i <= |records|
    ensures LastBoundary(records, i) == Latest(records, i)
    ensures Latest(records, i) >= 0 ==> records[Latest(records, i)].kind == 1
    decreases i
  {
    if i > 0 {
      LatestIs(records, i - 1);
    }
  }

  lemma HaltedIs(records: seq<Record>, i: nat)
    requires i <= |records| && KnownFlags(records, i)
    ensures HaltedAt(records, i) <==> HaltedReads(records, i)
  {
    hide ValueOf, FromLE, Bit;
    LatestIs(records, i);
    var b := Latest(records, i);
    if b >= 0 {
      FlagWords(N(records[b], 8));
    }
  }

  lemma OpeningIs(r: Record)
    ensures Ordinal(r) == 0 && OpeningRule(r) <==> OpeningReads(r)
  {
    hide ValueOf, FromLE, Has, Zeros;
  }

  lemma LaterIs(H: Hash, p: Record, r: Record)
    requires N(r, 8) < 32
    ensures Ordinal(r) != 0 && LaterRule(r, Semantic(H, p), Ordinal(p), FirstMutation(p) + Mutations(p)) <==> LaterReads(H, p, r)
  {
    FlagWords(N(r, 8));
    InputsAre(H, p);
    hide ValueOf, FromLE, Has, Semantic, SemanticInput, Bit;
  }

  lemma LaterFlags(H: Hash, p: Record, r: Record)
    requires LaterReads(H, p, r)
    ensures N(r, 8) < 32
  {
    hide ValueOf, FromLE, Has, SemanticInput;
  }

  lemma BoundaryIs(H: Hash, records: seq<Record>, i: nat)
    requires i < |records| && KnownFlags(records, i)
    ensures BoundaryFits(H, records, i) <==> BoundaryReads(H, records, i)
  {
    hide ValueOf, FromLE, Has, Semantic, SemanticInput, EmptyMutation, OpeningRule, OpeningReads, LaterRule, LaterReads, Bit,
      HaltedAt, HaltedReads, Latest, LastBoundary, Ordinal, FirstMutation;
    var b, r := Latest(records, i), records[i];
    LatestIs(records, i);
    HaltedIs(records, i);
    InputsAre(H, r);
    OpeningIs(r);
    OpeningFlags(r);
    if b >= 0 {
      if N(r, 8) < 32 {
        LaterIs(H, records[b], r);
      }
      if LaterReads(H, records[b], r) {
        LaterFlags(H, records[b], r);
      }
    }
  }

  lemma OpeningFlags(r: Record)
    ensures OpeningReads(r) ==> N(r, 8) < 32
  {
    hide ValueOf, FromLE, Has, Zeros;
  }

  lemma TerminalIs(H: Hash, records: seq<Record>, i: nat)
    requires i < |records| && KnownFlags(records, i)
    ensures TerminalFits(H, records, i) <==> TerminalReads(H, records, i)
  {
    hide ValueOf, FromLE, Semantic, SemanticInput, HaltedAt, HaltedReads, Latest, LastBoundary, Zeros;
    var b := Latest(records, i);
    LatestIs(records, i);
    HaltedIs(records, i);
    if b >= 0 {
      InputsAre(H, records[b]);
    }
  }

  lemma IdentityIs(H: Hash, uuid: seq<Byte>, r: Record, i: nat)
    requires r.kind in {1, 3, 4}
    ensures IdentityRule(H, uuid, r, i) <==>
              if r.kind == 1 && i == 0 && N(r, 4) == 0 then IdentityReads(H, uuid, r)
              else forall typ :: 100 <= typ <= 108 ==> !Has(r, typ)
  {
    InputsAre(H, r);
    hide ValueOf, FromLE, Has, IdentityBundle, IdentityInput;
  }

  // Records as they come from bytes.
  ghost predicate FromBytes(records: seq<Record>) {
    forall i :: 0 <= i < |records| ==> records[i].kind in {1, 3, 4} && forall x :: x in records[i].tlvs ==> x.typ > 0
  }

  lemma FitsIs(H: Hash, uuid: seq<Byte>, records: seq<Record>, i: nat)
    requires i < |records| && FromBytes(records) && KnownFlags(records, i)
    ensures RecordFits(H, uuid, records, i) <==> FitsReads(H, uuid, records, i)
  {
    hide RequiredTlvs, ItemsRead, IdentityRule, IdentityReads, BoundaryFits, BoundaryReads, TerminalFits, TerminalReads,
      HaltedAt, HaltedReads, Has, N, KnownFlags;
    assert MAX_RECORDS == 1_000_000 && KIND_BOUNDARY == 1 && KIND_EVENT == 3 && KIND_TERMINAL == 4;
    ItemsAre(records[i]);
    IdentityIs(H, uuid, records[i], i);
    BoundaryIs(H, records, i);
    TerminalIs(H, records, i);
    HaltedIs(records, i);
  }

  lemma FlagsKnown(H: Hash, uuid: seq<Byte>, records: seq<Record>, i: nat)
    requires i < |records| && FitsReads(H, uuid, records, i) && records[i].kind == 1
    ensures N(records[i], 8) < 32
  {
    hide ItemsRead, IdentityReads, TerminalReads, HaltedReads, LaterReads, OpeningReads, N;
    OpeningFlags(records[i]);
    if Latest(records, i) >= 0 {
      LaterFlags(H, records[Latest(records, i)], records[i]);
    }
  }

  lemma {:induction false} FitAlike(H: Hash, uuid: seq<Byte>, records: seq<Record>, n: nat)
    requires n <= |records| && FromBytes(records)
    ensures (forall i :: 0 <= i < n ==> RecordFits(H, uuid, records, i)) <==> forall i :: 0 <= i < n ==> FitsReads(H, uuid, records, i)
    ensures (forall i :: 0 <= i < n ==> FitsReads(H, uuid, records, i)) ==> KnownFlags(records, n)
    decreases n
  {
    hide RecordFits, FitsReads, FromBytes, N;
    if n > 0 {
      FitAlike(H, uuid, records, n - 1);
      if forall i :: 0 <= i < n - 1 ==> FitsReads(H, uuid, records, i) {
        FitsIs(H, uuid, records, n - 1);
        if FitsReads(H, uuid, records, n - 1) && records[n - 1].kind == 1 {
          FlagsKnown(H, uuid, records, n - 1);
        }
      }
    }
  }

  // The grammar is this one.
  lemma GrammarIs(H: Hash, header: Header, records: seq<Record>)
    requires FromBytes(records)
    ensures Grammar(H, header, records) <==> TraceReads(H, header, records)
  {
    hide RecordFits, FitsReads, ValueOf, FromLE, FromBytes;
    FitAlike(H, header.uuid, records, |records|);
  }

  lemma {:induction false} ParsedFromBytes(data: seq<Byte>)
    requires ParseRecords(data).Ok?
    ensures FromBytes(ParseRecords(data).value)
    decreases |data|
  {
    hide ParseRecord, RecordBytes;
    if data != [] {
      var (r, n) := ParseRecord(data).value;
      EncodeParsedRecord(data);
      ValidHasTypes(r);
      ParsedFromBytes(data[n..]);
      hide ValidRecord;
    }
  }

  lemma ValidHasTypes(r: Record)
    requires ValidRecord(r)
    ensures r.kind in {1, 3, 4} && forall x :: x in r.tlvs ==> x.typ > 0
  {
    hide Ordered, EncodeTlvs;
    forall x | x in r.tlvs
      ensures x.typ > 0
    {
      var i :| 0 <= i < |r.tlvs| && r.tlvs[i] == x;
      OrderedAbove(r.tlvs, 0, i);
    }
  }

  // The bundle and the profile a caller insists on, if any: items 100 and 101 of the first record.
  predicate Insisted(r: Record, e: Expected) {
    && (e.bundle.Some? ==> e.bundle.value == ValueOf(r, 100)) && (e.profile.Some? ==> e.profile.value == ValueOf(r, 101))
  }

  lemma MeetsIs(r: Record, e: Expected)
    ensures Meets(r, e) <==> Insisted(r, e)
  {
    hide ValueOf;
  }

  // Whole files: a header, then records that meet the grammar.
  lemma FileIs(H: Hash, data: seq<Byte>, e: Expected)
    ensures ParseTrace(H, data, e).Ok? <==>
              && |data| >= 64 && HeaderReads(data[..64]) && ParseRecords(data[64..]).Ok?
              && TraceReads(H, HeaderOf(data[..64]), ParseRecords(data[64..]).value)
              && ParseRecords(data[64..]).value != [] && Insisted(ParseRecords(data[64..]).value[0], e)
  {
    hide HeaderReads, ParseHeader, HeaderOf, Meets, Insisted, ParseRecords, Accepted, Grammar, TraceReads, FromBytes;
    if |data| >= 64 {
      HeaderIs(data[..64]);
      if ParseHeader(data[..64]).Ok? && ParseRecords(data[64..]).Ok? {
        var rs := ParseRecords(data[64..]).value;
        ParsedFromBytes(data[64..]);
        KindsKnown(rs);
        ParserDecidesGrammar(H, HeaderOf(data[..64]), rs);
        GrammarIs(H, HeaderOf(data[..64]), rs);
        if rs != [] {
          MeetsIs(rs[0], e);
        }
      }
    }
  }

  lemma KindsKnown(records: seq<Record>)
    requires FromBytes(records)
    ensures AllKinds(records)
  {}

  // ----- Halting, by the flags word -----

  // Nothing but the terminal follows a boundary whose flags word is 16 or more.
  lemma HaltEndsTrace(H: Hash, header: Header, records: seq<Record>, i: nat)
    requires FromBytes(records) && Accepted(H, header, records)
    requires i < |records| && records[i].kind == 1 && N(records[i], 8) >= 16
    ensures i + 2 == |records| && records[i + 1].kind == 4
  {
    hide FitsReads, FromBytes, Accepted, Grammar, N, Flag;
    KindsKnown(records);
    ParserDecidesGrammar(H, header, records);
    GrammarIs(H, header, records);
    FlagsKnown(H, header.uuid, records, i);
    WordHalts(records[i]);
    HaltIsFollowedByTerminal(H, header, records, i);
  }

  lemma WordHalts(r: Record)
    requires N(r, 8) < 32
    ensures Flag(r, HALT) <==> N(r, 8) >= 16
  {
    FlagWords(N(r, 8));
    hide Bit, FromLE, ValueOf;
  }

  // A trace that ends complete gives reason 0 exactly when its last boundary's flags word is 16 or more.
  lemma CompleteReason(H: Hash, header: Header, records: seq<Record>)
    requires FromBytes(records) && Accepted(H, header, records) && records != [] && N(records[|records| - 1], 4) == 0
    ensures var b := Latest(records, |records| - 1);
            b >= 0 && (N(records[|records| - 1], 5) == 0 <==> N(records[b], 8) >= 16)
    ensures forall j :: 0 <= j < |records| ==> records[j].kind != 3
  {
    hide Accepted, Grammar, N, BoundaryReads, ItemsRead, IdentityReads, FromBytes;
    KindsKnown(records);
    ParserDecidesGrammar(H, header, records);
    GrammarIs(H, header, records);
    assert FitsReads(H, header.uuid, records, |records| - 1);
  }
}
