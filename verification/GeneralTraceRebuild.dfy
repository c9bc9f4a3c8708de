/** Extensions and header counts do not matter: what acceptance and digests of a general trace depend on. */
module GeneralTraceRebuild {
  import opened Bytes
  import opened RecordFraming
  import opened TlvFraming
  import opened GeneralTraceCodec
  import opened GeneralTraceRules
  import opened GeneralTraceParser
  import opened GeneralTraceBytes

  // ----- Extension items -----

  predicate IsKnown(x: Tlv) { x.typ < EXTENSION }

  function Known(tlvs: seq<Tlv>): seq<Tlv> { Keep(tlvs, IsKnown) }

  // Equal but for items in the extension range.
  predicate SameKnown(r: Record, r': Record) {
    r' == r.(tlvs := r'.tlvs) && Known(r.tlvs) == Known(r'.tlvs)
  }

  lemma {:induction false} KeepMembers(tlvs: seq<Tlv>, p: Tlv -> bool, x: Tlv)
    ensures x in Keep(tlvs, p) <==> x in tlvs && p(x)
    decreases |tlvs|
  {
    if tlvs != [] {
      KeepMembers(tlvs[1..], p, x);
      assert tlvs == [tlvs[0]] + tlvs[1..];
    }
  }

  lemma {:induction false} KeepOfKeep(tlvs: seq<Tlv>, q: Tlv -> bool, p: Tlv -> bool)
    requires forall x :: p(x) ==> q(x)
    ensures Keep(Keep(tlvs, q), p) == Keep(tlvs, p)
    decreases |tlvs|
  {
    if tlvs != [] {
      KeepOfKeep(tlvs[1..], q, p);
      var rest := Keep(tlvs[1..], q);
      if q(tlvs[0]) {
        assert ([tlvs[0]] + rest)[1..] == rest;
      } else {
        assert [] + rest == rest;
      }
    }
  }

  lemma ItemOfKnown(tlvs: seq<Tlv>, tlvs': seq<Tlv>, typ: nat)
    requires Known(tlvs) == Known(tlvs') && typ < EXTENSION
    ensures Item(tlvs, typ) == Item(tlvs', typ) && ItemOf(tlvs, typ) == ItemOf(tlvs', typ)
    ensures Present(tlvs, typ) <==> Present(tlvs', typ)
  {
    KeepOfKeep(tlvs, IsKnown, OfType(typ));
    KeepOfKeep(tlvs', IsKnown, OfType(typ));
    forall x: Tlv ensures x.typ == typ ==> (x in tlvs <==> x in tlvs') {
      KeepMembers(tlvs, IsKnown, x);
      KeepMembers(tlvs', IsKnown, x);
    }
  }

  lemma PreimageOfKnown(previous: seq<Byte>, r: Record, r': Record)
    requires SameKnown(r, r')
    ensures Preimage(previous, r) == Preimage(previous, r')
  {
    KeepOfKeep(r.tlvs, IsKnown, InDigest);
    KeepOfKeep(r'.tlvs, IsKnown, InDigest);
    assert Envelope(r) == Envelope(r');
  }

  // All a record's rules, position and digest depend on is its envelope and its known items.
  lemma ViewsOfKnown(r: Record, r': Record)
    requires SameKnown(r, r')
    ensures forall typ :: 0 <= typ < EXTENSION ==>
              && Item(r.tlvs, typ) == Item(r'.tlvs, typ) && ItemOf(r.tlvs, typ) == ItemOf(r'.tlvs, typ)
              && (Present(r.tlvs, typ) <==> Present(r'.tlvs, typ))
    ensures SlotPosition(r) == SlotPosition(r') && Semantic(r) == Semantic(r')
    ensures forall x: Tlv :: x.typ < EXTENSION ==> (x in r.tlvs <==> x in r'.tlvs)
  {
    forall typ | 0 <= typ < EXTENSION
      ensures Item(r.tlvs, typ) == Item(r'.tlvs, typ) && ItemOf(r.tlvs, typ) == ItemOf(r'.tlvs, typ)
      ensures Present(r.tlvs, typ) <==> Present(r'.tlvs, typ)
    {
      ItemOfKnown(r.tlvs, r'.tlvs, typ);
    }
    forall x: Tlv | IsKnown(x) ensures x in r.tlvs <==> x in r'.tlvs {
      KeepMembers(r.tlvs, IsKnown, x);
      KeepMembers(r'.tlvs, IsKnown, x);
    }
  }

  lemma BoundaryRuleOfKnown(header: Header, r: Record, r': Record)
    requires SameKnown(r, r')
    ensures BoundaryRule(header, r) <==> BoundaryRule(header, r')
  {
    hide Item, ItemOf, Present, ValidSelector, Keep, Bit, ExpectedMask, Semantic, SlotPosition;
    ViewsOfKnown(r, r');
    forall bit | 0 <= bit < 12
      ensures SelectedRule(r, bit) <==> SelectedRule(r', bit)
    {
      assert Item(r.tlvs, bit + 1) == Item(r'.tlvs, bit + 1);
    }
  }

  lemma OtherRulesOfKnown(H: Hash, header: Header, r: Record, r': Record, previous: seq<Byte>, index: nat, final: Option<Final>)
    requires SameKnown(r, r')
    ensures InitialRule(header, r) <==> InitialRule(header, r')
    ensures EventRule(H, header, r) <==> EventRule(H, header, r')
    ensures TerminalRule(r, previous, index, final) <==> TerminalRule(r', previous, index, final)
  {
    hide Item, ItemOf, Present, ValidEvent, EventDigest, Keep, Bit, Semantic, SlotPosition, FromLE;
    ViewsOfKnown(r, r');
  }

  lemma CommonItemsOfKnown(r: Record, r': Record)
    requires SameKnown(r, r')
    ensures forall typ :: typ in {STATE, PREVIOUS, SEMANTIC} ==>
              ItemOf(r.tlvs, typ) == ItemOf(r'.tlvs, typ) && (HasItem(r.tlvs, typ, 32) <==> HasItem(r'.tlvs, typ, 32))
    ensures (forall x :: x in r.tlvs && x.typ < EXTENSION ==> AllowedType(r, x.typ)) <==>
            (forall x :: x in r'.tlvs && x.typ < EXTENSION ==> AllowedType(r', x.typ))
  {
    hide Item, ItemOf, Present, Semantic, SlotPosition, Bit, Keep;
    ViewsOfKnown(r, r');
  }

  lemma RuleOfKnown(H: Hash, header: Header, r: Record, r': Record, previous: seq<Byte>, index: nat, final: Option<Final>)
    requires SameKnown(r, r')
    ensures RecordRule(H, header, r, previous, index, final) <==> RecordRule(H, header, r', previous, index, final)
  {
    hide ItemOf, HasItem, Preimage, AllowedType, InitialRule, BoundaryRule, EventRule, TerminalRule, Known;
    CommonItemsOfKnown(r, r');
    PreimageOfKnown(previous, r, r');
    BoundaryRuleOfKnown(header, r, r');
    OtherRulesOfKnown(H, header, r, r', previous, index, final);
  }

  // ----- Whole traces -----

  ghost predicate AllSameKnown(a: seq<Record>, b: seq<Record>) {
    |a| == |b| && forall i :: 0 <= i < |a| ==> SameKnown(a[i], b[i])
  }

  lemma {:induction false} LookBackOfKnown(a: seq<Record>, b: seq<Record>, i: nat)
    requires AllSameKnown(a, b) && i <= |a|
    ensures LastBoundary(a, i) == LastBoundary(b, i) && BoundaryCount(a, i) == BoundaryCount(b, i)
    decreases i
  {
    hide Known;
    if i > 0 {
      LookBackOfKnown(a, b, i - 1);
      assert SameKnown(a[i - 1], b[i - 1]);
    }
  }

  lemma ContextOfKnown(header: Header, a: seq<Record>, b: seq<Record>, i: nat)
    requires AllSameKnown(a, b) && i <= |a|
    ensures PreviousAt(header, a, i) == PreviousAt(header, b, i)
    ensures FinalAt(a, i) == FinalAt(b, i) && (HaltedAt(a, i) <==> HaltedAt(b, i))
  {
    hide Known, Item, ItemOf, Present, Semantic, Halting, LastBoundary, SlotPosition;
    LookBackOfKnown(a, b, i);
    if i > 0 {
      assert SameKnown(a[i - 1], b[i - 1]);
      ViewsOfKnown(a[i - 1], b[i - 1]);
    }
    var last := LastBoundary(a, i);
    if last >= 0 {
      assert SameKnown(a[last], b[last]);
    }
  }

  lemma EventFitsOfKnown(a: seq<Record>, b: seq<Record>, i: nat)
    requires AllSameKnown(a, b) && i < |a|
    ensures EventFits(a, i) <==> EventFits(b, i)
  {
    LookBackOfKnown(a, b, i);
    forall j | 0 <= j < |a|
      ensures SlotPosition(a[j]) == SlotPosition(b[j])
      ensures a[j].boundary == b[j].boundary && a[j].eventClass == b[j].eventClass && a[j].flags == b[j].flags
    {
      assert SameKnown(a[j], b[j]);
      ViewsOfKnown(a[j], b[j]);
    }
    hide SameKnown, SlotPosition, LastBoundary, Halting;
  }

  lemma FitsOfKnown(H: Hash, header: Header, a: seq<Record>, b: seq<Record>, i: nat)
    requires AllSameKnown(a, b) && i < |a|
    ensures RecordFits(H, header, a, i) <==> RecordFits(H, header, b, i)
  {
    hide RecordRule, EventFits, LastBoundary, BoundaryCount, PreviousAt, FinalAt, HaltedAt, Known;
    LookBackOfKnown(a, b, i);
    ContextOfKnown(header, a, b, i);
    EventFitsOfKnown(a, b, i);
    RuleOfKnown(H, header, a[i], b[i], PreviousAt(header, a, i), i, FinalAt(a, i));
    forall j | 0 <= j < |a| ensures a[j].kind == b[j].kind && a[j].cycle == b[j].cycle {
      assert SameKnown(a[j], b[j]);
    }
    assert SameKnown(a[i], b[i]);
  }

  // Acceptance and every digest depend on the known items alone.
  lemma GrammarIgnoresExtensions(H: Hash, header: Header, a: seq<Record>, b: seq<Record>)
    requires AllSameKnown(a, b)
    ensures Grammar(H, header, a) <==> Grammar(H, header, b)
    ensures forall i :: 0 <= i < |a| ==> Semantic(a[i]) == Semantic(b[i])
  {
    hide RecordFits, Semantic, SameKnown;
    forall i | 0 <= i < |a|
      ensures RecordFits(H, header, a, i) <==> RecordFits(H, header, b, i)
      ensures Semantic(a[i]) == Semantic(b[i]) && a[i].kind == b[i].kind
    {
      FitsOfKnown(H, header, a, b, i);
      KindOfKnown(a[i], b[i]);
    }
  }

  lemma KindOfKnown(r: Record, r': Record)
    requires SameKnown(r, r')
    ensures Semantic(r) == Semantic(r') && r.kind == r'.kind
  {
    ItemOfKnown(r.tlvs, r'.tlvs, SEMANTIC);
  }

  // ----- Stripping extension items -----

  // p keeps at least the known items.
  ghost predicate KeepsKnown(p: Tlv -> bool) { forall x: Tlv :: IsKnown(x) ==> p(x) }

  function Strip(r: Record, p: Tlv -> bool): Record { r.(tlvs := Keep(r.tlvs, p)) }

  lemma {:induction false} KeepOrdered(tlvs: seq<Tlv>, p: Tlv -> bool, last: nat)
    requires Ordered(tlvs, last)
    ensures Ordered(Keep(tlvs, p), last) && |EncodeTlvs(Keep(tlvs, p))| <= |EncodeTlvs(tlvs)|
    decreases |tlvs|
  {
    hide EncodeTlv, WellFormed;
    if tlvs != [] {
      var rest := Keep(tlvs[1..], p);
      KeepOrdered(tlvs[1..], p, tlvs[0].typ);
      if p(tlvs[0]) {
        assert ([tlvs[0]] + rest)[1..] == rest;
      } else {
        assert [] + rest == rest;
        OrderedLower(rest, tlvs[0].typ, last);
      }
    }
  }

  lemma OrderedLower(tlvs: seq<Tlv>, high: nat, low: nat)
    requires Ordered(tlvs, high) && low <= high
    ensures Ordered(tlvs, low)
  {}

  lemma StripPrintable(r: Record, p: Tlv -> bool)
    requires ValidRecord(r) && Admissible(r.tlvs)
    ensures ValidRecord(Strip(r, p)) && Admissible(Strip(r, p).tlvs)
  {
    KeepOrdered(r.tlvs, p, 0);
    var kept := Keep(r.tlvs, p);
    forall i | 0 <= i < |kept| ensures KnownType(kept[i].typ) || (!kept[i].flag && kept[i].typ >= EXTENSION) {
      KeepMembers(r.tlvs, p, kept[i]);
    }
    hide EncodeTlvs, Keep, Ordered, Admissible;
    FrameLengthMonotone(48, |EncodeTlvs(kept)|, |EncodeTlvs(r.tlvs)|);
  }

  lemma FrameLengthMonotone(header: nat, m: nat, n: nat)
    requires m <= n
    ensures FrameLength(header, m) <= FrameLength(header, n)
  {}

  ghost predicate IsStripped(r: Record, s: Record) { exists p :: KeepsKnown(p) && s == Strip(r, p) }

  ghost predicate StrippedFrom(a: seq<Record>, b: seq<Record>) {
    |a| == |b| && forall i :: 0 <= i < |a| ==> IsStripped(a[i], b[i])
  }

  // Leaving out any extension items of any records of an accepted trace and printing the rest
  // gives an accepted trace with the same digests.
  lemma StrippingPreservesAcceptance(H: Hash, data: seq<Byte>, e: Expected, stripped: seq<Record>)
    requires ParseTrace(H, data, e).Ok? && StrippedFrom(ParseTrace(H, data, e).value.records, stripped)
    ensures var t := ParseTrace(H, data, e).value;
            var printed := PrintTrace(H, Trace(t.header, stripped));
            && printed.Ok? && ParseTrace(H, printed.value, ANY) == Ok(Trace(t.header, stripped))
            && forall i :: 0 <= i < |stripped| ==> Semantic(stripped[i]) == Semantic(t.records[i])
  {
    hide ParseTrace, PrintTrace, Grammar, Semantic, ValidRecord, Admissible, EncodeHeader, ValidHeader, Meets,
      RecordsBytes, SemanticSeed;
    var t := ParseTrace(H, data, e).value;
    PrintParsedTrace(H, data, e);
    PrintableOf(H, t, data);
    forall i | 0 <= i < |stripped|
      ensures SameKnown(t.records[i], stripped[i]) && ValidRecord(stripped[i]) && Admissible(stripped[i].tlvs)
    {
      assert IsStripped(t.records[i], stripped[i]);
      var p :| KeepsKnown(p) && stripped[i] == Strip(t.records[i], p);
      StripPrintable(t.records[i], p);
      KeepOfKeep(t.records[i].tlvs, p, IsKnown);
    }
    GrammarIgnoresExtensions(H, t.header, t.records, stripped);
    SeedOfValid(H, t.header);
    PrintedIf(H, t, stripped, data);
    ParsePrintedTrace(H, Trace(t.header, stripped));
  }

  lemma PrintableOf(H: Hash, t: Trace, data: seq<Byte>)
    requires PrintTrace(H, t) == Ok(data)
    ensures Printable(t.records) && EncodeHeader(H, t.header).Ok?
  {}

  lemma SeedOfValid(H: Hash, h: Header)
    requires ValidHeader(H, h)
    ensures h.seed == SemanticSeed(H, h)
  {}

  lemma PrintedIf(H: Hash, t: Trace, records: seq<Record>, data: seq<Byte>)
    requires PrintTrace(H, t) == Ok(data) && Printable(records)
    ensures PrintTrace(H, Trace(t.header, records)).Ok?
  {}

  // ----- Exact counts -----

  function Concat(pieces: seq<seq<Byte>>): seq<Byte> {
    if pieces == [] then [] else pieces[0] + Concat(pieces[1..])
  }

  // Joins record pieces under a header that counts them.
  function BuildTrace(H: Hash, header: seq<Byte>, pieces: seq<seq<Byte>>): Result<seq<Byte>> {
    var h :- ParseHeader(H, header);
    :- Need(|pieces| <= MAX_RECORDS);
    var canonical :- EncodeHeader(H, h.(recordCount := |pieces|));
    Ok(canonical + Concat(pieces))
  }

  function Pieces(records: seq<Record>): seq<seq<Byte>> {
    seq(|records|, i requires 0 <= i < |records| => RecordBytes(records[i]))
  }

  lemma {:induction false} PiecesJoin(records: seq<Record>)
    ensures Concat(Pieces(records)) == RecordsBytes(records)
    decreases |records|
  {
    hide RecordBytes;
    if records != [] {
      PiecesJoin(records[1..]);
      assert Pieces(records)[1..] == Pieces(records[1..]);
    }
  }

  lemma RulesOfCount(H: Hash, header: Header, n: nat, r: Record)
    ensures InitialRule(header, r) <==> InitialRule(header.(recordCount := n), r)
    ensures BoundaryRule(header, r) <==> BoundaryRule(header.(recordCount := n), r)
    ensures EventRule(H, header, r) <==> EventRule(H, header.(recordCount := n), r)
  {
    hide Item, ItemOf, Present, ValidSelector, ValidEvent, EventDigest, Bit;
    assert ExpectedMask(header, r.flags) == ExpectedMask(header.(recordCount := n), r.flags);
    hide ExpectedMask;
  }

  lemma RuleOfCount(H: Hash, header: Header, n: nat, r: Record, previous: seq<Byte>, index: nat, final: Option<Final>)
    ensures RecordRule(H, header, r, previous, index, final) <==>
            RecordRule(H, header.(recordCount := n), r, previous, index, final)
  {
    hide HasItem, ItemOf, AllowedType, Preimage, InitialRule, BoundaryRule, EventRule, TerminalRule;
    RulesOfCount(H, header, n, r);
  }

  lemma GrammarOfCount(H: Hash, header: Header, records: seq<Record>)
    requires Grammar(H, header, records)
    ensures Grammar(H, header.(recordCount := |records|), records)
  {
    hide RecordRule, EventFits, FinalAt;
    forall i | 0 <= i < |records| ensures RecordFits(H, header.(recordCount := |records|), records, i) {
      assert RecordFits(H, header, records, i);
      RuleOfCount(H, header, |records|, records[i], PreviousAt(header, records, i), i, FinalAt(records, i));
    }
  }

  lemma CountBounded(H: Hash, header: Header, records: seq<Record>)
    requires Grammar(H, header, records)
    ensures 0 < |records| <= MAX_RECORDS
  {
    hide RecordRule, EventFits;
    assert RecordFits(H, header, records, |records| - 1);
  }

  lemma HeaderOfCount(H: Hash, h: Header, n: nat)
    requires ValidHeader(H, h) && n <= MAX_RECORDS
    ensures var g := h.(recordCount := n); ValidHeader(H, g) && EncodeHeader(H, g).Ok? && g.seed == SemanticSeed(H, g)
  {}

  lemma BuiltIsPrinted(H: Hash, header: seq<Byte>, t: Trace)
    requires ParseHeader(H, header) == Ok(t.header) && Printable(t.records) && |t.records| <= MAX_RECORDS
    requires EncodeHeader(H, t.header.(recordCount := |t.records|)).Ok?
    ensures BuildTrace(H, header, Pieces(t.records)) ==
            PrintTrace(H, Trace(t.header.(recordCount := |t.records|), t.records))
    ensures BuildTrace(H, header, Pieces(t.records)).Ok?
  {
    PiecesJoin(t.records);
    PiecesCount(t.records);
    hide ParseHeader, EncodeHeader, Printable, RecordsBytes, Pieces, Concat;
  }

  lemma HeaderParsed(H: Hash, data: seq<Byte>, e: Expected)
    requires ParseTrace(H, data, e).Ok?
    ensures |data| >= HEADER_SIZE && ParseHeader(H, data[..HEADER_SIZE]) == Ok(ParseTrace(H, data, e).value.header)
  {
    hide ParseHeader, ParseRecords, Accepted, Meets;
  }

  // Rebuilding an accepted trace from its pieces fixes the header's count and changes nothing else.
  lemma RebuildingPreservesRecords(H: Hash, data: seq<Byte>, e: Expected)
    requires ParseTrace(H, data, e).Ok?
    ensures |data| >= HEADER_SIZE
    ensures var t := ParseTrace(H, data, e).value;
            var exact := Trace(t.header.(recordCount := |t.records|), t.records);
            var built := BuildTrace(H, data[..HEADER_SIZE], Pieces(t.records));
            built.Ok? && ParseTrace(H, built.value, ANY) == Ok(exact)
  {
    hide ParseTrace, PrintTrace, BuildTrace, Grammar, ValidHeader, ParseHeader, EncodeHeader, SemanticSeed, Printable,
      Pieces, Meets;
    HeaderParsed(H, data, e);
    var t := ParseTrace(H, data, e).value;
    PrintParsedTrace(H, data, e);
    PrintableOf(H, t, data);
    GrammarOfCount(H, t.header, t.records);
    CountBounded(H, t.header, t.records);
    HeaderOfCount(H, t.header, |t.records|);
    BuiltIsPrinted(H, data[..HEADER_SIZE], t);
    ParsePrintedTrace(H, Trace(t.header.(recordCount := |t.records|), t.records));
  }

  lemma PiecesCount(records: seq<Record>)
    ensures |Pieces(records)| == |records|
  {}
}
