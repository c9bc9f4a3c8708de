/** The general trace grammar said again from the format: kinds, classes, item types and flags by number. */
module GeneralTraceReference {
  import opened Bytes
  import opened TlvFraming
  import opened GeneralTraceCodec
  import opened GeneralTraceRules
  import opened GeneralTraceParser
  import opened GeneralTraceBytes
  import opened GeneralTraceBytesReference
  import opened GeneralTracePayloads
  import GeneralTraceRebuild
  import GeneralTraceBuilders

  // ----- Items -----

  // In an ordered list the item of a type is its only member of that type, and must be required.
  lemma ItemIs(tlvs: seq<Tlv>, typ: nat, v: seq<Byte>)
    requires Ordered(tlvs, 0)
    ensures Item(tlvs, typ) == Some(v) <==> Tlv(typ, true, v) in tlvs
  {
    var found := Keep(tlvs, OfType(typ));
    forall x: Tlv
      ensures x in found <==> x in tlvs && x.typ == typ
    {
      GeneralTraceRebuild.KeepMembers(tlvs, OfType(typ), x);
    }
    AtMostOne(tlvs, typ, 0);
    hide Keep;
    if Tlv(typ, true, v) in tlvs {
      assert Tlv(typ, true, v) in found;
      assert found == [found[0]];
    }
  }

  lemma {:induction false} AtMostOne(tlvs: seq<Tlv>, typ: nat, last: nat)
    requires Ordered(tlvs, last)
    ensures |Keep(tlvs, OfType(typ))| <= 1
    decreases |tlvs|
  {
    if tlvs != [] {
      AtMostOne(tlvs[1..], typ, tlvs[0].typ);
      if tlvs[0].typ == typ {
        forall x | x in tlvs[1..]
          ensures !OfType(typ)(x)
        {
          var i :| 0 <= i < |tlvs[1..]| && tlvs[1..][i] == x;
          OrderedAbove(tlvs[1..], tlvs[0].typ, i);
        }
        GeneralTraceBuilders.KeepNone(tlvs[1..], OfType(typ));
      }
    }
  }

  // What the digest covers: items below 2000 but 102.
  function Covered(tlvs: seq<Tlv>): seq<Tlv>
    decreases |tlvs|
  {
    if tlvs == [] then []
    else if tlvs[0].typ < 2000 && tlvs[0].typ != 102 then [tlvs[0]] + Covered(tlvs[1..])
    else Covered(tlvs[1..])
  }

  lemma {:induction false} CoveredIs(tlvs: seq<Tlv>)
    ensures SemanticTlvs(tlvs) == Covered(tlvs)
    decreases |tlvs|
  {
    if tlvs != [] {
      CoveredIs(tlvs[1..]);
    }
  }

  // ----- Rules for one record -----

  predicate TypeReads(r: Record, typ: nat) {
    || typ in {100, 101, 102}
    || (r.kind == 1 && 1 <= typ <= 12 && Bit(r.selectorMask, typ - 1))
    || (r.kind == 2 && typ in {110, 111, 112})
    || (r.kind == 3 && typ in {120, 121, 122})
  }

  // The chain step: magic, previous digest, the logical fields, the covered items.
  function ChainInput(previous: seq<Byte>, r: Record): seq<Byte> {
    [67, 68, 82, 71, 82, 69, 67, 49, 0] + previous
    + (LE(r.kind, 2) + LE(r.flags, 2) + LE(r.boundary, 8) + LE(r.cycle, 8) + LE(r.selectorMask, 8) + LE(r.eventClass, 4))
    + EncodeTlvs(Covered(r.tlvs))
  }

  function EventInput(eventClass: nat, code: nat, payload: seq<Byte>): seq<Byte> {
    [67, 68, 82, 71, 69, 86, 69, 78, 84, 49, 0] + LE(eventClass, 4) + LE(code, 4) + payload
  }

  predicate InitialReads(header: Header, r: Record) {
    && r.flags == 0 && r.selectorMask == 0 && r.eventClass == 0 && r.boundary == header.firstBoundary && r.cycle == 0
    && Item(r.tlvs, 100) == Some(header.state)
  }

  // Bits 1 to 4 of the mask are cleared when the instruction was inhibited.
  predicate MaskReads(mask: nat, flags: nat, requested: nat) {
    mask == if flags % 2 == 1 then requested else requested % 2 + 32 * (requested / 32)
  }

  // Item t is there exactly when bit t - 1 is selected, and is what its schema says.
  predicate SelectedReads(r: Record, t: nat)
    requires t >= 1
  {
    && ((exists x :: x in r.tlvs && x.typ == t) <==> Bit(r.selectorMask, t - 1))
    && (Bit(r.selectorMask, t - 1) ==> Item(r.tlvs, t).Some? && SelectorReads(t, Item(r.tlvs, t).value))
  }

  // Executed or inhibited, with or without halt (4) and checkpoint (8).
  predicate BoundaryReads(header: Header, r: Record) {
    && r.flags in {1, 2, 5, 6, 9, 10, 13, 14} && r.eventClass == 0
    && MaskReads(r.selectorMask, r.flags, header.selectorMask)
    && forall t :: 1 <= t <= 12 ==> SelectedReads(r, t)
  }

  // Class 1, 2, 4, 8 or 16 asks for bit 0, 1, 2, 3 or 4 of the header's mask.
  predicate ClassReads(eventClass: nat, mask: nat) {
    || (eventClass == 1 && Bit(mask, 0)) || (eventClass == 2 && Bit(mask, 1)) || (eventClass == 4 && Bit(mask, 2))
    || (eventClass == 8 && Bit(mask, 3)) || (eventClass == 16 && Bit(mask, 4))
  }

  predicate EventReads(H: Hash, header: Header, r: Record) {
    && r.flags == 0 && r.selectorMask == 0 && ClassReads(r.eventClass, header.eventMask)
    && HasItem(r.tlvs, 110, 4) && Item(r.tlvs, 111).Some?
    && PayloadReads(r.eventClass, FromLE(ItemOf(r.tlvs, 110)), ItemOf(r.tlvs, 111))
    && HasItem(r.tlvs, 112, 32)
    && ItemOf(r.tlvs, 112) == H(EventInput(r.eventClass, FromLE(ItemOf(r.tlvs, 110)), ItemOf(r.tlvs, 111)))
  }

  // The reason is 0 only without and 1 only with the halt flag; 2 and 3 take either.
  predicate TerminalReads(r: Record, previous: seq<Byte>, index: nat, final: Option<Final>) {
    && r.flags == 0 && r.selectorMask == 0 && r.eventClass == 0 && final.Some? && r.boundary == final.value.boundary
    && HasItem(r.tlvs, 120, 8) && FromLE(ItemOf(r.tlvs, 120)) == index + 1
    && Item(r.tlvs, 100) == Some(final.value.state) && Item(r.tlvs, 122) == Some(final.value.state)
    && |final.value.state| == 32 && Item(r.tlvs, 102) == Some(previous)
    && HasItem(r.tlvs, 121, 4)
    && match FromLE(ItemOf(r.tlvs, 121)) {
         case 0 => final.value.flags / 4 % 2 == 0
         case 1 => final.value.flags / 4 % 2 == 1
         case n => n <= 3
       }
  }

  predicate RuleReads(H: Hash, header: Header, r: Record, previous: seq<Byte>, index: nat, final: Option<Final>) {
    && r.sequence == index
    && (forall x :: x in r.tlvs && x.typ < 2000 ==> TypeReads(r, x.typ))
    && HasItem(r.tlvs, 100, 32) && HasItem(r.tlvs, 101, 32) && HasItem(r.tlvs, 102, 32)
    && ItemOf(r.tlvs, 101) == previous
    && (r.kind != 3 ==> ItemOf(r.tlvs, 102) == H(ChainInput(previous, r)))
    && match r.kind {
         case 1 => BoundaryReads(header, r)
         case 2 => EventReads(H, header, r)
         case 3 => TerminalReads(r, previous, index, final)
         case 4 => InitialReads(header, r)
         case _ => false
       }
  }

  lemma ChainInputIs(previous: seq<Byte>, r: Record)
    ensures Preimage(previous, r) == ChainInput(previous, r)
  {
    hide LE, EncodeTlvs, SemanticTlvs, Covered;
    CoveredIs(r.tlvs);
    assert Ascii("CDRGREC1\0") == [67, 68, 82, 71, 82, 69, 67, 49, 0];
    EnvelopeJoined(r);
  }

  lemma EnvelopeJoined(r: Record)
    ensures Join(Envelope(r)) == LE(r.kind, 2) + LE(r.flags, 2) + LE(r.boundary, 8) + LE(r.cycle, 8)
                                 + LE(r.selectorMask, 8) + LE(r.eventClass, 4)
  {
    hide LE;
    var e := Envelope(r);
    JoinNext(e, 0);
    JoinNext(e, 1);
    JoinNext(e, 2);
    JoinNext(e, 3);
    JoinNext(e, 4);
    JoinNext(e, 5);
    assert e[0..] == e && e[6..] == [] && Join(e[6..]) == [];
  }

  lemma JoinNext(fields: seq<seq<Byte>>, i: nat)
    requires i < |fields|
    ensures Join(fields[i..]) == fields[i] + Join(fields[i + 1..])
  {
    assert fields[i..][1..] == fields[i + 1..];
  }

  lemma EventDigestIs(H: Hash, eventClass: nat, code: nat, payload: seq<Byte>)
    ensures EventDigest(H, eventClass, code, payload) == H(EventInput(eventClass, code, payload))
  {
    assert Ascii("CDRGEVENT1\0") == [67, 68, 82, 71, 69, 86, 69, 78, 84, 49, 0];
  }

  lemma ClassIs(eventClass: nat, mask: nat)
    ensures eventClass in {EVENT_CLOCK, EVENT_INTERRUPT, EVENT_DEVICE, EVENT_FAULT, EVENT_HALT} && mask / eventClass % 2 == 1
            <==> ClassReads(eventClass, mask)
  {
    hide Bit;
    LowBits(mask);
  }

  lemma HaltFlag(flags: nat)
    ensures Halting(flags) <==> flags / 4 % 2 == 1
    ensures Executed(flags) <==> flags % 2 == 1
  {
    hide Bit;
    LowBits(flags);
  }

  lemma BoundaryIs(header: Header, r: Record)
    ensures BoundaryRule(header, r) <==> BoundaryReads(header, r)
  {
    hide *;
    if BoundaryRule(header, r) {
      RuleReadsOn(header, r);
    }
    if BoundaryReads(header, r) {
      ReadsRuleOn(header, r);
    }
  }

  lemma RuleReadsOn(header: Header, r: Record)
    requires BoundaryRule(header, r)
    ensures BoundaryReads(header, r)
  {
    hide SelectedRule, Executed, SelectedReads;
    HaltFlag(r.flags);
    assert r.flags in {1, 2, 5, 6, 9, 10, 13, 14};
    forall t | 1 <= t <= 12
      ensures SelectedReads(r, t)
    {
      SelectedIs(header, r, t);
    }
  }

  lemma ReadsRuleOn(header: Header, r: Record)
    requires BoundaryReads(header, r)
    ensures BoundaryRule(header, r)
  {
    hide SelectedRule, Executed, SelectedReads;
    HaltFlag(r.flags);
    assert r.flags < 16 && r.flags % 4 in {1, 2};
    forall bit | 0 <= bit < 12
      ensures SelectedRule(r, bit)
    {
      SelectedBack(header, r, bit);
    }
  }

  lemma SelectedBack(header: Header, r: Record, bit: nat)
    requires BoundaryReads(header, r) && bit < 12
    ensures SelectedRule(r, bit)
  {
    hide Item, ValidSelector, SelectorReads, Bit;
    assert SelectedReads(r, bit + 1);
    if Present(r.tlvs, bit + 1) {
      SelectorIs(bit + 1, Item(r.tlvs, bit + 1).value);
    }
  }

  lemma SelectedIs(header: Header, r: Record, t: nat)
    requires BoundaryRule(header, r) && 1 <= t <= 12
    ensures SelectedReads(r, t)
  {
    hide Item, ValidSelector, SelectorReads, Bit, Executed, Halting;
    var bit := t - 1;
    assert SelectedRule(r, bit);
    if Present(r.tlvs, t) {
      SelectorIs(t, Item(r.tlvs, t).value);
    }
  }

  lemma EventIs(H: Hash, header: Header, r: Record)
    ensures EventRule(H, header, r) <==> EventReads(H, header, r)
  {
    ClassIs(r.eventClass, header.eventMask);
    var code, payload := FromLE(ItemOf(r.tlvs, 110)), ItemOf(r.tlvs, 111);
    PayloadIs(r.eventClass, code, payload);
    EventDigestIs(H, r.eventClass, code, payload);
    hide Item, FromLE, ValidEvent, PayloadReads, EventDigest, EventInput, ClassReads;
  }

  lemma TerminalIs(r: Record, previous: seq<Byte>, index: nat, final: Option<Final>)
    ensures TerminalRule(r, previous, index, final) <==> TerminalReads(r, previous, index, final)
  {
    if final.Some? {
      HaltFlag(final.value.flags);
    }
    hide Item, FromLE, Halting;
  }

  // The rule for one record is this one.
  lemma RuleIs(H: Hash, header: Header, r: Record, previous: seq<Byte>, index: nat, final: Option<Final>)
    ensures RecordRule(H, header, r, previous, index, final) <==> RuleReads(H, header, r, previous, index, final)
  {
    hide Item, ItemOf, HasItem, BoundaryRule, BoundaryReads, EventRule, EventReads, TerminalRule, TerminalReads, Preimage,
      ChainInput, Bit;
    ChainInputIs(previous, r);
    BoundaryIs(header, r);
    EventIs(H, header, r);
    TerminalIs(r, previous, index, final);
  }

  // ----- Order -----

  // Events of a slot: all but host observations, which are device events with a code other than 5.
  predicate InSlot(r: Record) { r.eventClass != 4 || FromLE(ItemOf(r.tlvs, 110)) == 5 }

  // The latest record of kind 1 before position i, or -1.
  function Latest(records: seq<Record>, i: nat): (b: int)
    requires i <= |records|
    ensures -1 <= b < i
  {
    if i == 0 then -1 else if records[i - 1].kind == 1 then i - 1 else Latest(records, i - 1)
  }

  predicate HaltedReads(records: seq<Record>, i: nat)
    requires i <= |records|
  {
    Latest(records, i) >= 0 && records[Latest(records, i)].flags / 4 % 2 == 1
  }

  // Slot events follow their boundary in the order of their classes, all before any host observation; the
  // event of class 16 is exactly what a halted boundary is followed by.
  ghost predicate PlacedReads(records: seq<Record>, i: nat)
    requires i < |records|
  {
    var b, r := Latest(records, i), records[i];
    && b >= 0 && r.boundary == records[b].boundary
    && (InSlot(r) ==> forall j :: b < j < i ==> InSlot(records[j]) && records[j].eventClass < r.eventClass)
    && (r.eventClass == 16 <==> HaltedReads(records, i))
  }

  // Kind 4 opens, kind 3 ends; boundaries count on from the header's.
  ghost predicate OrderReads(header: Header, records: seq<Record>, i: nat)
    requires i < |records|
  {
    var r := records[i];
    && i < 1_000_000 && (r.kind == 4 <==> i == 0)
    && (forall j :: 0 <= j < i ==> records[j].kind != 3)
    && (i > 0 ==> records[i - 1].cycle <= r.cycle)
    && (r.kind == 1 ==>
          && r.boundary == header.firstBoundary + 1 + |set j | 0 <= j < i && records[j].kind == 1|
          && !HaltedReads(records, i))
    && (r.kind == 2 ==> PlacedReads(records, i))
    && (r.kind == 3 ==> i > 0 && r.cycle == records[i - 1].cycle)
  }

  // Digest, boundary, state and flags a record finds behind it.
  function DigestBefore(header: Header, records: seq<Record>, i: nat): seq<Byte>
    requires i <= |records|
  {
    if i == 0 then header.seed else ItemOf(records[i - 1].tlvs, 102)
  }

  function FinalBefore(records: seq<Record>, i: nat): Option<Final>
    requires i <= |records|
  {
    if i == 0 then None else
    Some(Final(records[i - 1].boundary, ItemOf(records[i - 1].tlvs, 100),
               if Latest(records, i) < 0 then 0 else records[Latest(records, i)].flags))
  }

  ghost predicate FitsReads(H: Hash, header: Header, records: seq<Record>, i: nat)
    requires i < |records|
  {
    && OrderReads(header, records, i)
    && RuleReads(H, header, records[i], DigestBefore(header, records, i), i, FinalBefore(records, i))
  }

  ghost predicate TraceReads(H: Hash, header: Header, records: seq<Record>) {
    && records != [] && records[|records| - 1].kind == 3
    && (forall i :: 0 <= i < |records| ==> FitsReads(H, header, records, i))
    && (header.recordCount == 18_446_744_073_709_551_615 || header.recordCount == |records|)
  }

  lemma {:induction false} LatestIs(records: seq<Record>, i: nat)
    requires i <= |records|
    ensures LastBoundary(records, i) == Latest(records, i)
    ensures FinalAt(records, i) == FinalBefore(records, i) && (HaltedAt(records, i) <==> HaltedReads(records, i))
    decreases i
  {
    if i > 0 {
      LatestIs(records, i - 1);
    }
    hide ItemOf, Halting;
    if Latest(records, i) >= 0 {
      HaltFlag(records[Latest(records, i)].flags);
    }
  }

  lemma {:induction false} CountIs(records: seq<Record>, i: nat)
    requires i <= |records|
    ensures BoundaryCount(records, i) == |set j | 0 <= j < i && records[j].kind == 1|
    decreases i
  {
    if i > 0 {
      CountIs(records, i - 1);
      var before, now := set j | 0 <= j < i - 1 && records[j].kind == 1, set j | 0 <= j < i && records[j].kind == 1;
      assert now == before + if records[i - 1].kind == 1 then {i - 1} else {};
    }
  }

  // Positions in a slot rise with the class numbers.
  lemma PositionIs(r: Record)
    requires r.eventClass in {1, 2, 4, 8, 16}
    ensures SlotPosition(r).Some? <==> InSlot(r)
  {}

  lemma PositionsRise(r: Record, s: Record)
    requires r.eventClass in {1, 2, 4, 8, 16} && s.eventClass in {1, 2, 4, 8, 16} && InSlot(r) && InSlot(s)
    ensures SlotPosition(r).value < SlotPosition(s).value <==> r.eventClass < s.eventClass
  {}

  lemma PlacedIs(records: seq<Record>, i: nat)
    requires i < |records| && records[i].eventClass in {1, 2, 4, 8, 16}
    requires forall j :: Latest(records, i) < j < i ==> records[j].eventClass in {1, 2, 4, 8, 16}
    ensures EventFits(records, i) <==> PlacedReads(records, i)
  {
    LatestIs(records, i);
    var b, r := Latest(records, i), records[i];
    PositionIs(r);
    forall j | b < j < i
      ensures SlotPosition(records[j]).Some? <==> InSlot(records[j])
      ensures InSlot(r) && InSlot(records[j]) ==>
                (SlotPosition(records[j]).value < SlotPosition(r).value <==> records[j].eventClass < r.eventClass)
    {
      PositionIs(records[j]);
      if InSlot(r) && InSlot(records[j]) {
        PositionsRise(records[j], r);
      }
    }
    hide SlotPosition, InSlot, HaltedAt, HaltedReads, LastBoundary, Latest;
  }

  lemma EventClasses(H: Hash, header: Header, r: Record, previous: seq<Byte>, index: nat, final: Option<Final>)
    requires RuleReads(H, header, r, previous, index, final)
    ensures r.kind in {1, 2, 3, 4} && (r.kind == 2 ==> r.eventClass in {1, 2, 4, 8, 16})
  {
    hide Item, HasItem, ItemOf, PayloadReads, ChainInput, EventInput, FromLE, BoundaryReads, TerminalReads, InitialReads;
  }

  lemma BetweenAreEvents(H: Hash, header: Header, records: seq<Record>, i: nat, j: nat)
    requires i < |records| && 0 <= Latest(records, i) < j < i
    requires forall k :: 0 <= k < i ==> records[k].kind != 3 && (records[k].kind == 4 <==> k == 0)
    requires RuleReads(H, header, records[j], DigestBefore(header, records, j), j, FinalBefore(records, j))
    ensures records[j].kind == 2 && records[j].eventClass in {1, 2, 4, 8, 16}
  {
    hide RuleReads, DigestBefore, FinalBefore;
    EventClasses(H, header, records[j], DigestBefore(header, records, j), j, FinalBefore(records, j));
    LatestIs(records, i);
    NoneAfterLatest(records, i, j);
  }

  lemma {:induction false} NoneAfterLatest(records: seq<Record>, i: nat, j: nat)
    requires i <= |records| && Latest(records, i) < j < i
    ensures records[j].kind != 1
    decreases i
  {
    if j < i - 1 {
      NoneAfterLatest(records, i - 1, j);
    }
  }

  lemma KindsAre()
    ensures KIND_BOUNDARY == 1 && KIND_EVENT == 2 && KIND_TERMINAL == 3 && KIND_INITIAL == 4 && MAX_RECORDS == 1_000_000
  {}

  lemma BehindIs(header: Header, records: seq<Record>, i: nat)
    requires i <= |records|
    ensures PreviousAt(header, records, i) == DigestBefore(header, records, i) && FinalAt(records, i) == FinalBefore(records, i)
    ensures LastBoundary(records, i) == Latest(records, i) && (HaltedAt(records, i) <==> HaltedReads(records, i))
    ensures BoundaryCount(records, i) == |set j | 0 <= j < i && records[j].kind == 1|
  {
    LatestIs(records, i);
    CountIs(records, i);
  }

  // Given that the records before it fit, a record fits the one grammar exactly when it fits the other.
  lemma FitsIs(H: Hash, header: Header, records: seq<Record>, i: nat)
    requires i < |records| && forall j :: 0 <= j < i ==> FitsReads(H, header, records, j)
    ensures RecordFits(H, header, records, i) <==> FitsReads(H, header, records, i)
  {
    hide EventFits, PlacedReads, RecordRule, RuleReads, HaltedAt, HaltedReads, LastBoundary, Latest, BoundaryCount, FinalAt,
      FinalBefore, PreviousAt, DigestBefore;
    KindsAre();
    BehindIs(header, records, i);
    RuleIs(H, header, records[i], DigestBefore(header, records, i), i, FinalBefore(records, i));
    if RuleReads(H, header, records[i], DigestBefore(header, records, i), i, FinalBefore(records, i)) {
      EventClasses(H, header, records[i], DigestBefore(header, records, i), i, FinalBefore(records, i));
      if records[i].kind == 2 && forall j :: 0 <= j < i ==> records[j].kind != 3 {
        if Latest(records, i) >= 0 {
          forall k | 0 <= k < i
            ensures records[k].kind == 4 <==> k == 0
          {
            assert FitsReads(H, header, records, k);
          }
          forall j | Latest(records, i) < j < i
            ensures records[j].eventClass in {1, 2, 4, 8, 16}
          {
            assert FitsReads(H, header, records, j);
            BetweenAreEvents(H, header, records, i, j);
          }
          PlacedIs(records, i);
        } else {
          NoBoundaryNoEvent(records, i);
        }
      }
    }
  }

  lemma NoBoundaryNoEvent(records: seq<Record>, i: nat)
    requires i < |records| && Latest(records, i) < 0
    ensures !EventFits(records, i) && !PlacedReads(records, i)
  {
    LatestIs(records, i);
    hide Latest, LastBoundary, HaltedAt, HaltedReads, SlotPosition, InSlot;
  }

  lemma {:induction false} FitAlike(H: Hash, header: Header, records: seq<Record>, n: nat)
    requires n <= |records|
    ensures (forall i :: 0 <= i < n ==> RecordFits(H, header, records, i)) <==>
              forall i :: 0 <= i < n ==> FitsReads(H, header, records, i)
    decreases n
  {
    hide RecordFits, FitsReads;
    if n > 0 {
      FitAlike(H, header, records, n - 1);
      if forall i :: 0 <= i < n - 1 ==> FitsReads(H, header, records, i) {
        FitsIs(H, header, records, n - 1);
      }
    }
  }

  // The grammar is this one.
  lemma GrammarIs(H: Hash, header: Header, records: seq<Record>)
    ensures Grammar(H, header, records) <==> TraceReads(H, header, records)
  {
    hide RecordFits, FitsReads;
    FitAlike(H, header, records, |records|);
  }

  // In an accepted trace the slot events after one boundary are in the order of their classes.
  lemma SlotEventsInOrder(H: Hash, header: Header, records: seq<Record>, i: nat, j: nat)
    requires Accepted(H, header, records) && i < j < |records| && records[i].kind == 2 && records[j].kind == 2
    requires Latest(records, i) == Latest(records, j) && InSlot(records[i]) && InSlot(records[j])
    ensures records[i].eventClass < records[j].eventClass
  {
    hide Run, RuleReads, Finished, HaltedReads, InSlot, Accepted;
    ParserDecidesGrammar(H, header, records);
    GrammarIs(H, header, records);
    assert FitsReads(H, header, records, j);
  }

  // What the caller insists on, if anything.
  predicate Insisted(h: Header, e: Expected) {
    && (e.profile.Some? ==> e.profile.value == h.profile) && (e.artifacts.Some? ==> e.artifacts.value == h.artifacts)
    && (e.state.Some? ==> e.state.value == h.state) && (e.schedule.Some? ==> e.schedule.value == h.schedule)
  }

  lemma MeetsIs(h: Header, e: Expected)
    ensures Meets(h, e) <==> Insisted(h, e)
  {}

  // Whole files: a header, then records that meet the grammar.
  lemma FileIs(H: Hash, data: seq<Byte>, e: Expected)
    ensures ParseTrace(H, data, e).Ok? <==>
              && |data| >= 256 && HeaderReads(H, data[..256]) && Insisted(HeaderOf(data[..256]), e)
              && ParseRecords(data[256..]).Ok? && TraceReads(H, HeaderOf(data[..256]), ParseRecords(data[256..]).value)
  {
    hide HeaderReads, ParseHeader, HeaderOf, Meets, Insisted, ParseRecords, Accepted, Grammar, TraceReads;
    if |data| >= 256 {
      HeaderIs(H, data[..256]);
      MeetsIs(HeaderOf(data[..256]), e);
      if ParseHeader(H, data[..256]).Ok? && ParseRecords(data[256..]).Ok? {
        ParserDecidesGrammar(H, HeaderOf(data[..256]), ParseRecords(data[256..]).value);
        GrammarIs(H, HeaderOf(data[..256]), ParseRecords(data[256..]).value);
      }
    }
  }
}
