/** The record builders of general traces: what they make passes the parser. */
module GeneralTraceBuilders {
  import opened Bytes
  import opened TlvFraming
  import opened GeneralTraceCodec
  import opened GeneralTraceRules
  import opened GeneralTraceParser
  import opened GeneralTraceBytes
  import opened GeneralTraceRebuild

  // The selected values with a bit in mask, in order, from bit on.
  function Selected(mask: nat, selectors: seq<seq<Byte>>, bit: nat): seq<Tlv>
    requires bit <= 12 && |selectors| == 12
    decreases 12 - bit
  {
    if bit == 12 then [] else
    (if Bit(mask, bit) then [Tlv(bit + 1, true, selectors[bit])] else []) + Selected(mask, selectors, bit + 1)
  }

  function BoundaryRecord(H: Hash, previous: Digest, state: Digest, flags: nat, sequence: nat, boundary: nat, cycle: nat,
                          mask: nat, selectors: seq<seq<Byte>>): Record
    requires |selectors| == 12
  {
    var provisional := Selected(mask, selectors, 0) + [Tlv(STATE, true, state), Tlv(PREVIOUS, true, previous)];
    var r := Record(KIND_BOUNDARY, flags, sequence, boundary, cycle, mask, 0, provisional);
    r.(tlvs := provisional + [Tlv(SEMANTIC, true, RecordSemantic(H, previous, r))])
  }

  function InitialRecord(H: Hash, previous: Digest, state: seq<Byte>, boundary: nat): Record {
    var provisional := [Tlv(STATE, true, state), Tlv(PREVIOUS, true, previous)];
    var r := Record(KIND_INITIAL, 0, 0, boundary, 0, 0, 0, provisional);
    r.(tlvs := provisional + [Tlv(SEMANTIC, true, RecordSemantic(H, previous, r))])
  }

  function EventRecord(H: Hash, previous: Digest, state: Digest, sequence: nat, boundary: nat, cycle: nat,
                       eventClass: nat, code: nat, payload: seq<Byte>): Record {
    var head := [Tlv(STATE, true, state), Tlv(PREVIOUS, true, previous)];
    var tail := [Tlv(EVENT_CODE, true, LE(code, 4)), Tlv(EVENT_BYTES, true, payload),
                 Tlv(EVENT_DIGEST, true, EventDigest(H, eventClass, code, payload))];
    var r := Record(KIND_EVENT, 0, sequence, boundary, cycle, 0, eventClass, head + tail);
    r.(tlvs := head + [Tlv(SEMANTIC, true, RecordSemantic(H, previous, r))] + tail)
  }

  function TerminalRecord(accumulated: Digest, finalState: seq<Byte>, sequence: nat, boundary: nat, cycle: nat,
                          recordCount: nat, reason: nat): Record {
    Record(KIND_TERMINAL, 0, sequence, boundary, cycle, 0, 0,
           [Tlv(STATE, true, finalState), Tlv(PREVIOUS, true, accumulated), Tlv(SEMANTIC, true, accumulated),
            Tlv(FINAL_COUNT, true, LE(recordCount, 8)), Tlv(REASON, true, LE(reason, 4)), Tlv(FINAL_STATE, true, finalState)])
  }

  // ----- Looking into a concatenation -----

  lemma {:induction false} KeepConcat(a: seq<Tlv>, b: seq<Tlv>, p: Tlv -> bool)
    ensures Keep(a + b, p) == Keep(a, p) + Keep(b, p)
    decreases |a|
  {
    if a == [] {
      assert a + b == b && Keep(a, p) == [] && [] + Keep(b, p) == Keep(b, p);
    } else {
      assert (a + b)[1..] == a[1..] + b && (a + b)[0] == a[0];
      KeepConcat(a[1..], b, p);
      var head, rest, tail := if p(a[0]) then [a[0]] else [], Keep(a[1..], p), Keep(b, p);
      assert head + (rest + tail) == (head + rest) + tail;
    }
  }

  lemma {:induction false} KeepAll(a: seq<Tlv>, p: Tlv -> bool)
    requires forall x :: x in a ==> p(x)
    ensures Keep(a, p) == a
    decreases |a|
  {
    if a != [] {
      KeepAll(a[1..], p);
    }
  }

  lemma {:induction false} KeepNone(a: seq<Tlv>, p: Tlv -> bool)
    requires forall x :: x in a ==> !p(x)
    ensures Keep(a, p) == []
    decreases |a|
  {
    if a != [] {
      KeepNone(a[1..], p);
    }
  }

  // The only item of its type, wherever it stands.
  lemma ItemAt(a: seq<Tlv>, x: Tlv, b: seq<Tlv>)
    requires x.flag
    requires forall y :: y in a ==> y.typ != x.typ
    requires forall y :: y in b ==> y.typ != x.typ
    ensures Item(a + [x] + b, x.typ) == Some(x.value)
  {
    var p := OfType(x.typ);
    KeepConcat(a + [x], b, p);
    KeepConcat(a, [x], p);
    KeepNone(a, p);
    KeepNone(b, p);
    KeepAll([x], p);
  }

  ghost predicate Increasing(t: seq<Tlv>) {
    forall i, j :: 0 <= i < j < |t| ==> t[i].typ < t[j].typ
  }

  lemma IncreasingItem(t: seq<Tlv>, k: nat)
    requires Increasing(t) && k < |t| && t[k].flag
    ensures Item(t, t[k].typ) == Some(t[k].value)
  {
    assert t == t[..k] + [t[k]] + t[k + 1..];
    ItemAt(t[..k], t[k], t[k + 1..]);
  }

  // The digest item is left out of what the digest covers.
  lemma DigestLeftOut(digest: Tlv)
    requires digest.typ == SEMANTIC
    ensures Keep([digest], InDigest) == []
  {}

  lemma SemanticTlvsAround(a: seq<Tlv>, digest: Tlv, b: seq<Tlv>)
    requires digest.typ == SEMANTIC
    requires forall x :: x in a ==> InDigest(x)
    requires forall x :: x in b ==> InDigest(x)
    ensures SemanticTlvs(a + [digest] + b) == a + b == SemanticTlvs(a + b)
  {
    hide Keep, InDigest;
    DigestLeftOut(digest);
    KeepAll(a, InDigest);
    KeepAll(b, InDigest);
    KeepConcat(a + [digest], b, InDigest);
    KeepConcat(a, [digest], InDigest);
    KeepConcat(a, b, InDigest);
    assert a + [] == a;
  }

  lemma PreimageIgnoresDigest(previous: seq<Byte>, r: Record, s: Record)
    requires s == r.(tlvs := s.tlvs) && SemanticTlvs(s.tlvs) == SemanticTlvs(r.tlvs)
    ensures Preimage(previous, s) == Preimage(previous, r)
  {
    assert Envelope(s) == Envelope(r);
  }

  // ----- Builder-made records satisfy their rule -----

  lemma {:induction false} SelectedTypes(mask: nat, selectors: seq<seq<Byte>>, bit: nat, x: Tlv)
    requires bit <= 12 && |selectors| == 12
    ensures x in Selected(mask, selectors, bit) <==>
            bit < x.typ <= 12 && Bit(mask, x.typ - 1) && x == Tlv(x.typ, true, selectors[x.typ - 1])
    decreases 12 - bit
  {
    hide Bit;
    if bit < 12 {
      SelectedTypes(mask, selectors, bit + 1, x);
    }
  }

  lemma {:induction false} SelectedItem(mask: nat, selectors: seq<seq<Byte>>, from: nat, typ: nat)
    requires from <= 12 && |selectors| == 12 && from < typ <= 12
    ensures Keep(Selected(mask, selectors, from), OfType(typ)) ==
            if Bit(mask, typ - 1) then [Tlv(typ, true, selectors[typ - 1])] else []
    decreases 12 - from
  {
    hide Bit;
    var p := OfType(typ);
    var head := if Bit(mask, from) then [Tlv(from + 1, true, selectors[from])] else [];
    var rest := Selected(mask, selectors, from + 1);
    KeepConcat(head, rest, p);
    if typ == from + 1 {
      KeepAll(head, p);
      forall x | x in rest ensures !p(x) { SelectedTypes(mask, selectors, from + 1, x); }
      KeepNone(rest, p);
    } else {
      KeepNone(head, p);
      SelectedItem(mask, selectors, from + 1, typ);
    }
  }

  lemma RuleFromParts(H: Hash, header: Header, r: Record, previous: Digest, index: nat, final: Option<Final>)
    requires r.sequence == index && r.kind in {KIND_BOUNDARY, KIND_EVENT, KIND_TERMINAL, KIND_INITIAL}
    requires forall x :: x in r.tlvs ==> AllowedType(r, x.typ)
    requires Item(r.tlvs, STATE).Some? && |Item(r.tlvs, STATE).value| == 32 && Item(r.tlvs, PREVIOUS) == Some(previous)
    requires r.kind != KIND_TERMINAL ==> Item(r.tlvs, SEMANTIC) == Some(RecordSemantic(H, previous, r))
    requires r.kind == KIND_TERMINAL ==> Item(r.tlvs, SEMANTIC) == Some(previous)
    requires r.kind == KIND_INITIAL ==> InitialRule(header, r)
    requires r.kind == KIND_BOUNDARY ==> BoundaryRule(header, r)
    requires r.kind == KIND_EVENT ==> EventRule(H, header, r)
    requires r.kind == KIND_TERMINAL ==> TerminalRule(r, previous, index, final)
    ensures RecordRule(H, header, r, previous, index, final)
  {
    hide Item, AllowedType, RecordSemantic, InitialRule, BoundaryRule, EventRule, TerminalRule;
  }

  lemma InitialRecordRule(H: Hash, header: Header, previous: Digest, final: Option<Final>)
    requires |header.state| == 32
    ensures RecordRule(H, header, InitialRecord(H, previous, header.state, header.firstBoundary), previous, 0, final)
  {
    hide Keep, Item, Preimage, RecordRule;
    var r := InitialRecord(H, previous, header.state, header.firstBoundary);
    var s, p := Tlv(STATE, true, header.state), Tlv(PREVIOUS, true, previous);
    var d := r.tlvs[2];
    ItemAt([], s, [p, d]);
    ItemAt([s], p, [d]);
    ItemAt([s, p], d, []);
    assert r.tlvs == [] + [s] + [p, d] == [s] + [p] + [d] == [s, p] + [d] + [];
    SemanticTlvsAround([s, p], d, []);
    assert [s, p] + [] == [s, p];
    PreimageIgnoresDigest(previous, r.(tlvs := [s, p]), r);
    RuleFromParts(H, header, r, previous, 0, final);
  }

  lemma TerminalRecordItems(previous: Digest, state: seq<Byte>, index: nat, boundary: nat, cycle: nat, count: nat, reason: nat)
    ensures var t := TerminalRecord(previous, state, index, boundary, cycle, count, reason).tlvs;
            && Item(t, STATE) == Some(state) && Item(t, PREVIOUS) == Some(previous) && Item(t, SEMANTIC) == Some(previous)
            && Item(t, FINAL_COUNT) == Some(LE(count, 8)) && Item(t, REASON) == Some(LE(reason, 4))
            && Item(t, FINAL_STATE) == Some(state)
            && forall x :: x in t ==> x.typ in {STATE, PREVIOUS, SEMANTIC, FINAL_COUNT, REASON, FINAL_STATE}
  {
    var t := TerminalRecord(previous, state, index, boundary, cycle, count, reason).tlvs;
    hide Item, LE;
    IncreasingItem(t, 0);
    IncreasingItem(t, 1);
    IncreasingItem(t, 2);
    IncreasingItem(t, 3);
    IncreasingItem(t, 4);
    IncreasingItem(t, 5);
  }

  lemma TerminalRecordMeets(previous: Digest, index: nat, cycle: nat, reason: nat, f: Final)
    requires |f.state| == 32 && index + 1 < U64 && reason <= 3
    requires reason == COMPLETE_HALT ==> Halting(f.flags)
    requires reason == COMPLETE_LIMIT ==> !Halting(f.flags)
    ensures var r := TerminalRecord(previous, f.state, index, f.boundary, cycle, index + 1, reason);
            && r == Record(KIND_TERMINAL, 0, index, f.boundary, cycle, 0, 0, r.tlvs)
            && TerminalRule(r, previous, index, Some(f))
            && Item(r.tlvs, STATE) == Some(f.state) && Item(r.tlvs, PREVIOUS) == Some(previous)
            && Item(r.tlvs, SEMANTIC) == Some(previous)
            && (forall x :: x in r.tlvs ==> AllowedType(r, x.typ))
  {
    hide Keep, Item, FromLE, LE, Bit, Pow256;
    Pow256Values();
    FromLEOfLE(index + 1, 8);
    FromLEOfLE(reason, 4);
    TerminalRecordItems(previous, f.state, index, f.boundary, cycle, index + 1, reason);
  }

  lemma TerminalRecordRule(H: Hash, header: Header, previous: Digest, index: nat, cycle: nat, reason: nat, f: Final)
    requires |f.state| == 32 && index + 1 < U64 && reason <= 3
    requires reason == COMPLETE_HALT ==> Halting(f.flags)
    requires reason == COMPLETE_LIMIT ==> !Halting(f.flags)
    ensures RecordRule(H, header, TerminalRecord(previous, f.state, index, f.boundary, cycle, index + 1, reason),
                       previous, index, Some(f))
  {
    hide Item, AllowedType, TerminalRecord, RecordSemantic, TerminalRule, RecordRule;
    TerminalRecordMeets(previous, index, cycle, reason, f);
    RuleFromParts(H, header, TerminalRecord(previous, f.state, index, f.boundary, cycle, index + 1, reason), previous, index, Some(f));
  }

  // A record whose digest item stands between head and tail carries the digest of the rest.
  lemma DigestOfRest(H: Hash, previous: Digest, r: Record, head: seq<Tlv>, tail: seq<Tlv>, digest: Tlv)
    requires forall x :: x in head ==> InDigest(x)
    requires forall x :: x in tail ==> InDigest(x)
    requires digest == Tlv(SEMANTIC, true, RecordSemantic(H, previous, r.(tlvs := head + tail)))
    requires r.tlvs == head + [digest] + tail
    ensures digest.value == RecordSemantic(H, previous, r)
  {
    SemanticTlvsAround(head, digest, tail);
    PreimageIgnoresDigest(previous, r.(tlvs := head + tail), r);
  }

  lemma EventRecordItems(H: Hash, previous: Digest, state: Digest, index: nat, boundary: nat, cycle: nat,
                         eventClass: nat, code: nat, payload: seq<Byte>)
    ensures var r := EventRecord(H, previous, state, index, boundary, cycle, eventClass, code, payload);
            var t := r.tlvs;
            && Item(t, STATE) == Some(state) && Item(t, PREVIOUS) == Some(previous)
            && Item(t, SEMANTIC) == Some(RecordSemantic(H, previous, r))
            && Item(t, EVENT_CODE) == Some(LE(code, 4)) && Item(t, EVENT_BYTES) == Some(payload)
            && Item(t, EVENT_DIGEST) == Some(EventDigest(H, eventClass, code, payload))
            && forall x :: x in t ==> x.typ in {STATE, PREVIOUS, SEMANTIC, EVENT_CODE, EVENT_BYTES, EVENT_DIGEST}
  {
    var r := EventRecord(H, previous, state, index, boundary, cycle, eventClass, code, payload);
    var t := r.tlvs;
    hide Item, LE, EventDigest, RecordSemantic, SemanticTlvs;
    IncreasingItem(t, 0);
    IncreasingItem(t, 1);
    IncreasingItem(t, 2);
    IncreasingItem(t, 3);
    IncreasingItem(t, 4);
    IncreasingItem(t, 5);
    var head := [Tlv(STATE, true, state), Tlv(PREVIOUS, true, previous)];
    var tail := [Tlv(EVENT_CODE, true, LE(code, 4)), Tlv(EVENT_BYTES, true, payload),
                 Tlv(EVENT_DIGEST, true, EventDigest(H, eventClass, code, payload))];
    assert t == head + [t[2]] + tail;
    assert t[2] == Tlv(SEMANTIC, true, RecordSemantic(H, previous, r.(tlvs := head + tail)));
    DigestOfRest(H, previous, r, head, tail, t[2]);
  }

  lemma EventRecordMeets(H: Hash, header: Header, previous: Digest, state: Digest, index: nat, boundary: nat, cycle: nat,
                         eventClass: nat, code: nat, payload: seq<Byte>)
    requires eventClass in {EVENT_CLOCK, EVENT_INTERRUPT, EVENT_DEVICE, EVENT_FAULT, EVENT_HALT}
    requires header.eventMask / eventClass % 2 == 1 && code < U32 && ValidEvent(eventClass, code, payload)
    ensures var r := EventRecord(H, previous, state, index, boundary, cycle, eventClass, code, payload);
            && r == Record(KIND_EVENT, 0, index, boundary, cycle, 0, eventClass, r.tlvs)
            && EventRule(H, header, r)
            && Item(r.tlvs, STATE) == Some(state) && Item(r.tlvs, PREVIOUS) == Some(previous)
            && Item(r.tlvs, SEMANTIC) == Some(RecordSemantic(H, previous, r))
            && (forall x :: x in r.tlvs ==> AllowedType(r, x.typ))
  {
    hide Item, FromLE, LE, Bit, Pow256, RecordSemantic, ValidEvent, EventDigest, EventRecord;
    Pow256Values();
    FromLEOfLE(code, 4);
    EventRecordItems(H, previous, state, index, boundary, cycle, eventClass, code, payload);
    EventRecordFields(H, previous, state, index, boundary, cycle, eventClass, code, payload);
  }

  lemma EventRecordRule(H: Hash, header: Header, previous: Digest, state: Digest, index: nat, boundary: nat, cycle: nat,
                        eventClass: nat, code: nat, payload: seq<Byte>, final: Option<Final>)
    requires eventClass in {EVENT_CLOCK, EVENT_INTERRUPT, EVENT_DEVICE, EVENT_FAULT, EVENT_HALT}
    requires header.eventMask / eventClass % 2 == 1 && code < U32 && ValidEvent(eventClass, code, payload)
    ensures RecordRule(H, header, EventRecord(H, previous, state, index, boundary, cycle, eventClass, code, payload),
                       previous, index, final)
  {
    hide Item, AllowedType, RecordSemantic, EventRecord, ValidEvent, EventRule, RecordRule;
    EventRecordMeets(H, header, previous, state, index, boundary, cycle, eventClass, code, payload);
    RuleFromParts(H, header, EventRecord(H, previous, state, index, boundary, cycle, eventClass, code, payload), previous, index, final);
  }

  lemma EventRecordFields(H: Hash, previous: Digest, state: Digest, index: nat, boundary: nat, cycle: nat,
                          eventClass: nat, code: nat, payload: seq<Byte>)
    ensures var r := EventRecord(H, previous, state, index, boundary, cycle, eventClass, code, payload);
            r == Record(KIND_EVENT, 0, index, boundary, cycle, 0, eventClass, r.tlvs)
  {}

  // ----- Device events and their place in a slot -----

  // Device event codes are 1 to 6, and only the aggregate of transactions, code 5, has a place in the slot.
  lemma DeviceEventPosition(H: Hash, header: Header, r: Record)
    requires EventRule(H, header, r) && r.eventClass == EVENT_DEVICE
    ensures var code := FromLE(ItemOf(r.tlvs, EVENT_CODE));
            1 <= code <= 6 && SlotPosition(r) == if code == 5 then Some(2) else None
  {
    hide ItemOf, HasItem, FromLE, ValidTransactions, EventDigest;
  }

  // The payload of an extended request issue with nothing in it but an operation and two identities.
  function BareRequest(): (p: seq<Byte>)
    ensures |p| == 112
  {
    LE(1, 4) + Zeros(4) + LE(1, 8) + LE(1, 8) + Zeros(88)
  }

  lemma BareRequestValid()
    ensures ValidEvent(EVENT_DEVICE, 6, BareRequest())
  {
    hide LE, FromLE, Pow256, Zeros;
    Pow256Values();
    FromLEOfLE(1, 4);
    FromLEOfLE(1, 8);
    ZeroNumbers();
    var p := BareRequest();
    assert p[0..4] == LE(1, 4) && p[4..8] == Zeros(4) && p[8..16] == LE(1, 8) && p[16..24] == LE(1, 8);
    assert p[72..80] == Zeros(88)[48..56];
  }

  lemma ZeroNumbers()
    ensures |Zeros(4)| == 4 && |Zeros(88)| == 88 && FromLE(Zeros(4)) == 0
    ensures Zeros(88)[48..56] == Zeros(8) && FromLE(Zeros(8)) == 0
  {
    ZerosAreZero(4);
    ZerosAreZero(8);
  }

  lemma {:induction false} ZerosAreZero(n: nat)
    ensures FromLE(Zeros(n)) == 0
  {
    if n > 0 {
      ZerosAreZero(n - 1);
      assert Zeros(n)[1..] == Zeros(n - 1);
    }
  }

  // Code 6 does occur: wherever device events are asked for, a record with it passes all checks, and it is
  // a lifecycle observation.
  lemma CodeSixIsLifecycle(H: Hash, header: Header, previous: Digest, state: Digest, index: nat, boundary: nat, cycle: nat,
                           final: Option<Final>)
    requires header.eventMask / EVENT_DEVICE % 2 == 1
    ensures var r := EventRecord(H, previous, state, index, boundary, cycle, EVENT_DEVICE, 6, BareRequest());
            && RecordRule(H, header, r, previous, index, final) && EventRule(H, header, r)
            && FromLE(ItemOf(r.tlvs, EVENT_CODE)) == 6 && SlotPosition(r) == None
  {
    hide BareRequest, EventRule, RecordRule, FromLE, LE, Item, Pow256, EventRecord, ValidEvent;
    BareRequestValid();
    EventRecordRule(H, header, previous, state, index, boundary, cycle, EVENT_DEVICE, 6, BareRequest(), final);
    EventRecordMeets(H, header, previous, state, index, boundary, cycle, EVENT_DEVICE, 6, BareRequest());
    EventRecordItems(H, previous, state, index, boundary, cycle, EVENT_DEVICE, 6, BareRequest());
    Pow256Values();
    FromLEOfLE(6, 4);
    EventRecordFields(H, previous, state, index, boundary, cycle, EVENT_DEVICE, 6, BareRequest());
  }

  // A boundary's items: the selected values, then state, predecessor and digest.
  lemma BoundaryRecordParts(H: Hash, previous: Digest, state: Digest, flags: nat, index: nat, boundary: nat, cycle: nat,
                            mask: nat, selectors: seq<seq<Byte>>)
    returns (chosen: seq<Tlv>, s: Tlv, p: Tlv, d: Tlv)
    requires |selectors| == 12
    ensures var r := BoundaryRecord(H, previous, state, flags, index, boundary, cycle, mask, selectors);
            && chosen == Selected(mask, selectors, 0)
            && s == Tlv(STATE, true, state) && p == Tlv(PREVIOUS, true, previous)
            && d == Tlv(SEMANTIC, true, RecordSemantic(H, previous, r))
            && r == Record(KIND_BOUNDARY, flags, index, boundary, cycle, mask, 0, chosen + [s, p, d])
    ensures forall x :: x in chosen ==> 1 <= x.typ <= 12 && Bit(mask, x.typ - 1)
  {
    hide Selected, Bit, RecordSemantic, InDigest;
    var r := BoundaryRecord(H, previous, state, flags, index, boundary, cycle, mask, selectors);
    chosen := Selected(mask, selectors, 0);
    s, p := Tlv(STATE, true, state), Tlv(PREVIOUS, true, previous);
    var unsealed := r.(tlvs := chosen + [s, p]);
    d := Tlv(SEMANTIC, true, RecordSemantic(H, previous, unsealed));
    forall x | x in chosen ensures 1 <= x.typ <= 12 && Bit(mask, x.typ - 1) { SelectedTypes(mask, selectors, 0, x); }
    forall x | x in chosen + [s, p] ensures InDigest(x) { SmallTypes(x); }
    assert r.tlvs == chosen + [s, p] + [d] + [] && chosen + [s, p] + [] == chosen + [s, p];
    DigestOfRest(H, previous, r, chosen + [s, p], [], d);
    assert chosen + [s, p] + [d] == chosen + [s, p, d];
  }

  lemma SmallTypes(x: Tlv)
    requires x.typ <= PREVIOUS
    ensures InDigest(x)
  {}

  // Items behind a list of items of other types.
  lemma TailItem(front: seq<Tlv>, tail: seq<Tlv>, k: nat)
    requires Increasing(tail) && k < |tail| && tail[k].flag
    requires forall x :: x in front ==> x.typ != tail[k].typ
    ensures Item(front + tail, tail[k].typ) == Some(tail[k].value)
  {
    var p := OfType(tail[k].typ);
    KeepConcat(front, tail, p);
    KeepNone(front, p);
    IncreasingItem(tail, k);
    hide Keep, Increasing;
    assert [] + Keep(tail, p) == Keep(tail, p);
  }

  lemma BoundaryRecordItems(H: Hash, previous: Digest, state: Digest, flags: nat, index: nat, boundary: nat, cycle: nat,
                            mask: nat, selectors: seq<seq<Byte>>)
    requires |selectors| == 12
    ensures var r := BoundaryRecord(H, previous, state, flags, index, boundary, cycle, mask, selectors);
            var t := r.tlvs;
            && r == Record(KIND_BOUNDARY, flags, index, boundary, cycle, mask, 0, t)
            && Item(t, STATE) == Some(state) && Item(t, PREVIOUS) == Some(previous)
            && Item(t, SEMANTIC) == Some(RecordSemantic(H, previous, r))
            && (forall x :: x in t ==> AllowedType(r, x.typ))
  {
    hide Item, Bit, RecordSemantic, Selected, BoundaryRecord, AllowedType, Increasing;
    var chosen, s, p, d := BoundaryRecordParts(H, previous, state, flags, index, boundary, cycle, mask, selectors);
    ThreeItems(chosen, s, p, d);
    ThreeIncrease(s, p, d);
    BoundaryTypes(BoundaryRecord(H, previous, state, flags, index, boundary, cycle, mask, selectors), chosen, [s, p, d]);
  }

  lemma ThreeItems(front: seq<Tlv>, s: Tlv, p: Tlv, d: Tlv)
    requires 12 < s.typ < p.typ < d.typ && s.flag && p.flag && d.flag
    requires forall x :: x in front ==> x.typ <= 12
    ensures var t := front + [s, p, d];
            Item(t, s.typ) == Some(s.value) && Item(t, p.typ) == Some(p.value) && Item(t, d.typ) == Some(d.value)
  {
    hide Item, Increasing;
    var tail := [s, p, d];
    ThreeIncrease(s, p, d);
    TailItem(front, tail, 0);
    TailItem(front, tail, 1);
    TailItem(front, tail, 2);
  }

  lemma ThreeIncrease(s: Tlv, p: Tlv, d: Tlv)
    requires 12 < s.typ < p.typ < d.typ
    ensures Increasing([s, p, d])
    ensures forall x :: x in [s, p, d] ==> x.typ in {s.typ, p.typ, d.typ}
  {}

  lemma BoundaryTypes(r: Record, chosen: seq<Tlv>, tail: seq<Tlv>)
    requires r.kind == KIND_BOUNDARY && r.tlvs == chosen + tail
    requires forall x :: x in chosen ==> 1 <= x.typ <= 12 && Bit(r.selectorMask, x.typ - 1)
    requires forall x :: x in tail ==> x.typ in {STATE, PREVIOUS, SEMANTIC}
    ensures forall x :: x in r.tlvs ==> AllowedType(r, x.typ)
  {
    hide Bit;
  }

  lemma SelectorPresent(mask: nat, selectors: seq<seq<Byte>>, tail: seq<Tlv>, bit: nat)
    requires |selectors| == 12 && bit < 12
    requires forall x :: x in tail ==> x.typ > 12
    ensures var t := Selected(mask, selectors, 0) + tail;
            && (Present(t, bit + 1) <==> Bit(mask, bit))
            && (Bit(mask, bit) ==> Item(t, bit + 1) == Some(selectors[bit]))
  {
    hide Keep, Selected, Bit;
    var chosen, p := Selected(mask, selectors, 0), OfType(bit + 1);
    var t, x := chosen + tail, Tlv(bit + 1, true, selectors[bit]);
    SelectedItem(mask, selectors, 0, bit + 1);
    KeepConcat(chosen, tail, p);
    KeepNone(tail, p);
    assert Keep(t, p) == if Bit(mask, bit) then [x] else [];
    KeepMembers(t, p, x);
    forall y | y in t && y.typ == bit + 1 ensures Bit(mask, bit) { KeepMembers(t, p, y); }
  }

  lemma BoundaryRecordSelectors(H: Hash, header: Header, previous: Digest, state: Digest, flags: nat, index: nat,
                                boundary: nat, cycle: nat, selectors: seq<seq<Byte>>, bit: nat)
    requires |selectors| == 12 && bit < 12
    ensures var mask := ExpectedMask(header, flags);
            var t := BoundaryRecord(H, previous, state, flags, index, boundary, cycle, mask, selectors).tlvs;
            && (Present(t, bit + 1) <==> Bit(mask, bit))
            && (Bit(mask, bit) ==> Item(t, bit + 1) == Some(selectors[bit]))
  {
    hide Item, Bit, RecordSemantic, Selected, BoundaryRecord, Present, ExpectedMask;
    var mask := ExpectedMask(header, flags);
    var chosen, s, p, d := BoundaryRecordParts(H, previous, state, flags, index, boundary, cycle, mask, selectors);
    ThreeIncrease(s, p, d);
    SelectorPresent(mask, selectors, [s, p, d], bit);
  }

  lemma BoundaryRecordRule(H: Hash, header: Header, previous: Digest, state: Digest, flags: nat, index: nat, boundary: nat,
                           cycle: nat, selectors: seq<seq<Byte>>, final: Option<Final>)
    requires |selectors| == 12 && flags < 16 && flags % 4 in {1, 2}
    requires forall bit :: 0 <= bit < 12 && Bit(ExpectedMask(header, flags), bit) ==> ValidSelector(bit + 1, selectors[bit])
    ensures RecordRule(H, header, BoundaryRecord(H, previous, state, flags, index, boundary, cycle,
                                                 ExpectedMask(header, flags), selectors), previous, index, final)
  {
    hide Keep, Item, Bit, RecordSemantic, ValidSelector, BoundaryRecord, ExpectedMask, Present, AllowedType,
      InitialRule, EventRule, TerminalRule;
    var mask := ExpectedMask(header, flags);
    var r := BoundaryRecord(H, previous, state, flags, index, boundary, cycle, mask, selectors);
    BoundaryRecordItems(H, previous, state, flags, index, boundary, cycle, mask, selectors);
    forall bit | 0 <= bit < 12
      ensures SelectedRule(r, bit)
    {
      BoundaryRecordSelectors(H, header, previous, state, flags, index, boundary, cycle, selectors, bit);
    }
    assert BoundaryRule(header, r);
    hide BoundaryRule, RecordRule;
    RuleFromParts(H, header, r, previous, index, final);
  }

  // ----- Building whole traces -----

  // What a producer chooses for one record; sequence numbers and digests are computed.
  datatype Recipe =
    | Initial
    | Boundary(state: Digest, flags: nat, boundary: nat, cycle: nat, selectors: seq<seq<Byte>>)
    | Event(state: Digest, boundary: nat, cycle: nat, eventClass: nat, code: nat, payload: seq<Byte>)
    | Terminal(cycle: nat, reason: nat)

  predicate ValidRecipe(header: Header, final: Option<Final>, recipe: Recipe) {
    match recipe
    case Initial => |header.state| == 32
    case Boundary(_, flags, _, _, selectors) =>
      && |selectors| == 12 && flags < 16 && flags % 4 in {1, 2}
      && forall bit :: 0 <= bit < 12 && Bit(ExpectedMask(header, flags), bit) ==> ValidSelector(bit + 1, selectors[bit])
    case Event(_, _, _, eventClass, code, payload) =>
      && eventClass in {EVENT_CLOCK, EVENT_INTERRUPT, EVENT_DEVICE, EVENT_FAULT, EVENT_HALT}
      && header.eventMask / eventClass % 2 == 1 && code < U32 && ValidEvent(eventClass, code, payload)
    case Terminal(_, reason) =>
      && final.Some? && reason <= 3 && |final.value.state| == 32
      && (reason == COMPLETE_HALT ==> Halting(final.value.flags))
      && (reason == COMPLETE_LIMIT ==> !Halting(final.value.flags))
  }

  function Make(H: Hash, header: Header, previous: Digest, index: nat, final: Option<Final>, recipe: Recipe): Record
    requires ValidRecipe(header, final, recipe)
  {
    match recipe
    case Initial => InitialRecord(H, previous, header.state, header.firstBoundary)
    case Boundary(state, flags, boundary, cycle, selectors) =>
      BoundaryRecord(H, previous, state, flags, index, boundary, cycle, ExpectedMask(header, flags), selectors)
    case Event(state, boundary, cycle, eventClass, code, payload) =>
      EventRecord(H, previous, state, index, boundary, cycle, eventClass, code, payload)
    case Terminal(cycle, reason) =>
      TerminalRecord(previous, final.value.state, index, final.value.boundary, cycle, index + 1, reason)
  }

  lemma MadeRecordRule(H: Hash, header: Header, previous: Digest, index: nat, final: Option<Final>, recipe: Recipe)
    requires ValidRecipe(header, final, recipe) && index + 1 < U64 && (recipe.Initial? ==> index == 0)
    ensures RecordRule(H, header, Make(H, header, previous, index, final, recipe), previous, index, final)
  {
    match recipe
    case Initial =>
      InitialRecordRule(H, header, previous, final);
    case Boundary(state, flags, boundary, cycle, selectors) =>
      BoundaryRecordRule(H, header, previous, state, flags, index, boundary, cycle, selectors, final);
    case Event(state, boundary, cycle, eventClass, code, payload) =>
      EventRecordRule(H, header, previous, state, index, boundary, cycle, eventClass, code, payload, final);
    case Terminal(cycle, reason) =>
      TerminalRecordRule(H, header, previous, index, cycle, reason, final.value);
  }

  // The records made from the recipes one after another, each chained to the one before.
  ghost predicate BuiltFrom(H: Hash, header: Header, recipes: seq<Recipe>, records: seq<Record>) {
    && |records| == |recipes|
    && forall i :: 0 <= i < |records| ==> MadeAt(H, header, recipes, records, i)
  }

  ghost predicate MadeAt(H: Hash, header: Header, recipes: seq<Recipe>, records: seq<Record>, i: nat)
    requires i < |records| == |recipes|
  {
    var previous := PreviousAt(header, records, i);
    && |previous| == 32 && (recipes[i].Initial? ==> i == 0)
    && ValidRecipe(header, FinalAt(records, i), recipes[i])
    && records[i] == Make(H, header, previous, i, FinalAt(records, i), recipes[i])
  }

  ghost predicate WellOrdered(header: Header, records: seq<Record>) {
    && records != [] && records[|records| - 1].kind == KIND_TERMINAL
    && (forall i :: 0 <= i < |records| ==> OrderFits(header, records, i))
    && (header.recordCount == STREAMING_COUNT || header.recordCount == |records|)
  }

  // Every well-ordered list of builder-made records is accepted.
  lemma BuiltTracesAreAccepted(H: Hash, header: Header, recipes: seq<Recipe>, records: seq<Record>)
    requires BuiltFrom(H, header, recipes, records) && WellOrdered(header, records)
    ensures Grammar(H, header, records) && Accepted(H, header, records)
  {
    hide OrderFits, RecordRule, Make, ValidRecipe, PreviousAt, FinalAt, Accepted;
    forall i | 0 <= i < |records| ensures RecordFits(H, header, records, i) {
      assert OrderFits(header, records, i) && MadeAt(H, header, recipes, records, i);
      OrderBounded(header, records, i);
      MadeRecordRule(H, header, PreviousAt(header, records, i), i, FinalAt(records, i), recipes[i]);
    }
    ParserDecidesGrammar(H, header, records);
  }

  lemma OrderBounded(header: Header, records: seq<Record>, i: nat)
    requires i < |records| && OrderFits(header, records, i)
    ensures i < MAX_RECORDS
  {}

  // ----- As bytes -----

  // Builders make no extension items.
  lemma MadeTypes(H: Hash, header: Header, previous: Digest, index: nat, final: Option<Final>, recipe: Recipe, x: Tlv)
    requires ValidRecipe(header, final, recipe) && x in Make(H, header, previous, index, final, recipe).tlvs
    ensures x.typ < EXTENSION
  {
    hide Selected, RecordSemantic, EventDigest, LE, ValidSelector, ValidEvent, Bit, ExpectedMask;
    match recipe
    case Boundary(state, flags, boundary, cycle, selectors) =>
      var chosen := Selected(ExpectedMask(header, flags), selectors, 0);
      if x in chosen {
        SelectedTypes(ExpectedMask(header, flags), selectors, 0, x);
      }
    case _ =>
  }

  lemma AllowedIsKnown(r: Record, typ: nat)
    requires AllowedType(r, typ)
    ensures KnownType(typ)
  {
    hide Bit;
  }

  lemma MadeRecordsAdmissible(H: Hash, header: Header, recipes: seq<Recipe>, records: seq<Record>, i: nat)
    requires BuiltFrom(H, header, recipes, records) && i < |records| <= MAX_RECORDS
    ensures Admissible(records[i].tlvs)
  {
    hide Make, ValidRecipe, AllowedType, KnownType, PreviousAt, FinalAt, InitialRule, BoundaryRule, EventRule, TerminalRule;
    assert MadeAt(H, header, recipes, records, i);
    var r, p, f := records[i], PreviousAt(header, records, i), FinalAt(records, i);
    MadeRecordRule(H, header, p, i, f, recipes[i]);
    forall k | 0 <= k < |r.tlvs|
      ensures KnownType(r.tlvs[k].typ)
    {
      MadeTypes(H, header, p, i, f, recipes[i], r.tlvs[k]);
      AllowedIsKnown(r, r.tlvs[k].typ);
    }
  }

  // A well-ordered list of builder-made records that fit their size limit prints under a valid header,
  // and its bytes are accepted and read back.
  lemma BuiltBytesAreAccepted(H: Hash, header: Header, recipes: seq<Recipe>, records: seq<Record>)
    requires ValidHeader(H, header) && BuiltFrom(H, header, recipes, records) && WellOrdered(header, records)
    requires forall i :: 0 <= i < |records| ==> ValidRecord(records[i])
    ensures var t := Trace(header, records);
            PrintTrace(H, t).Ok? && ParseTrace(H, PrintTrace(H, t).value, ANY) == Ok(t)
  {
    hide ValidRecord, BuiltFrom, Grammar, ParseTrace, RecordsBytes, Admissible, SemanticSeed, Accepted, OrderFits, HeaderFields;
    BuiltTracesAreAccepted(H, header, recipes, records);
    CountBounded(H, header, records);
    forall i | 0 <= i < |records|
      ensures Admissible(records[i].tlvs)
    {
      MadeRecordsAdmissible(H, header, recipes, records, i);
    }
    ParsePrintedTrace(H, Trace(header, records));
  }
}
