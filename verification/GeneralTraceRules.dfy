/** What one record of a general trace must satisfy, given its predecessor, and the record builders. */
module GeneralTraceRules {
  import opened Bytes
  import opened TlvFraming
  import opened GeneralTraceCodec

  const KIND_BOUNDARY: nat := 1
  const KIND_EVENT: nat := 2
  const KIND_TERMINAL: nat := 3
  const KIND_INITIAL: nat := 4

  const EVENT_CLOCK: nat := 1
  const EVENT_INTERRUPT: nat := 2
  const EVENT_DEVICE: nat := 4
  const EVENT_FAULT: nat := 8
  const EVENT_HALT: nat := 16

  const STATE: nat := 100
  const PREVIOUS: nat := 101
  const SEMANTIC: nat := 102
  const EVENT_CODE: nat := 110
  const EVENT_BYTES: nat := 111
  const EVENT_DIGEST: nat := 112
  const FINAL_COUNT: nat := 120
  const REASON: nat := 121
  const FINAL_STATE: nat := 122

  const COMPLETE_LIMIT: nat := 0
  const COMPLETE_HALT: nat := 1

  // Boundary flag bits 0 to 3.
  predicate Executed(flags: nat) { Bit(flags, 0) }
  predicate Halting(flags: nat) { Bit(flags, 2) }

  // ----- Looking up items -----

  function Keep(tlvs: seq<Tlv>, p: Tlv -> bool): seq<Tlv>
    decreases |tlvs|
  {
    if tlvs == [] then [] else (if p(tlvs[0]) then [tlvs[0]] else []) + Keep(tlvs[1..], p)
  }

  function OfType(typ: nat): Tlv -> bool { (x: Tlv) => x.typ == typ }

  // The value of the only item of a type, which must be marked required.
  function Item(tlvs: seq<Tlv>, typ: nat): Option<seq<Byte>> {
    var found := Keep(tlvs, OfType(typ));
    if |found| == 1 && found[0].flag then Some(found[0].value) else None
  }

  function ItemOf(tlvs: seq<Tlv>, typ: nat): seq<Byte> {
    match Item(tlvs, typ)
    case Some(v) => v
    case None => []
  }

  predicate HasItem(tlvs: seq<Tlv>, typ: nat, size: nat) {
    Item(tlvs, typ).Some? && |Item(tlvs, typ).value| == size
  }

  predicate Present(tlvs: seq<Tlv>, typ: nat) { exists x :: x in tlvs && x.typ == typ }

  // ----- Digests -----

  function EventDigest(H: Hash, eventClass: nat, code: nat, payload: seq<Byte>): Digest {
    H(Ascii("CDRGEVENT1\0") + LE(eventClass, 4) + LE(code, 4) + payload)
  }

  // Known items other than the digest itself.
  predicate InDigest(x: Tlv) { x.typ != SEMANTIC && x.typ < EXTENSION }

  function SemanticTlvs(tlvs: seq<Tlv>): seq<Tlv> { Keep(tlvs, InDigest) }

  function Envelope(r: Record): seq<seq<Byte>> {
    [LE(r.kind, 2), LE(r.flags, 2), LE(r.boundary, 8), LE(r.cycle, 8), LE(r.selectorMask, 8), LE(r.eventClass, 4)]
  }

  // What one step of the semantic chain hashes.
  function Preimage(previous: seq<Byte>, r: Record): seq<Byte> {
    Ascii("CDRGREC1\0") + previous + Join(Envelope(r)) + EncodeTlvs(SemanticTlvs(r.tlvs))
  }

  function RecordSemantic(H: Hash, previous: seq<Byte>, r: Record): Digest { H(Preimage(previous, r)) }

  // ----- Payload schemas -----

  function U32At(value: seq<Byte>, i: nat): nat
    requires 4 * i + 4 <= |value|
  {
    FromLE(value[4 * i..4 * i + 4])
  }

  function U64At(value: seq<Byte>, offset: nat): nat
    requires offset + 8 <= |value|
  {
    FromLE(value[offset..offset + 8])
  }

  predicate AllBoolean(value: seq<Byte>)
    requires |value| % 4 == 0
  {
    forall i :: 0 <= i < |value| / 4 ==> U32At(value, i) <= 1
  }

  // Interrupt word before and after, vector bits 2 to 9, and whether a pending bit (14 or 15) is set.
  predicate ValidInterrupt(value: seq<Byte>)
    requires |value| == 16
  {
    var before, after, level, pending := U32At(value, 0), U32At(value, 1), U32At(value, 2), U32At(value, 3);
    && before <= 0xffff && after <= 0xffff
    && level == (after / 4 % 256) * 4
    && pending == if after >= 0x4000 then 1 else 0
  }

  // Bus error bits 0, 3 and 5.
  predicate ValidBusError(e: nat) { e in {0, 1, 8, 9, 32, 33, 40, 41} }

  predicate ValidTransaction(v: seq<Byte>)
    requires |v| == 44
  {
    var write, space, address := U32At(v, 0), U32At(v, 1), U64At(v, 8);
    var request, result, status := U32At(v, 4), U32At(v, 5), U32At(v, 6);
    && write <= 1 && space == 1 && address <= 4194303 && status in {0, 13}
    && U32At(v, 7) <= 0xffff && U32At(v, 8) <= 0xffff
    && ValidBusError(U32At(v, 9)) && ValidBusError(U32At(v, 10))
    && (write == 0 ==> request == 0) && (write == 1 ==> result == 0)
  }

  predicate ValidTransactions(value: seq<Byte>) {
    && |value| >= 4 && (|value| - 4) % 44 == 0
    && U32At(value, 0) == (|value| - 4) / 44
    && forall i :: 0 <= i < (|value| - 4) / 44 ==> ValidTransaction(value[4 + 44 * i..4 + 44 * (i + 1)])
  }

  // Kind, address, value and validity of a source or destination.
  predicate ValidOperand(value: seq<Byte>, kinds: set<nat>, limits: map<nat, nat>)
    requires |value| == 16 && kinds == limits.Keys
  {
    var kind, address, content, valid := U32At(value, 0), U32At(value, 1), U32At(value, 2), U32At(value, 3);
    || (valid == 0 && kind == address == content == 0)
    || (valid == 1 && kind in kinds && address <= limits[kind])
  }

  function SelectorSize(t: nat): nat
    requires 1 <= t <= 11
  {
    match t
    case 1 => 32 case 2 => 16 case 3 => 8 case 4 => 16 case 5 => 16 case 6 => 8
    case 7 => 8 case 8 => 12 case 9 => 8 case 10 => 16 case _ => 16
  }

  predicate ValidSelector(t: nat, value: seq<Byte>)
    requires 1 <= t <= 12
  {
    if t == 12 then ValidTransactions(value) else
    && |value| == SelectorSize(t)
    && match t {
      case 1 => forall i :: 0 <= i < 8 ==> U32At(value, i) <= 0x3fff
      case 2 => U64At(value, 0) < 0x1_0000_0000_0000 && U64At(value, 8) < 0x1_0000_0000_0000
      case 3 => U32At(value, 0) <= 1023
      case 4 => ValidOperand(value, {0, 1}, map[0 := 31, 1 := 31])
      case 5 => ValidOperand(value, {1, 2}, map[1 := 1023, 2 := 31])
      case 8 => U32At(value, 2) <= 1
      case 10 => AllBoolean(value)
      case 11 => ValidInterrupt(value)
      case _ => true
    }
  }

  predicate ValidEvent(eventClass: nat, code: nat, payload: seq<Byte>) {
    if eventClass == EVENT_CLOCK then
      code == 1 && |payload| == 24 && U64At(payload, 8) >= U64At(payload, 0) && U64At(payload, 16) <= 1
    else if eventClass == EVENT_INTERRUPT then
      code == 1 && |payload| == 16 && ValidInterrupt(payload)
    else if eventClass == EVENT_FAULT then
      code == 1 && |payload| == 16 && AllBoolean(payload)
    else if eventClass == EVENT_HALT then
      code == 1 && |payload| == 4 && U32At(payload, 0) == 16
    else
      eventClass == EVENT_DEVICE && ValidDeviceEvent(code, payload)
  }

  // Request issue, three completions, the transaction aggregate, and the extended request issue.
  predicate ValidDeviceEvent(code: nat, payload: seq<Byte>) {
    if code == 1 then
      && |payload| == 72 && 1 <= U32At(payload, 0) <= 5 && U32At(payload, 1) <= 16
      && U64At(payload, 8) != 0 && U64At(payload, 16) != 0
    else if 2 <= code <= 4 then
      && |payload| == 68 && 1 <= U32At(payload, 0) <= 5 && U32At(payload, 1) <= 1 && U32At(payload, 2) <= 16
      && U64At(payload, 12) != 0 && U64At(payload, 20) != 0
    else if code == 5 then
      ValidTransactions(payload)
    else
      && code == 6 && |payload| == 112 && 1 <= U32At(payload, 0) <= 5 && U32At(payload, 1) <= 16
      && U64At(payload, 8) != 0 && U64At(payload, 16) != 0 && U64At(payload, 72) <= 1024
  }

  // ----- One record -----

  // Boundary, state digest and boundary flags that a terminal must repeat.
  datatype Final = Final(boundary: nat, state: seq<Byte>, flags: nat)

  predicate AllowedType(r: Record, typ: nat) {
    || typ in {STATE, PREVIOUS, SEMANTIC}
    || (r.kind == KIND_BOUNDARY && 1 <= typ <= 12 && Bit(r.selectorMask, typ - 1))
    || (r.kind == KIND_EVENT && typ in {EVENT_CODE, EVENT_BYTES, EVENT_DIGEST})
    || (r.kind == KIND_TERMINAL && typ in {FINAL_COUNT, REASON, FINAL_STATE})
  }

  // An inhibited boundary drops selector bits 1 to 4.
  function ExpectedMask(header: Header, flags: nat): nat {
    if Executed(flags) then header.selectorMask else header.selectorMask % 2 + header.selectorMask / 32 * 32
  }

  predicate InitialRule(header: Header, r: Record) {
    && r.flags == r.selectorMask == r.eventClass == 0
    && r.boundary == header.firstBoundary && r.cycle == 0
    && Item(r.tlvs, STATE) == Some(header.state)
  }

  // A selected value is there exactly when its bit is set, and meets its schema.
  predicate SelectedRule(r: Record, bit: nat)
    requires bit < 12
  {
    && (Present(r.tlvs, bit + 1) <==> Bit(r.selectorMask, bit))
    && (Present(r.tlvs, bit + 1) ==>
          Item(r.tlvs, bit + 1).Some? && ValidSelector(bit + 1, Item(r.tlvs, bit + 1).value))
  }

  predicate BoundaryRule(header: Header, r: Record) {
    && r.flags < 16 && r.flags % 4 in {1, 2}
    && r.eventClass == 0 && r.selectorMask == ExpectedMask(header, r.flags)
    && forall bit :: 0 <= bit < 12 ==> SelectedRule(r, bit)
  }

  predicate EventRule(H: Hash, header: Header, r: Record) {
    && r.flags == r.selectorMask == 0
    && r.eventClass in {EVENT_CLOCK, EVENT_INTERRUPT, EVENT_DEVICE, EVENT_FAULT, EVENT_HALT}
    && header.eventMask / r.eventClass % 2 == 1
    && HasItem(r.tlvs, EVENT_CODE, 4) && Item(r.tlvs, EVENT_BYTES).Some? && HasItem(r.tlvs, EVENT_DIGEST, 32)
    && var code, payload := FromLE(ItemOf(r.tlvs, EVENT_CODE)), ItemOf(r.tlvs, EVENT_BYTES);
       && ValidEvent(r.eventClass, code, payload)
       && ItemOf(r.tlvs, EVENT_DIGEST) == EventDigest(H, r.eventClass, code, payload)
  }

  predicate TerminalRule(r: Record, previous: seq<Byte>, index: nat, final: Option<Final>) {
    && r.flags == r.selectorMask == r.eventClass == 0 && final.Some?
    && HasItem(r.tlvs, FINAL_COUNT, 8) && HasItem(r.tlvs, REASON, 4) && HasItem(r.tlvs, FINAL_STATE, 32)
    && var reason := FromLE(ItemOf(r.tlvs, REASON));
       && FromLE(ItemOf(r.tlvs, FINAL_COUNT)) == index + 1 && reason <= 3
       && Item(r.tlvs, FINAL_STATE) == Item(r.tlvs, STATE) == Some(final.value.state)
       && r.boundary == final.value.boundary
       && (reason == COMPLETE_HALT ==> Halting(final.value.flags))
       && (reason == COMPLETE_LIMIT ==> !Halting(final.value.flags))
       && Item(r.tlvs, SEMANTIC) == Some(previous)
  }

  predicate RecordRule(H: Hash, header: Header, r: Record, previous: seq<Byte>, index: nat, final: Option<Final>) {
    && r.sequence == index
    && r.kind in {KIND_BOUNDARY, KIND_EVENT, KIND_TERMINAL, KIND_INITIAL}
    && (forall x :: x in r.tlvs && x.typ < EXTENSION ==> AllowedType(r, x.typ))
    && HasItem(r.tlvs, STATE, 32) && HasItem(r.tlvs, PREVIOUS, 32) && HasItem(r.tlvs, SEMANTIC, 32)
    && ItemOf(r.tlvs, PREVIOUS) == previous
    && (r.kind == KIND_INITIAL ==> InitialRule(header, r))
    && (r.kind == KIND_BOUNDARY ==> BoundaryRule(header, r))
    && (r.kind == KIND_EVENT ==> EventRule(H, header, r))
    && (r.kind == KIND_TERMINAL ==> TerminalRule(r, previous, index, final))
    && (r.kind != KIND_TERMINAL ==> ItemOf(r.tlvs, SEMANTIC) == RecordSemantic(H, previous, r))
  }

  // The digest a record hands on to its successor.
  function Semantic(r: Record): seq<Byte> { ItemOf(r.tlvs, SEMANTIC) }

  // Position within a boundary's slot; host lifecycle observations have none.
  function SlotPosition(r: Record): Option<nat> {
    if r.eventClass == EVENT_CLOCK then Some(0)
    else if r.eventClass == EVENT_INTERRUPT then Some(1)
    else if r.eventClass == EVENT_FAULT then Some(3)
    else if r.eventClass == EVENT_HALT then Some(4)
    else if FromLE(ItemOf(r.tlvs, EVENT_CODE)) == 5 then Some(2)
    else None
  }
}
