/** The record builders of native-oracle traces: when a capture built from them passes both decoders. */
module OracleTraceBuilders {
  import opened Bytes
  import opened TlvFraming
  import opened OracleTraceCodec
  import opened OracleTraceParser

  // ----- Records -----

  function Derived(H: Hash, components: seq<Digest>): Digest { H(Ascii("CDRIDENT1\0") + Join(components)) }

  function IdentityTlvs(H: Hash, components: seq<Digest>): (t: seq<Tlv>)
    requires |components| == 8
    ensures |t| == 9
  {
    [Tlv(100, false, Derived(H, components))] + seq(8, i requires 0 <= i < 8 => Tlv(101 + i, false, components[i]))
  }

  function OpeningRecord(H: Hash, components: seq<Digest>, cycle: nat, state: Digest): Record
    requires |components| == 8
  {
    Record(KIND_BOUNDARY, 0, cycle,
           [Tlv(1, true, Zeros(32)), Tlv(2, true, state), Tlv(3, true, EmptyMutation(H)), Tlv(4, true, LE(0, 8)),
            Tlv(6, true, LE(0, 8)), Tlv(7, true, LE(0, 8)), Tlv(8, true, LE(1, 4))] + IdentityTlvs(H, components))
  }

  function BoundaryRecord(sequence: nat, cycle: nat, predecessor: Digest, state: Digest, mutation: Digest, ordinal: nat,
                          slot: nat, first: nat, count: nat, flags: nat): Record {
    Record(KIND_BOUNDARY, sequence, cycle,
           [Tlv(1, true, predecessor), Tlv(2, true, state), Tlv(3, true, mutation), Tlv(4, true, LE(ordinal, 8)),
            Tlv(5, true, LE(slot, 8)), Tlv(6, true, LE(first, 8)), Tlv(7, true, LE(count, 8)), Tlv(8, true, LE(flags, 4))])
  }

  function EventRecord(sequence: nat, cycle: nat, source: nat, event: nat, bytes: seq<Byte>, extra: seq<Tlv>): Record {
    Record(KIND_EVENT, sequence, cycle,
           [Tlv(1, true, LE(source, 4)), Tlv(2, true, LE(event, 4)), Tlv(3, true, bytes)] + extra)
  }

  function TerminalRecord(sequence: nat, cycle: nat, count: nat, boundary: nat, semantic: Digest, status: nat, reason: nat): Record {
    Record(KIND_TERMINAL, sequence, cycle,
           [Tlv(1, true, LE(count, 8)), Tlv(2, true, LE(boundary, 8)), Tlv(3, true, semantic),
            Tlv(4, true, LE(status, 4)), Tlv(5, true, LE(reason, 4))])
  }

  // ----- Looking into a list of increasing types -----

  ghost predicate Rising(t: seq<Tlv>) { forall i, j :: 0 <= i < j < |t| ==> t[i].typ < t[j].typ }

  lemma {:induction false} FindRising(t: seq<Tlv>, k: nat)
    requires Rising(t) && k < |t|
    ensures Find(t, t[k].typ) == Some(t[k])
    decreases |t|
  {
    if k > 0 {
      FindRising(t[1..], k - 1);
    }
  }

  lemma {:induction false} FindNothing(t: seq<Tlv>, typ: nat)
    requires forall x :: x in t ==> x.typ != typ
    ensures Find(t, typ) == None
    decreases |t|
  {
    if t != [] {
      FindNothing(t[1..], typ);
    }
  }

  lemma Holds(r: Record, k: nat)
    requires Rising(r.tlvs) && k < |r.tlvs|
    ensures Has(r, r.tlvs[k].typ) && ValueOf(r, r.tlvs[k].typ) == r.tlvs[k].value
  {
    FindRising(r.tlvs, k);
  }

  lemma Lacks(r: Record, typ: nat)
    requires forall x :: x in r.tlvs ==> x.typ != typ
    ensures !Has(r, typ)
  {
    FindNothing(r.tlvs, typ);
  }

  // ----- What the builders put where -----

  lemma OpeningValues(r: Record)
    requires |r.tlvs| == 16 && Rising(r.tlvs)
    requires forall k :: 0 <= k < 7 ==> r.tlvs[k].typ == if k < 4 then k + 1 else k + 2
    ensures Has(r, 1) && Has(r, 2) && Has(r, 3) && Has(r, 4) && Has(r, 6) && Has(r, 7) && Has(r, 8)
    ensures ValueOf(r, 1) == r.tlvs[0].value && ValueOf(r, 3) == r.tlvs[2].value && ValueOf(r, 4) == r.tlvs[3].value
    ensures ValueOf(r, 6) == r.tlvs[4].value && ValueOf(r, 7) == r.tlvs[5].value && ValueOf(r, 8) == r.tlvs[6].value
  {
    hide Find, Has, ValueOf, Rising;
    Holds(r, 0);
    Holds(r, 1);
    Holds(r, 2);
    Holds(r, 3);
    Holds(r, 4);
    Holds(r, 5);
    Holds(r, 6);
  }

  lemma OpeningRises(H: Hash, components: seq<Digest>, cycle: nat, state: Digest)
    requires |components| == 8
    ensures Rising(OpeningRecord(H, components, cycle, state).tlvs)
    ensures !Has(OpeningRecord(H, components, cycle, state), 5)
  {
    hide Find, LE, EmptyMutation, Has, Derived;
    Lacks(OpeningRecord(H, components, cycle, state), 5);
  }

  lemma OpeningItems(H: Hash, components: seq<Digest>, cycle: nat, state: Digest)
    requires |components| == 8
    ensures var r := OpeningRecord(H, components, cycle, state);
            && r.kind == KIND_BOUNDARY && r.sequence == 0 && r.cycle == cycle
            && Rising(r.tlvs) && |r.tlvs| == 16
            && Has(r, 1) && Has(r, 2) && Has(r, 3) && Has(r, 4) && !Has(r, 5) && Has(r, 6) && Has(r, 7) && Has(r, 8)
            && ValueOf(r, 1) == Zeros(32) && ValueOf(r, 3) == EmptyMutation(H)
            && Ordinal(r) == FirstMutation(r) == Mutations(r) == 0 && Number(r, 8) == 1
  {
    hide Find, LE, FromLE, Pow256, Derived, EmptyMutation, Has, ValueOf, Rising, Zeros;
    Pow256Values();
    FromLEOfLE(0, 8);
    FromLEOfLE(1, 4);
    OpeningRises(H, components, cycle, state);
    OpeningValues(OpeningRecord(H, components, cycle, state));
  }

  lemma OpeningIdentity(H: Hash, components: seq<Digest>, cycle: nat, state: Digest)
    requires |components| == 8
    ensures IdentityIntact(H, Derived(H, components)[..16], OpeningRecord(H, components, cycle, state))
  {
    hide Find, LE, EmptyMutation, Has, ValueOf, Join, FromLE;
    var r := OpeningRecord(H, components, cycle, state);
    OpeningItems(H, components, cycle, state);
    forall typ | 100 <= typ <= 108
      ensures Has(r, typ) && ValueOf(r, typ) == IdentityTlvs(H, components)[typ - 100].value
    {
      Holds(r, 7 + (typ - 100));
    }
    assert Components(r) == components;
  }

  lemma BoundaryValues(r: Record)
    requires |r.tlvs| == 8 && forall k :: 0 <= k < 8 ==> r.tlvs[k].typ == k + 1
    ensures Has(r, 1) && Has(r, 2) && Has(r, 3) && Has(r, 4) && Has(r, 5) && Has(r, 6) && Has(r, 7) && Has(r, 8)
    ensures ValueOf(r, 1) == r.tlvs[0].value && ValueOf(r, 2) == r.tlvs[1].value && ValueOf(r, 3) == r.tlvs[2].value
    ensures ValueOf(r, 4) == r.tlvs[3].value && ValueOf(r, 5) == r.tlvs[4].value && ValueOf(r, 6) == r.tlvs[5].value
    ensures ValueOf(r, 7) == r.tlvs[6].value && ValueOf(r, 8) == r.tlvs[7].value
    ensures NoIdentity(r)
  {
    hide Find, Has, ValueOf;
    Holds(r, 0);
    Holds(r, 1);
    Holds(r, 2);
    Holds(r, 3);
    Holds(r, 4);
    Holds(r, 5);
    Holds(r, 6);
    Holds(r, 7);
    NoIdentityItems(r);
  }

  lemma NoIdentityItems(r: Record)
    requires forall x :: x in r.tlvs ==> x.typ < 100
    ensures NoIdentity(r)
  {
    hide Find, Has;
    forall typ | 100 <= typ <= 108
      ensures !Has(r, typ)
    {
      Lacks(r, typ);
    }
  }

  lemma BoundaryItems(sequence: nat, cycle: nat, predecessor: Digest, state: Digest, mutation: Digest, ordinal: nat,
                      slot: nat, first: nat, count: nat, flags: nat)
    requires ordinal < U64 && slot < U64 && first < U64 && count < U64 && flags < U32
    ensures var r := BoundaryRecord(sequence, cycle, predecessor, state, mutation, ordinal, slot, first, count, flags);
            && r.kind == KIND_BOUNDARY && r.sequence == sequence && r.cycle == cycle
            && ValueOf(r, 1) == predecessor && ValueOf(r, 2) == state && ValueOf(r, 3) == mutation
            && Ordinal(r) == ordinal && Number(r, 5) == slot && FirstMutation(r) == first && Mutations(r) == count
            && Number(r, 8) == flags
  {
    hide Find, LE, FromLE, Has, ValueOf, Pow256;
    Pow256Values();
    FromLEOfLE(ordinal, 8);
    FromLEOfLE(slot, 8);
    FromLEOfLE(first, 8);
    FromLEOfLE(count, 8);
    FromLEOfLE(flags, 4);
    BoundaryValues(BoundaryRecord(sequence, cycle, predecessor, state, mutation, ordinal, slot, first, count, flags));
  }

  lemma TerminalValues(r: Record)
    requires |r.tlvs| == 5 && forall k :: 0 <= k < 5 ==> r.tlvs[k].typ == k + 1
    ensures Has(r, 1) && Has(r, 2) && Has(r, 3) && Has(r, 4) && Has(r, 5)
    ensures ValueOf(r, 1) == r.tlvs[0].value && ValueOf(r, 2) == r.tlvs[1].value && ValueOf(r, 3) == r.tlvs[2].value
    ensures ValueOf(r, 4) == r.tlvs[3].value && ValueOf(r, 5) == r.tlvs[4].value
    ensures NoIdentity(r)
  {
    hide Find, Has, ValueOf;
    Holds(r, 0);
    Holds(r, 1);
    Holds(r, 2);
    Holds(r, 3);
    Holds(r, 4);
    NoIdentityItems(r);
  }

  lemma TerminalItems(sequence: nat, cycle: nat, count: nat, boundary: nat, semantic: Digest, status: nat, reason: nat)
    requires count < U64 && boundary < U64 && status < U32 && reason < U32
    ensures var r := TerminalRecord(sequence, cycle, count, boundary, semantic, status, reason);
            && r.kind == KIND_TERMINAL && r.sequence == sequence && r.cycle == cycle
            && Number(r, 1) == count && Number(r, 2) == boundary && ValueOf(r, 3) == semantic
            && Number(r, 4) == status && Number(r, 5) == reason
  {
    hide Find, LE, FromLE, Has, ValueOf, Pow256;
    Pow256Values();
    FromLEOfLE(count, 8);
    FromLEOfLE(boundary, 8);
    FromLEOfLE(status, 4);
    FromLEOfLE(reason, 4);
    TerminalValues(TerminalRecord(sequence, cycle, count, boundary, semantic, status, reason));
  }

  // ----- Required items -----

  lemma OpeningRequired(H: Hash, components: seq<Digest>, cycle: nat, state: Digest)
    requires |components| == 8
    ensures RequiredTlvs(OpeningRecord(H, components, cycle, state))
  {
    hide Find, LE, EmptyMutation, Has, ValueOf, FromLE, Derived, Rising, Number;
    OpeningItems(H, components, cycle, state);
  }

  lemma BoundaryRequired(sequence: nat, cycle: nat, predecessor: Digest, state: Digest, mutation: Digest, ordinal: nat,
                         slot: nat, first: nat, count: nat, flags: nat)
    ensures RequiredTlvs(BoundaryRecord(sequence, cycle, predecessor, state, mutation, ordinal, slot, first, count, flags))
    ensures NoIdentity(BoundaryRecord(sequence, cycle, predecessor, state, mutation, ordinal, slot, first, count, flags))
    ensures Has(BoundaryRecord(sequence, cycle, predecessor, state, mutation, ordinal, slot, first, count, flags), 5)
  {
    hide Find, LE, Has, ValueOf, NoIdentity;
    BoundaryValues(BoundaryRecord(sequence, cycle, predecessor, state, mutation, ordinal, slot, first, count, flags));
  }

  lemma TerminalRequired(sequence: nat, cycle: nat, count: nat, boundary: nat, semantic: Digest, status: nat, reason: nat)
    ensures RequiredTlvs(TerminalRecord(sequence, cycle, count, boundary, semantic, status, reason))
    ensures NoIdentity(TerminalRecord(sequence, cycle, count, boundary, semantic, status, reason))
  {
    hide Find, LE, Has, ValueOf, NoIdentity;
    TerminalValues(TerminalRecord(sequence, cycle, count, boundary, semantic, status, reason));
  }

  // Further items of an event must not be critical, and none may be an identity item.
  predicate ExtrasRule(extra: seq<Tlv>) { forall x :: x in extra ==> !x.flag && !(100 <= x.typ <= 108) }

  lemma {:induction false} OrderedRises(t: seq<Tlv>, last: nat)
    requires Ordered(t, last)
    ensures Rising(t) && forall x :: x in t ==> last < x.typ
  {
    forall i, j | 0 <= i < j < |t|
      ensures t[i].typ < t[j].typ
    {
      OrderedDistinct(t, last, i, j);
    }
    forall x | x in t
      ensures last < x.typ
    {
      var i :| 0 <= i < |t| && t[i] == x;
      OrderedAbove(t, last, i);
    }
  }

  lemma EventRequiredIff(r: Record, source: nat, event: nat, bytes: seq<Byte>, extra: seq<Tlv>)
    requires r == EventRecord(r.sequence, r.cycle, source, event, bytes, extra) && Rising(r.tlvs)
    ensures RequiredTlvs(r) <==> forall x :: x in extra ==> !x.flag
  {
    hide Find, LE, Has, Rising;
    Holds(r, 0);
    Holds(r, 1);
    Holds(r, 2);
    ExtrasAbove(r.tlvs, extra);
  }

  // An event record passes the item checks exactly when its further items keep that rule.
  lemma EventItemsIff(r: Record, source: nat, event: nat, bytes: seq<Byte>, extra: seq<Tlv>)
    requires r == EventRecord(r.sequence, r.cycle, source, event, bytes, extra) && Ordered(r.tlvs, 0)
    ensures RequiredTlvs(r) && NoIdentity(r) <==> ExtrasRule(extra)
  {
    hide Find, LE, Has, Ordered, RequiredTlvs, Rising;
    OrderedRises(r.tlvs, 0);
    EventRequiredIff(r, source, event, bytes, extra);
    ExtrasAbove(r.tlvs, extra);
    if ExtrasRule(extra) {
      NoIdentityAmong(r);
    }
    if NoIdentity(r) {
      forall x | x in extra
        ensures !(100 <= x.typ <= 108)
      {
        PresentIsHas(r, x);
      }
    }
  }

  lemma ExtrasAbove(t: seq<Tlv>, extra: seq<Tlv>)
    requires Rising(t) && |t| == 3 + |extra| && t[3..] == extra && t[2].typ == 3
    ensures forall x :: x in extra ==> x.typ > 3 && x in t
    ensures forall x :: x in t ==> x == t[0] || x == t[1] || x == t[2] || x in extra
  {
    forall x | x in extra
      ensures x.typ > 3 && x in t
    {
      var i :| 0 <= i < |extra| && extra[i] == x;
      assert t[3 + i] == x;
    }
    forall x | x in t
      ensures x == t[0] || x == t[1] || x == t[2] || x in extra
    {
      var i :| 0 <= i < |t| && t[i] == x;
      assert i >= 3 ==> extra[i - 3] == x;
    }
  }

  lemma NoIdentityAmong(r: Record)
    requires forall x :: x in r.tlvs ==> !(100 <= x.typ <= 108)
    ensures NoIdentity(r)
  {
    hide Find, Has;
    forall typ | 100 <= typ <= 108
      ensures !Has(r, typ)
    {
      Lacks(r, typ);
    }
  }

  lemma PresentIsHas(r: Record, x: Tlv)
    requires Rising(r.tlvs) && x in r.tlvs
    ensures Has(r, x.typ)
  {
    hide Find, Has;
    var i :| 0 <= i < |r.tlvs| && r.tlvs[i] == x;
    Holds(r, i);
  }

  // ----- A capture -----

  // A clock slot that a boundary closes, or an event from outside.
  datatype Entry =
    | Slot(cycle: nat, state: Digest, mutation: Digest, mutations: nat, flags: nat)
    | Outside(cycle: nat, source: nat, event: nat, bytes: seq<Byte>, extra: seq<Tlv>)

  datatype Capture = Capture(
    components: seq<Digest>, startCycle: nat, startState: Digest, steps: seq<Entry>, endCycle: nat, status: nat, reason: nat)

  // Slots, and mutations announced, among the first k steps.
  function SlotsBefore(c: Capture, k: nat): nat
    requires k <= |c.steps|
  {
    if k == 0 then 0 else SlotsBefore(c, k - 1) + if c.steps[k - 1].Slot? then 1 else 0
  }

  function MutationsBefore(c: Capture, k: nat): nat
    requires k <= |c.steps|
  {
    if k == 0 then 0 else MutationsBefore(c, k - 1) + if c.steps[k - 1].Slot? then c.steps[k - 1].mutations else 0
  }

  // Where the latest boundary stands among the records of S0 and the first k steps.
  function LastSlot(c: Capture, k: nat): (p: nat)
    requires k <= |c.steps|
    ensures p <= k && (p > 0 ==> c.steps[p - 1].Slot?)
  {
    if k == 0 then 0 else if c.steps[k - 1].Slot? then k else LastSlot(c, k - 1)
  }

  lemma {:induction false} AtLastSlot(c: Capture, k: nat)
    requires k <= |c.steps|
    ensures SlotsBefore(c, LastSlot(c, k)) == SlotsBefore(c, k) && MutationsBefore(c, LastSlot(c, k)) == MutationsBefore(c, k)
    ensures LastSlot(c, LastSlot(c, k)) == LastSlot(c, k)
    decreases k
  {
    if k > 0 {
      AtLastSlot(c, k - 1);
    }
  }

  // The numbers fit the fields they are packed into, and events the size of a record.
  ghost predicate Encodable(c: Capture) {
    && |c.components| == 8 && |c.steps| + 2 < U64 && c.startCycle < U64 && c.endCycle < U64
    && c.status in {COMPLETE, ABORT, FAILURE} && c.reason < U32
    && (forall k :: 0 <= k < |c.steps| ==> StepEncodable(c, k))
  }

  ghost predicate StepEncodable(c: Capture, k: nat)
    requires k < |c.steps|
  {
    match c.steps[k]
    case Slot(cycle, _, _, mutations, flags) =>
      cycle < U64 && mutations < U64 && flags < U32 && MutationsBefore(c, k) < U64
    case Outside(cycle, source, event, bytes, extra) =>
      source < U32 && event < U32 && ValidRecord(EventRecord(k + 1, cycle, source, event, bytes, extra))
  }

  // Record k: S0, or the one made of step k - 1.
  function MadeRecord(H: Hash, c: Capture, k: nat): Record
    requires |c.components| == 8 && k <= |c.steps|
  {
    if k == 0 then OpeningRecord(H, c.components, c.startCycle, c.startState) else
    match c.steps[k - 1]
    case Slot(cycle, state, mutation, mutations, flags) =>
      var n := SlotsBefore(c, k - 1);
      BoundaryRecord(k, cycle, Semantic(H, MadeRecord(H, c, LastSlot(c, k - 1))), state, mutation, n + 1, n,
                     MutationsBefore(c, k - 1), mutations, flags)
    case Outside(cycle, source, event, bytes, extra) =>
      EventRecord(k, cycle, source, event, bytes, extra)
  }

  function MadeTerminal(H: Hash, c: Capture): Record
    requires |c.components| == 8
  {
    var n := |c.steps|;
    TerminalRecord(n + 1, c.endCycle, n + 2, SlotsBefore(c, n), Semantic(H, MadeRecord(H, c, LastSlot(c, n))), c.status, c.reason)
  }

  // S0, the steps in order, then the terminal.
  function MadeRecords(H: Hash, c: Capture): (r: seq<Record>)
    requires |c.components| == 8
    ensures |r| == |c.steps| + 2
  {
    seq(|c.steps| + 1, k requires 0 <= k <= |c.steps| => MadeRecord(H, c, k)) + [MadeTerminal(H, c)]
  }

  function CycleBefore(c: Capture, k: nat): nat
    requires k <= |c.steps|
  {
    if k == 0 then c.startCycle else c.steps[k - 1].cycle
  }

  // Whether the latest boundary before step k halted.
  predicate Halts(c: Capture, k: nat)
    requires k <= |c.steps|
  {
    LastSlot(c, k) > 0 && Bit(c.steps[LastSlot(c, k) - 1].flags, HALT)
  }

  // Step k may follow the steps before it.
  predicate StepRule(H: Hash, c: Capture, k: nat)
    requires k < |c.steps|
  {
    && CycleBefore(c, k) <= c.steps[k].cycle && !Halts(c, k)
    && match c.steps[k]
       case Slot(_, _, mutation, mutations, flags) =>
         && flags < 32 && !Bit(flags, S0) && Bit(flags, EXECUTED) != Bit(flags, INHIBITED)
         && (mutations == 0 ==> mutation == EmptyMutation(H))
       case Outside(_, _, _, _, extra) => ExtrasRule(extra)
  }

  // A complete run has no outside event and says truly whether it halted.
  predicate EndRule(c: Capture) {
    && CycleBefore(c, |c.steps|) <= c.endCycle && ValidEnding(c.status, c.reason)
    && (c.status == COMPLETE ==>
          (forall k :: 0 <= k < |c.steps| ==> c.steps[k].Slot?) && (Halts(c, |c.steps|) <==> c.reason == REASON_HALT))
  }

  ghost predicate RunRule(H: Hash, c: Capture) {
    |c.steps| + 2 <= MAX_RECORDS && (forall k :: 0 <= k < |c.steps| ==> StepRule(H, c, k)) && EndRule(c)
  }

  // ----- What the made records hold -----

  lemma NotHalting()
    ensures !Bit(1, HALT)
  {}

  // A boundary among the made records.
  lemma MadeFields(H: Hash, c: Capture, k: nat)
    requires Encodable(c) && k <= |c.steps| && LastSlot(c, k) == k
    ensures var r := MadeRecord(H, c, k);
            && r.kind == KIND_BOUNDARY && r.sequence == k && r.cycle == CycleBefore(c, k) && Ordinal(r) == SlotsBefore(c, k)
            && FirstMutation(r) + Mutations(r) == MutationsBefore(c, k) && (Flag(r, HALT) <==> Halts(c, k))
            && RequiredTlvs(r) && (k > 0 ==> NoIdentity(r))
  {
    hide RequiredTlvs, NoIdentity, Find, LE, FromLE, Semantic, EmptyMutation, BoundaryRecord, OpeningRecord, Has, ValueOf,
      Number, Ordinal, FirstMutation, Mutations, Rising, Zeros;
    NotHalting();
    if k == 0 {
      OpeningItems(H, c.components, c.startCycle, c.startState);
      OpeningRequired(H, c.components, c.startCycle, c.startState);
    } else {
      SlotFields(H, c, k);
    }
  }

  lemma {:induction false} SlotsFit(c: Capture, k: nat)
    requires k <= |c.steps|
    ensures SlotsBefore(c, k) <= k
    decreases k
  {
    if k > 0 {
      SlotsFit(c, k - 1);
    }
  }

  lemma SlotFields(H: Hash, c: Capture, k: nat)
    requires Encodable(c) && 0 < k <= |c.steps| && c.steps[k - 1].Slot?
    ensures var r, s := MadeRecord(H, c, k), c.steps[k - 1];
            && r.kind == KIND_BOUNDARY && r.sequence == k && r.cycle == s.cycle
            && Number(r, 8) == s.flags && Has(r, 5) && Number(r, 5) == SlotsBefore(c, k - 1) && Ordinal(r) == SlotsBefore(c, k)
            && ValueOf(r, 1) == Semantic(H, MadeRecord(H, c, LastSlot(c, k - 1))) && ValueOf(r, 3) == s.mutation
            && Mutations(r) == s.mutations && FirstMutation(r) == MutationsBefore(c, k - 1)
            && RequiredTlvs(r) && NoIdentity(r)
  {
    hide RequiredTlvs, NoIdentity, Find, LE, FromLE, Semantic, BoundaryRecord, Has, ValueOf, Number, Ordinal, FirstMutation,
      Mutations;
    var s, n := c.steps[k - 1], SlotsBefore(c, k - 1);
    var p := Semantic(H, MadeRecord(H, c, LastSlot(c, k - 1)));
    assert StepEncodable(c, k - 1);
    SlotsFit(c, k - 1);
    BoundaryItems(k, s.cycle, p, s.state, s.mutation, n + 1, n, MutationsBefore(c, k - 1), s.mutations, s.flags);
    BoundaryRequired(k, s.cycle, p, s.state, s.mutation, n + 1, n, MutationsBefore(c, k - 1), s.mutations, s.flags);
  }
}
