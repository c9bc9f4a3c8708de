/** The stateful parser of native-oracle traces, the grammar it decides, and what every accepted trace looks like. */
module OracleTraceParser {
  import opened Bytes
  import opened TlvFraming
  import opened OracleTraceCodec

  // Boundary flag bits.
  const S0: nat := 0
  const EXECUTED: nat := 1
  const INHIBITED: nat := 2
  const HALT: nat := 4

  const COMPLETE: nat := 0
  const ABORT: nat := 1
  const FAILURE: nat := 2

  const REASON_HALT: nat := 0
  const REASON_LIMIT: nat := 1

  function EmptyMutation(H: Hash): Digest { H(Ascii("CDRMUT1\0")) }

  // ----- Looking up items -----

  function Find(tlvs: seq<Tlv>, typ: nat): Option<Tlv>
    decreases |tlvs|
  {
    if tlvs == [] then None else if tlvs[0].typ == typ then Some(tlvs[0]) else Find(tlvs[1..], typ)
  }

  predicate Has(r: Record, typ: nat) { Find(r.tlvs, typ).Some? }

  function ValueOf(r: Record, typ: nat): seq<Byte> {
    match Find(r.tlvs, typ)
    case Some(x) => x.value
    case None => []
  }

  function Number(r: Record, typ: nat): nat { FromLE(ValueOf(r, typ)) }

  // Fields of a boundary record.
  function Ordinal(r: Record): nat { Number(r, 4) }
  function FirstMutation(r: Record): nat { Number(r, 6) }
  function Mutations(r: Record): nat { Number(r, 7) }
  predicate Flag(r: Record, bit: nat) { Bit(Number(r, 8), bit) }

  // The semantic hash of a boundary covers all its items, its predecessor's hash among them.
  function Semantic(H: Hash, r: Record): Digest { H(Ascii("CDRBOUND1\0") + EncodeTlvs(r.tlvs)) }

  // ----- Rules for one record -----

  // Whether a known item is critical, and its width unless it may have any.
  function Known(kind: nat, typ: nat): Option<(bool, Option<nat>)> {
    if kind == KIND_BOUNDARY then
      if typ in {1, 2, 3} then Some((true, Some(32)))
      else if typ in {4, 5, 6, 7} then Some((true, Some(8)))
      else if typ == 8 then Some((true, Some(4)))
      else if 100 <= typ <= 108 then Some((false, Some(32)))
      else None
    else if kind == KIND_EVENT then
      if typ in {1, 2} then Some((true, Some(4))) else if typ == 3 then Some((true, None)) else None
    else
      if typ in {1, 2} then Some((true, Some(8)))
      else if typ == 3 then Some((true, Some(32)))
      else if typ in {4, 5} then Some((true, Some(4)))
      else None
  }

  function Required(kind: nat): set<nat> {
    if kind == KIND_BOUNDARY then {1, 2, 3, 4, 6, 7, 8} else if kind == KIND_EVENT then {1, 2, 3} else {1, 2, 3, 4, 5}
  }

  predicate RequiredTlvs(r: Record) {
    && (forall typ :: typ in Required(r.kind) ==> Has(r, typ))
    && forall x :: x in r.tlvs ==>
         match Known(r.kind, x.typ)
         case None => !x.flag
         case Some(k) => x.flag == k.0 && (k.1.Some? ==> |x.value| == k.1.value)
  }

  function Components(r: Record): seq<seq<Byte>> { seq(8, i requires 0 <= i < 8 => ValueOf(r, 101 + i)) }

  function IdentityBundle(H: Hash, r: Record): Digest { H(Ascii("CDRIDENT1\0") + Join(Components(r))) }

  // The identity block of S0 is complete and names the trace.
  predicate IdentityIntact(H: Hash, uuid: seq<Byte>, r: Record) {
    && (forall typ :: 100 <= typ <= 108 ==> Has(r, typ))
    && ValueOf(r, 100) == IdentityBundle(H, r) && uuid == IdentityBundle(H, r)[..16]
  }

  predicate NoIdentity(r: Record) { forall typ :: 100 <= typ <= 108 ==> !Has(r, typ) }

  predicate IsS0(r: Record, index: nat) { r.kind == KIND_BOUNDARY && index == 0 && Ordinal(r) == 0 }

  predicate IdentityRule(H: Hash, uuid: seq<Byte>, r: Record, index: nat) {
    if IsS0(r, index) then IdentityIntact(H, uuid, r) else NoIdentity(r)
  }

  // The boundary that opens a trace.
  predicate OpeningRule(r: Record) {
    && Number(r, 8) == 1 && !Has(r, 5) && ValueOf(r, 1) == Zeros(32)
    && FirstMutation(r) == 0 && Mutations(r) == 0
  }

  // A later boundary continues the one before it.
  predicate LaterRule(r: Record, semantic: Digest, ordinal: nat, nextMutation: nat) {
    && !Flag(r, S0) && Flag(r, EXECUTED) != Flag(r, INHIBITED)
    && Has(r, 5) && Ordinal(r) == Number(r, 5) + 1 && Ordinal(r) == ordinal + 1
    && ValueOf(r, 1) == semantic && FirstMutation(r) == nextMutation
  }

  predicate CommonBoundaryRule(H: Hash, r: Record) {
    Number(r, 8) < 32 && (Mutations(r) == 0 ==> ValueOf(r, 3) == EmptyMutation(H))
  }

  predicate ValidEnding(status: nat, reason: nat) {
    || (status == COMPLETE && reason in {REASON_HALT, REASON_LIMIT})
    || (status == ABORT && reason == 2)
    || (status == FAILURE && reason == 3)
  }

  // ----- The parser's running state -----

  // Semantic hash and ordinal of the latest boundary.
  datatype Latest = Latest(semantic: Digest, ordinal: nat)

  datatype State = State(
    count: nat, priorCycle: nat, terminal: bool, latest: Option<Latest>, nextMutation: nat,
    sawEvent: bool, halted: bool, identified: bool)

  const START: State := State(0, 0, false, None, 0, false, false, false)

  function StepBoundary(H: Hash, s: State, r: Record): Result<State> {
    if !CommonBoundaryRule(H, r) || s.halted then Err else
    :- Need(if Ordinal(r) == 0 then s.latest.None? && OpeningRule(r)
            else s.latest.Some? && LaterRule(r, s.latest.value.semantic, s.latest.value.ordinal, s.nextMutation));
    Ok(s.(latest := Some(Latest(Semantic(H, r), Ordinal(r))), nextMutation := FirstMutation(r) + Mutations(r),
          halted := s.halted || Flag(r, HALT)))
  }

  function StepEvent(s: State): Result<State> {
    if s.halted then Err else
    Ok(s.(sawEvent := true))
  }

  function StepTerminal(s: State, r: Record): Result<State> {
    var status, reason := Number(r, 4), Number(r, 5);
    :- Need(ValidEnding(status, reason) && Number(r, 1) == s.count + 1);
    :- Need(match s.latest
            case None => Number(r, 2) == STREAMING_COUNT && ValueOf(r, 3) == Zeros(32)
            case Some(b) => Number(r, 2) == b.ordinal && ValueOf(r, 3) == b.semantic);
    :- Need(status == COMPLETE ==> s.latest.Some? && !s.sawEvent && (s.halted <==> reason == REASON_HALT));
    Ok(s.(terminal := true))
  }

  function StepKind(H: Hash, s: State, r: Record): Result<State> {
    if r.kind == KIND_BOUNDARY then StepBoundary(H, s, r)
    else if r.kind == KIND_EVENT then StepEvent(s)
    else StepTerminal(s, r)
  }

  function Step(H: Hash, uuid: seq<Byte>, s: State, r: Record): Result<State> {
    if s.count >= MAX_RECORDS || r.sequence != s.count || (s.count > 0 && r.cycle < s.priorCycle) then Err else
    :- Need(RequiredTlvs(r) && IdentityRule(H, uuid, r, s.count) && !s.terminal);
    var t :- StepKind(H, s, r);
    Ok(t.(count := s.count + 1, priorCycle := r.cycle, identified := s.identified || IsS0(r, s.count)))
  }

  function Run(H: Hash, uuid: seq<Byte>, records: seq<Record>, n: nat): Result<State>
    requires n <= |records|
  {
    if n == 0 then Ok(START) else
    var s :- Run(H, uuid, records, n - 1);
    Step(H, uuid, s, records[n - 1])
  }

  predicate Finished(header: Header, s: State) {
    s.terminal && s.identified && (header.recordCount == STREAMING_COUNT || header.recordCount == s.count)
  }

  predicate Accepted(H: Hash, header: Header, records: seq<Record>) {
    var s := Run(H, header.uuid, records, |records|);
    s.Ok? && Finished(header, s.value)
  }

  // ----- The grammar, without running state -----

  predicate AllKinds(records: seq<Record>) {
    forall i :: 0 <= i < |records| ==> records[i].kind in {KIND_BOUNDARY, KIND_EVENT, KIND_TERMINAL}
  }

  // The last boundary record before position i, or -1.
  function LastBoundary(records: seq<Record>, i: nat): (b: int)
    requires i <= |records|
    ensures -1 <= b < i
    ensures b >= 0 ==> records[b].kind == KIND_BOUNDARY
    ensures forall j :: b < j < i ==> records[j].kind != KIND_BOUNDARY
  {
    if i == 0 then -1 else if records[i - 1].kind == KIND_BOUNDARY then i - 1 else LastBoundary(records, i - 1)
  }

  ghost predicate HasEvent(records: seq<Record>, i: nat)
    requires i <= |records|
  {
    exists j :: 0 <= j < i && records[j].kind == KIND_EVENT
  }

  predicate HaltedAt(records: seq<Record>, i: nat)
    requires i <= |records|
  {
    LastBoundary(records, i) >= 0 && Flag(records[LastBoundary(records, i)], HALT)
  }

  ghost predicate BoundaryFits(H: Hash, records: seq<Record>, i: nat)
    requires i < |records|
  {
    var b, r := LastBoundary(records, i), records[i];
    && CommonBoundaryRule(H, r) && !HaltedAt(records, i)
    && (b < 0 ==> Ordinal(r) == 0 && OpeningRule(r))
    && (b >= 0 ==>
          && Ordinal(r) != 0
          && LaterRule(r, Semantic(H, records[b]), Ordinal(records[b]), FirstMutation(records[b]) + Mutations(records[b])))
  }

  ghost predicate TerminalFits(H: Hash, records: seq<Record>, i: nat)
    requires i < |records|
  {
    var b, r := LastBoundary(records, i), records[i];
    var status, reason := Number(r, 4), Number(r, 5);
    && ValidEnding(status, reason) && Number(r, 1) == i + 1
    && (b < 0 ==> Number(r, 2) == STREAMING_COUNT && ValueOf(r, 3) == Zeros(32))
    && (b >= 0 ==> Number(r, 2) == Ordinal(records[b]) && ValueOf(r, 3) == Semantic(H, records[b]))
    && (status == COMPLETE ==> b >= 0 && !HasEvent(records, i) && (HaltedAt(records, i) <==> reason == REASON_HALT))
  }

  ghost predicate RecordFits(H: Hash, uuid: seq<Byte>, records: seq<Record>, i: nat)
    requires i < |records|
  {
    var r := records[i];
    && i < MAX_RECORDS && r.sequence == i && (i > 0 ==> records[i - 1].cycle <= r.cycle)
    && RequiredTlvs(r) && IdentityRule(H, uuid, r, i)
    && (forall j :: 0 <= j < i ==> records[j].kind != KIND_TERMINAL)
    && (r.kind == KIND_BOUNDARY ==> BoundaryFits(H, records, i))
    && (r.kind == KIND_EVENT ==> !HaltedAt(records, i))
    && (r.kind == KIND_TERMINAL ==> TerminalFits(H, records, i))
  }

  ghost predicate Grammar(H: Hash, header: Header, records: seq<Record>) {
    && records != [] && IsS0(records[0], 0) && records[|records| - 1].kind == KIND_TERMINAL
    && (forall i :: 0 <= i < |records| ==> RecordFits(H, header.uuid, records, i))
    && (header.recordCount == STREAMING_COUNT || header.recordCount == |records|)
  }

  ghost predicate Matches(H: Hash, s: State, records: seq<Record>, i: nat)
    requires i <= |records|
  {
    var b := LastBoundary(records, i);
    && s.count == i && (i > 0 ==> s.priorCycle == records[i - 1].cycle)
    && (s.terminal <==> exists j :: 0 <= j < i && records[j].kind == KIND_TERMINAL)
    && s.latest == (if b < 0 then None else Some(Latest(Semantic(H, records[b]), Ordinal(records[b]))))
    && s.nextMutation == (if b < 0 then 0 else FirstMutation(records[b]) + Mutations(records[b]))
    && (s.sawEvent <==> HasEvent(records, i))
    && (s.halted <==> HaltedAt(records, i))
    && (s.identified <==> i > 0 && IsS0(records[0], 0))
  }

  lemma LookBackNext(records: seq<Record>, i: nat)
    requires i < |records|
    ensures var r := records[i];
            && LastBoundary(records, i + 1) == (if r.kind == KIND_BOUNDARY then i else LastBoundary(records, i))
            && (HaltedAt(records, i + 1) <==> if r.kind == KIND_BOUNDARY then Flag(r, HALT) else HaltedAt(records, i))
            && (HasEvent(records, i + 1) <==> HasEvent(records, i) || r.kind == KIND_EVENT)
  {
    hide Flag;
    if HasEvent(records, i) {
      var j :| 0 <= j < i && records[j].kind == KIND_EVENT;
    }
  }

  lemma KindDecides(H: Hash, s: State, records: seq<Record>, i: nat)
    requires i < |records| && Matches(H, s, records, i) && records[i].kind in {KIND_BOUNDARY, KIND_EVENT, KIND_TERMINAL}
    ensures var r := records[i];
            StepKind(H, s, r).Ok? <==>
              && (r.kind == KIND_BOUNDARY ==> BoundaryFits(H, records, i))
              && (r.kind == KIND_EVENT ==> !HaltedAt(records, i))
              && (r.kind == KIND_TERMINAL ==> TerminalFits(H, records, i))
  {
    hide Flag, Number, ValueOf, Has, HasEvent, HaltedAt, Semantic, IsS0, ValidEnding, OpeningRule, LaterRule,
      CommonBoundaryRule, EmptyMutation;
  }

  lemma StepDecides(H: Hash, uuid: seq<Byte>, s: State, records: seq<Record>, i: nat)
    requires i < |records| && Matches(H, s, records, i) && records[i].kind in {KIND_BOUNDARY, KIND_EVENT, KIND_TERMINAL}
    ensures Step(H, uuid, s, records[i]).Ok? <==> RecordFits(H, uuid, records, i)
  {
    hide StepKind, BoundaryFits, TerminalFits, HaltedAt, HasEvent, LastBoundary, RequiredTlvs, IdentityRule, IsS0,
      Semantic, Ordinal, FirstMutation, Mutations;
    KindDecides(H, s, records, i);
  }

  lemma StepKeeps(H: Hash, uuid: seq<Byte>, s: State, records: seq<Record>, i: nat)
    requires i < |records| && Matches(H, s, records, i) && records[i].kind in {KIND_BOUNDARY, KIND_EVENT, KIND_TERMINAL}
    requires Step(H, uuid, s, records[i]).Ok?
    ensures Matches(H, Step(H, uuid, s, records[i]).value, records, i + 1)
  {
    hide Flag, Number, ValueOf, Has, HasEvent, HaltedAt, Semantic, ValidEnding, OpeningRule, LaterRule,
      CommonBoundaryRule, RequiredTlvs, IdentityRule, LastBoundary, Ordinal, FirstMutation, Mutations;
    LookBackNext(records, i);
  }

  lemma {:induction false} RunDecides(H: Hash, uuid: seq<Byte>, records: seq<Record>, n: nat)
    requires n <= |records| && AllKinds(records)
    ensures Run(H, uuid, records, n).Ok? <==> forall i :: 0 <= i < n ==> RecordFits(H, uuid, records, i)
    ensures Run(H, uuid, records, n).Ok? ==> Matches(H, Run(H, uuid, records, n).value, records, n)
  {
    hide Step, RecordFits, Matches;
    if n > 0 {
      RunDecides(H, uuid, records, n - 1);
      var before := Run(H, uuid, records, n - 1);
      if before.Ok? {
        StepDecides(H, uuid, before.value, records, n - 1);
        if Step(H, uuid, before.value, records[n - 1]).Ok? {
          StepKeeps(H, uuid, before.value, records, n - 1);
        }
      }
    } else {
      StartMatches(H, records);
    }
  }

  lemma StartMatches(H: Hash, records: seq<Record>)
    ensures Matches(H, START, records, 0)
  {}

  lemma TerminalIsLast(H: Hash, uuid: seq<Byte>, records: seq<Record>)
    requires records != [] && forall i :: 0 <= i < |records| ==> RecordFits(H, uuid, records, i)
    ensures forall j :: 0 <= j < |records| - 1 ==> records[j].kind != KIND_TERMINAL
  {
    hide RequiredTlvs, IdentityRule, BoundaryFits, TerminalFits, HaltedAt;
    assert RecordFits(H, uuid, records, |records| - 1);
  }

  // The parser with its running state accepts exactly the grammar.
  lemma ParserDecidesGrammar(H: Hash, header: Header, records: seq<Record>)
    requires AllKinds(records)
    ensures Accepted(H, header, records) <==> Grammar(H, header, records)
  {
    hide RecordFits, AllKinds, IsS0, HaltedAt, HasEvent, LastBoundary, Semantic, Ordinal, FirstMutation, Mutations,
      Run;
    RunDecides(H, header.uuid, records, |records|);
    if records != [] && forall i :: 0 <= i < |records| ==> RecordFits(H, header.uuid, records, i) {
      TerminalIsLast(H, header.uuid, records);
    }
    if records == [] {
      EmptyRun(H, header.uuid);
    }
  }

  lemma EmptyRun(H: Hash, uuid: seq<Byte>)
    ensures Run(H, uuid, [], 0) == Ok(START)
  {}
}
