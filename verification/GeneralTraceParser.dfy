/** The stateful parser of general traces, and the grammar it decides. */
module GeneralTraceParser {
  import opened Bytes
  import opened GeneralTraceCodec
  import opened GeneralTraceRules

  // ----- The parser's running state -----

  datatype State = State(
    count: nat, previous: seq<Byte>, lastCycle: nat, lastNonterminalCycle: nat, final: Option<Final>,
    terminal: bool, seenInitial: bool, boundaryCount: nat, lastBoundary: Option<nat>,
    halted: bool, haltEventSeen: bool, slotPosition: int, slotClosed: bool)

  function Start(header: Header): State {
    State(0, header.seed, 0, 0, None, false, false, 0, None, false, false, -1, false)
  }

  function StepInitial(s: State, r: Record): Result<State> {
    if s.count != 0 then Err else
    Ok(s.(seenInitial := true, final := Some(Final(r.boundary, ItemOf(r.tlvs, STATE), 0))))
  }

  function StepBoundary(header: Header, s: State, r: Record): Result<State> {
    if r.boundary != header.firstBoundary + 1 + s.boundaryCount then Err else
    Ok(s.(boundaryCount := s.boundaryCount + 1, lastBoundary := Some(r.boundary),
          final := Some(Final(r.boundary, ItemOf(r.tlvs, STATE), r.flags)),
          halted := Halting(r.flags), haltEventSeen := false, slotPosition := -1, slotClosed := false))
  }

  function StepEvent(s: State, r: Record): Result<State> {
    if s.lastBoundary != Some(r.boundary) || s.final.None? then Err else
    var t :- match SlotPosition(r) {
      case None => Ok(s.(slotClosed := true))
      case Some(position) =>
        if s.slotClosed || position <= s.slotPosition then Err else Ok(s.(slotPosition := position))
    };
    :- Need(if r.eventClass == EVENT_HALT then s.halted && !s.haltEventSeen else !s.halted);
    Ok(t.(haltEventSeen := s.haltEventSeen || r.eventClass == EVENT_HALT,
          final := Some(Final(r.boundary, ItemOf(r.tlvs, STATE), s.final.value.flags))))
  }

  function StepTerminal(s: State, r: Record): Result<State> {
    if r.cycle != s.lastNonterminalCycle then Err else
    Ok(s.(terminal := true))
  }

  function StepKind(header: Header, s: State, r: Record): Result<State> {
    if r.kind == KIND_INITIAL then StepInitial(s, r)
    else if r.kind == KIND_BOUNDARY then StepBoundary(header, s, r)
    else if r.kind == KIND_EVENT then StepEvent(s, r)
    else StepTerminal(s, r)
  }

  function Step(H: Hash, header: Header, s: State, r: Record): Result<State> {
    if s.count >= MAX_RECORDS then Err else
    :- Need(r.cycle >= s.lastCycle && !s.terminal);
    :- Need(s.seenInitial || r.kind == KIND_INITIAL);
    :- Need(!(s.seenInitial && r.kind == KIND_INITIAL));
    :- Need(!s.halted || r.kind == KIND_EVENT || r.kind == KIND_TERMINAL);
    :- Need(RecordRule(H, header, r, s.previous, s.count, s.final));
    var t :- StepKind(header, s, r);
    Ok(t.(count := s.count + 1, previous := Semantic(r), lastCycle := r.cycle,
          lastNonterminalCycle := if r.kind == KIND_TERMINAL then s.lastNonterminalCycle else r.cycle))
  }

  // The state after the first n records.
  function Run(H: Hash, header: Header, records: seq<Record>, n: nat): Result<State>
    requires n <= |records|
  {
    if n == 0 then Ok(Start(header)) else
    var s :- Run(H, header, records, n - 1);
    Step(H, header, s, records[n - 1])
  }

  predicate Finished(header: Header, s: State) {
    && s.seenInitial && s.terminal
    && (header.recordCount == STREAMING_COUNT || header.recordCount == s.count)
  }

  predicate Accepted(H: Hash, header: Header, records: seq<Record>) {
    var s := Run(H, header, records, |records|);
    s.Ok? && Finished(header, s.value)
  }

  // ----- The grammar, without running state -----

  // The last boundary record before position i, or -1.
  function LastBoundary(records: seq<Record>, i: nat): (b: int)
    requires i <= |records|
    ensures -1 <= b < i
    ensures b >= 0 ==> records[b].kind == KIND_BOUNDARY
    ensures forall j :: b < j < i ==> records[j].kind != KIND_BOUNDARY
  {
    if i == 0 then -1 else if records[i - 1].kind == KIND_BOUNDARY then i - 1 else LastBoundary(records, i - 1)
  }

  function BoundaryCount(records: seq<Record>, i: nat): nat
    requires i <= |records|
  {
    if i == 0 then 0 else BoundaryCount(records, i - 1) + if records[i - 1].kind == KIND_BOUNDARY then 1 else 0
  }

  // The digest that record i must name as its predecessor.
  function PreviousAt(header: Header, records: seq<Record>, i: nat): seq<Byte>
    requires i <= |records|
  {
    if i == 0 then header.seed else Semantic(records[i - 1])
  }

  // What a terminal at position i would have to repeat.
  function FinalAt(records: seq<Record>, i: nat): Option<Final>
    requires i <= |records|
  {
    if i == 0 then None else
    var b := LastBoundary(records, i);
    Some(Final(records[i - 1].boundary, ItemOf(records[i - 1].tlvs, STATE), if b < 0 then 0 else records[b].flags))
  }

  predicate HaltedAt(records: seq<Record>, i: nat)
    requires i <= |records|
  {
    LastBoundary(records, i) >= 0 && Halting(records[LastBoundary(records, i)].flags)
  }

  // Events belong to the latest boundary, run clock, interrupt, transactions, fault, halt without
  // repetition, and end with host lifecycle observations; the halt event is exactly the event of a
  // halted boundary.
  ghost predicate EventFits(records: seq<Record>, i: nat)
    requires i < |records|
  {
    var b, r := LastBoundary(records, i), records[i];
    && b >= 0 && r.boundary == records[b].boundary
    && (SlotPosition(r).Some? ==>
          forall j :: b < j < i ==> SlotPosition(records[j]).Some? && SlotPosition(records[j]).value < SlotPosition(r).value)
    && (r.eventClass == EVENT_HALT <==> HaltedAt(records, i))
  }

  // Where record i stands among the others.
  ghost predicate OrderFits(header: Header, records: seq<Record>, i: nat)
    requires i < |records|
  {
    var r := records[i];
    && i < MAX_RECORDS
    && (r.kind == KIND_INITIAL <==> i == 0)
    && (forall j :: 0 <= j < i ==> records[j].kind != KIND_TERMINAL)
    && (i > 0 ==> records[i - 1].cycle <= r.cycle)
    && (r.kind == KIND_BOUNDARY ==>
          r.boundary == header.firstBoundary + 1 + BoundaryCount(records, i) && !HaltedAt(records, i))
    && (r.kind == KIND_EVENT ==> EventFits(records, i))
    && (r.kind == KIND_TERMINAL ==> i > 0 && r.cycle == records[i - 1].cycle)
  }

  ghost predicate RecordFits(H: Hash, header: Header, records: seq<Record>, i: nat)
    requires i < |records|
  {
    && OrderFits(header, records, i)
    && RecordRule(H, header, records[i], PreviousAt(header, records, i), i, FinalAt(records, i))
  }

  ghost predicate Grammar(H: Hash, header: Header, records: seq<Record>) {
    && records != [] && records[|records| - 1].kind == KIND_TERMINAL
    && (forall i :: 0 <= i < |records| ==> RecordFits(H, header, records, i))
    && (header.recordCount == STREAMING_COUNT || header.recordCount == |records|)
  }

  // ----- The running state says what the grammar looks back for -----

  // What has happened strictly between positions b and i.
  ghost predicate OnlyEvents(records: seq<Record>, b: int, i: nat)
    requires -1 <= b && i <= |records|
  {
    forall j :: b < j < i ==> records[j].kind == KIND_EVENT
  }

  ghost predicate HaltSeen(records: seq<Record>, b: int, i: nat)
    requires -1 <= b && i <= |records|
  {
    exists j :: b < j < i && records[j].eventClass == EVENT_HALT
  }

  ghost predicate LifecycleSeen(records: seq<Record>, b: int, i: nat)
    requires -1 <= b && i <= |records|
  {
    exists j :: b < j < i && SlotPosition(records[j]).None?
  }

  ghost predicate AllWithin(records: seq<Record>, b: int, i: nat, p: int)
    requires -1 <= b && i <= |records|
  {
    forall j :: b < j < i && SlotPosition(records[j]).Some? ==> SlotPosition(records[j]).value <= p
  }

  ghost predicate Reached(records: seq<Record>, b: int, i: nat, p: int)
    requires -1 <= b && i <= |records|
  {
    p == -1 || exists j :: b < j < i && SlotPosition(records[j]) == Some(p)
  }

  ghost predicate SlotMatches(s: State, records: seq<Record>, i: nat)
    requires i <= |records|
  {
    var b := LastBoundary(records, i);
    && (b < 0 ==> i <= 1 || s.terminal)
    && (b >= 0 && !s.terminal ==>
      && OnlyEvents(records, b, i)
      && (s.haltEventSeen <==> HaltSeen(records, b, i))
      && (s.slotClosed <==> LifecycleSeen(records, b, i))
      && AllWithin(records, b, i, s.slotPosition)
      && Reached(records, b, i, s.slotPosition))
  }

  ghost predicate ProgressMatches(header: Header, s: State, records: seq<Record>, i: nat)
    requires i <= |records|
  {
    && s.count == i && s.previous == PreviousAt(header, records, i)
    && s.lastCycle == (if i == 0 then 0 else records[i - 1].cycle)
    && (s.seenInitial <==> i > 0)
    && (s.terminal <==> exists j :: 0 <= j < i && records[j].kind == KIND_TERMINAL)
    && (!s.terminal ==> s.lastNonterminalCycle == s.lastCycle && s.final == FinalAt(records, i))
  }

  ghost predicate BoundaryMatches(s: State, records: seq<Record>, i: nat)
    requires i <= |records|
  {
    var b := LastBoundary(records, i);
    && s.boundaryCount == BoundaryCount(records, i)
    && s.lastBoundary == (if b < 0 then None else Some(records[b].boundary))
    && (s.halted <==> HaltedAt(records, i))
    && (s.haltEventSeen ==> b >= 0) && (s.slotClosed ==> b >= 0) && s.slotPosition >= -1
  }

  ghost predicate Matches(header: Header, s: State, records: seq<Record>, i: nat)
    requires i <= |records|
  {
    ProgressMatches(header, s, records, i) && BoundaryMatches(s, records, i) && SlotMatches(s, records, i)
  }

  lemma HaltIsLast(r: Record)
    ensures r.eventClass == EVENT_HALT ==> SlotPosition(r) == Some(4)
    ensures SlotPosition(r).Some? ==> SlotPosition(r).value <= 4
  {}

  lemma EventDecides(header: Header, s: State, records: seq<Record>, i: nat)
    requires i < |records| && Matches(header, s, records, i) && !s.terminal && records[i].kind == KIND_EVENT
    ensures StepEvent(s, records[i]).Ok? <==> EventFits(records, i)
  {
    var b, r := LastBoundary(records, i), records[i];
    HaltIsLast(r);
    if b >= 0 {
      forall j | b < j < i ensures records[j].eventClass == EVENT_HALT ==> SlotPosition(records[j]) == Some(4) {
        HaltIsLast(records[j]);
      }
      hide SlotPosition, ItemOf, Halting;
      if SlotPosition(r).Some? {
        var p := SlotPosition(r).value;
        if s.slotClosed {
          var j :| b < j < i && SlotPosition(records[j]).None?;
        } else if p <= s.slotPosition {
          var j :| b < j < i && SlotPosition(records[j]) == Some(s.slotPosition);
        }
      }
    }
  }

  lemma StepOkIff(H: Hash, header: Header, s: State, r: Record)
    ensures Step(H, header, s, r).Ok? <==>
            && s.count < MAX_RECORDS && r.cycle >= s.lastCycle && !s.terminal
            && (s.seenInitial <==> r.kind != KIND_INITIAL)
            && (s.halted ==> r.kind == KIND_EVENT || r.kind == KIND_TERMINAL)
            && RecordRule(H, header, r, s.previous, s.count, s.final)
            && StepKind(header, s, r).Ok?
  {
    hide RecordRule, StepKind, Semantic;
  }

  lemma KindDecides(header: Header, s: State, records: seq<Record>, i: nat)
    requires i < |records| && Matches(header, s, records, i) && !s.terminal
    requires records[i].kind in {KIND_BOUNDARY, KIND_EVENT, KIND_TERMINAL, KIND_INITIAL}
    ensures var r := records[i];
            StepKind(header, s, r).Ok? <==>
              && (r.kind == KIND_INITIAL ==> i == 0)
              && (r.kind == KIND_BOUNDARY ==> r.boundary == header.firstBoundary + 1 + BoundaryCount(records, i))
              && (r.kind == KIND_EVENT ==> EventFits(records, i))
              && (r.kind == KIND_TERMINAL ==> r.cycle == s.lastCycle)
  {
    hide StepEvent, EventFits, SlotMatches, LastBoundary, BoundaryCount, FinalAt, HaltedAt, ItemOf, Halting,
      PreviousAt;
    if records[i].kind == KIND_EVENT {
      EventDecides(header, s, records, i);
    }
  }

  lemma NotHaltedYet(records: seq<Record>)
    ensures !HaltedAt(records, 0)
  {}

  lemma StepDecides(H: Hash, header: Header, s: State, records: seq<Record>, i: nat)
    requires i < |records| && Matches(header, s, records, i)
    ensures Step(H, header, s, records[i]).Ok? <==> RecordFits(H, header, records, i)
  {
    hide Step, StepKind, RecordRule, EventFits, SlotMatches, LastBoundary, BoundaryCount, FinalAt, HaltedAt,
      PreviousAt;
    var r := records[i];
    NotHaltedYet(records);
    RuleGivesKind(H, header, r, s.previous, i, s.final);
    StepOkIff(H, header, s, r);
    if !s.terminal && r.kind in {KIND_BOUNDARY, KIND_EVENT, KIND_TERMINAL, KIND_INITIAL} {
      KindDecides(header, s, records, i);
    }
  }

  lemma RuleGivesKind(H: Hash, header: Header, r: Record, previous: seq<Byte>, index: nat, final: Option<Final>)
    ensures RecordRule(H, header, r, previous, index, final) ==>
              r.kind in {KIND_BOUNDARY, KIND_EVENT, KIND_TERMINAL, KIND_INITIAL}
  {}

  // What Step does to the fields that are not about the slot.
  lemma StepFields(H: Hash, header: Header, s: State, r: Record)
    requires Step(H, header, s, r).Ok?
    ensures var t := Step(H, header, s, r).value;
            && t.count == s.count + 1 && t.previous == Semantic(r) && t.lastCycle == r.cycle && !s.terminal
            && t.seenInitial == true && (s.seenInitial <==> r.kind != KIND_INITIAL)
            && r.kind in {KIND_BOUNDARY, KIND_EVENT, KIND_TERMINAL, KIND_INITIAL}
            && (t.terminal <==> r.kind == KIND_TERMINAL)
            && (!t.terminal ==> t.lastNonterminalCycle == r.cycle)
  {
    RuleGivesKind(H, header, r, s.previous, s.count, s.final);
    hide RecordRule, SlotPosition, ItemOf, Halting;
  }

  lemma StepSlotFields(H: Hash, header: Header, s: State, r: Record)
    requires Step(H, header, s, r).Ok?
    ensures var t := Step(H, header, s, r).value;
            && (r.kind == KIND_BOUNDARY ==>
                  && t.boundaryCount == s.boundaryCount + 1 && t.lastBoundary == Some(r.boundary)
                  && t.final == Some(Final(r.boundary, ItemOf(r.tlvs, STATE), r.flags))
                  && (t.halted <==> Halting(r.flags)) && !t.haltEventSeen && t.slotPosition == -1 && !t.slotClosed)
            && (r.kind == KIND_EVENT ==>
                  && t.boundaryCount == s.boundaryCount && t.lastBoundary == s.lastBoundary == Some(r.boundary)
                  && s.final.Some? && t.final == Some(Final(r.boundary, ItemOf(r.tlvs, STATE), s.final.value.flags))
                  && t.halted == s.halted
                  && (t.haltEventSeen <==> s.haltEventSeen || r.eventClass == EVENT_HALT)
                  && (t.slotClosed <==> s.slotClosed || SlotPosition(r).None?)
                  && (match SlotPosition(r)
                      case None => t.slotPosition == s.slotPosition
                      case Some(p) => s.slotPosition < p == t.slotPosition))
            && (r.kind == KIND_INITIAL ==>
                  t.final == Some(Final(r.boundary, ItemOf(r.tlvs, STATE), 0)) && s.count == 0)
            && (r.kind == KIND_INITIAL || r.kind == KIND_TERMINAL ==>
                  && t.boundaryCount == s.boundaryCount && t.lastBoundary == s.lastBoundary && t.halted == s.halted
                  && t.haltEventSeen == s.haltEventSeen && t.slotPosition == s.slotPosition && t.slotClosed == s.slotClosed)
  {
    hide RecordRule, SlotPosition, ItemOf, Halting;
  }

  lemma HaltSeenNext(records: seq<Record>, b: int, i: nat)
    requires -1 <= b < i < |records|
    ensures HaltSeen(records, b, i + 1) <==> HaltSeen(records, b, i) || records[i].eventClass == EVENT_HALT
  {
    if HaltSeen(records, b, i) {
      var j :| b < j < i && records[j].eventClass == EVENT_HALT;
    }
  }

  lemma LifecycleSeenNext(records: seq<Record>, b: int, i: nat)
    requires -1 <= b < i < |records|
    ensures LifecycleSeen(records, b, i + 1) <==> LifecycleSeen(records, b, i) || SlotPosition(records[i]).None?
  {
    hide SlotPosition;
    if LifecycleSeen(records, b, i) {
      var j :| b < j < i && SlotPosition(records[j]).None?;
    }
  }

  lemma PositionNext(records: seq<Record>, b: int, i: nat, p: int, q: int)
    requires -1 <= b < i < |records| && AllWithin(records, b, i, p) && Reached(records, b, i, p)
    requires match SlotPosition(records[i]) case None => q == p case Some(r) => p < r == q
    ensures AllWithin(records, b, i + 1, q) && Reached(records, b, i + 1, q)
  {
    hide SlotPosition;
    if SlotPosition(records[i]).None? && p != -1 {
      var j :| b < j < i && SlotPosition(records[j]) == Some(p);
    }
  }

  // The facts behind SlotMatches once there is a boundary.
  ghost predicate SlotFacts(s: State, records: seq<Record>, b: int, i: nat)
    requires -1 <= b && i <= |records|
  {
    && OnlyEvents(records, b, i)
    && (s.haltEventSeen <==> HaltSeen(records, b, i))
    && (s.slotClosed <==> LifecycleSeen(records, b, i))
    && AllWithin(records, b, i, s.slotPosition)
    && Reached(records, b, i, s.slotPosition)
  }

  lemma SlotFactsKept(s: State, t: State, records: seq<Record>, b: int, i: nat)
    requires 0 <= b < i < |records| && records[i].kind == KIND_EVENT && SlotFacts(s, records, b, i)
    requires t.haltEventSeen <==> s.haltEventSeen || records[i].eventClass == EVENT_HALT
    requires t.slotClosed <==> s.slotClosed || SlotPosition(records[i]).None?
    requires match SlotPosition(records[i])
             case None => t.slotPosition == s.slotPosition
             case Some(p) => s.slotPosition < p == t.slotPosition
    ensures SlotFacts(t, records, b, i + 1)
  {
    hide SlotPosition, HaltSeen, LifecycleSeen, AllWithin, Reached;
    HaltSeenNext(records, b, i);
    LifecycleSeenNext(records, b, i);
    PositionNext(records, b, i, s.slotPosition, t.slotPosition);
  }

  lemma EventSlotKept(s: State, t: State, records: seq<Record>, i: nat)
    requires i < |records| && records[i].kind == KIND_EVENT && LastBoundary(records, i) >= 0
    requires SlotMatches(s, records, i) && !s.terminal && !t.terminal
    requires t.haltEventSeen <==> s.haltEventSeen || records[i].eventClass == EVENT_HALT
    requires t.slotClosed <==> s.slotClosed || SlotPosition(records[i]).None?
    requires match SlotPosition(records[i])
             case None => t.slotPosition == s.slotPosition
             case Some(p) => s.slotPosition < p == t.slotPosition
    ensures SlotMatches(t, records, i + 1)
  {
    hide SlotPosition, OnlyEvents, HaltSeen, LifecycleSeen, AllWithin, Reached;
    SlotFactsKept(s, t, records, LastBoundary(records, i), i);
  }

  lemma SlotKept(H: Hash, header: Header, s: State, records: seq<Record>, i: nat)
    requires i < |records| && Matches(header, s, records, i) && Step(H, header, s, records[i]).Ok?
    ensures SlotMatches(Step(H, header, s, records[i]).value, records, i + 1)
  {
    var r := records[i];
    StepFields(H, header, s, r);
    StepSlotFields(H, header, s, r);
    hide Step, SlotPosition, HaltSeen, LifecycleSeen, ItemOf, Halting, PreviousAt, FinalAt, HaltedAt, BoundaryCount,
      Semantic;
    if r.kind == KIND_EVENT {
      EventSlotKept(s, Step(H, header, s, r).value, records, i);
    }
  }

  lemma LookBackNext(records: seq<Record>, i: nat)
    requires i < |records|
    ensures var r := records[i];
            && LastBoundary(records, i + 1) == (if r.kind == KIND_BOUNDARY then i else LastBoundary(records, i))
            && BoundaryCount(records, i + 1) == BoundaryCount(records, i) + (if r.kind == KIND_BOUNDARY then 1 else 0)
            && (HaltedAt(records, i + 1) <==> if r.kind == KIND_BOUNDARY then Halting(r.flags) else HaltedAt(records, i))
  {
    hide Halting;
  }

  lemma FinalNext(records: seq<Record>, i: nat)
    requires i < |records|
    requires i > 0 || records[i].kind == KIND_INITIAL
    ensures var r := records[i];
            FinalAt(records, i + 1) ==
              Some(Final(r.boundary, ItemOf(r.tlvs, STATE),
                         if r.kind == KIND_BOUNDARY then r.flags
                         else if i == 0 then 0 else FinalAt(records, i).value.flags))
  {
    hide ItemOf;
    LookBackNext(records, i);
  }

  lemma ProgressKept(H: Hash, header: Header, s: State, records: seq<Record>, i: nat)
    requires i < |records| && Matches(header, s, records, i) && Step(H, header, s, records[i]).Ok?
    ensures ProgressMatches(header, Step(H, header, s, records[i]).value, records, i + 1)
  {
    hide SlotPosition, ItemOf, SlotMatches, BoundaryMatches, Halting, Semantic, LastBoundary, FinalAt, Step;
    StepFields(H, header, s, records[i]);
    StepSlotFields(H, header, s, records[i]);
    FinalNext(records, i);
  }

  lemma BoundaryKept(H: Hash, header: Header, s: State, records: seq<Record>, i: nat)
    requires i < |records| && Matches(header, s, records, i) && Step(H, header, s, records[i]).Ok?
    ensures BoundaryMatches(Step(H, header, s, records[i]).value, records, i + 1)
  {
    hide Step, SlotPosition, ItemOf, SlotMatches, ProgressMatches, Halting, Semantic, LastBoundary, BoundaryCount,
      HaltedAt;
    StepFields(H, header, s, records[i]);
    StepSlotFields(H, header, s, records[i]);
    LookBackNext(records, i);
  }

  lemma StepKeeps(H: Hash, header: Header, s: State, records: seq<Record>, i: nat)
    requires i < |records| && Matches(header, s, records, i) && Step(H, header, s, records[i]).Ok?
    ensures Matches(header, Step(H, header, s, records[i]).value, records, i + 1)
  {
    hide Step, SlotMatches, ProgressMatches, BoundaryMatches;
    ProgressKept(H, header, s, records, i);
    BoundaryKept(H, header, s, records, i);
    SlotKept(H, header, s, records, i);
  }

  lemma StartMatches(header: Header, records: seq<Record>)
    ensures Matches(header, Start(header), records, 0)
  {}

  lemma {:induction false} RunDecides(H: Hash, header: Header, records: seq<Record>, n: nat)
    requires n <= |records|
    ensures Run(H, header, records, n).Ok? <==> forall i :: 0 <= i < n ==> RecordFits(H, header, records, i)
    ensures Run(H, header, records, n).Ok? ==> Matches(header, Run(H, header, records, n).value, records, n)
  {
    hide Step, RecordFits, LastBoundary, SlotMatches, BoundaryCount, HaltedAt, FinalAt, PreviousAt, Matches;
    if n > 0 {
      RunDecides(H, header, records, n - 1);
      var before := Run(H, header, records, n - 1);
      if before.Ok? {
        StepDecides(H, header, before.value, records, n - 1);
        if Step(H, header, before.value, records[n - 1]).Ok? {
          StepKeeps(H, header, before.value, records, n - 1);
        }
      }
    } else {
      StartMatches(header, records);
    }
  }

  // The parser with its running flags accepts exactly the grammar.
  lemma ParserDecidesGrammar(H: Hash, header: Header, records: seq<Record>)
    ensures Accepted(H, header, records) <==> Grammar(H, header, records)
  {
    hide RecordFits, SlotMatches, RecordRule;
    RunDecides(H, header, records, |records|);
    if records != [] && (forall i :: 0 <= i < |records| ==> RecordFits(H, header, records, i)) {
      TerminalIsLast(H, header, records);
    }
  }

  lemma TerminalIsLast(H: Hash, header: Header, records: seq<Record>)
    requires records != [] && forall i :: 0 <= i < |records| ==> RecordFits(H, header, records, i)
    ensures (exists j :: 0 <= j < |records| && records[j].kind == KIND_TERMINAL) <==>
            records[|records| - 1].kind == KIND_TERMINAL
  {
    hide RecordRule, EventFits;
    forall j | 0 <= j < |records| - 1 ensures records[j].kind != KIND_TERMINAL {
      assert RecordFits(H, header, records, j + 1);
    }
  }
}
