/** The CDRM5TR1 transcript: its validator, the order it enforces, and the 60 Hz carry over whole groups. */
module SchedulerTranscript {
  import opened Arithmetic
  import opened Bytes
  import opened SchedulerEvents

  // ----- What a transcript is -----

  function Priority(kind: nat): nat { if kind == CLOCK then 0 else if kind == KEYBOARD then 1 else 2 }

  // By due tick, then clock before keyboard before sequence break, then by insertion.
  predicate Before(e: Event, f: Event) {
    || e.due < f.due
    || (e.due == f.due && Priority(e.kind) < Priority(f.kind))
    || (e.due == f.due && Priority(e.kind) == Priority(f.kind) && e.insertion < f.insertion)
  }

  predicate InDomain(d: Device) {
    && d.interrupt < U16 && d.iobCsr < 64 && !Bit(d.iobCsr, 4) && d.sixtyCycle < U16 && d.usecPhase < 60
    && d.scancode < 2 * U16 && d.fifoCount <= 10
  }

  predicate EventRule(e: Event) {
    && e.generation != 0 && e.kind in {SEQUENCE_BREAK, CLOCK, KEYBOARD} && e.flags == 0
    && (e.kind == SEQUENCE_BREAK ==> e.value == 0) && (e.kind == CLOCK ==> e.value == 1)
    && (e.kind == KEYBOARD ==> e.value < U16)
    && InDomain(e.before) && InDomain(e.after) && TransitionOk(e)
  }

  // How many events before position i are due at the same tick.
  function Rank(es: seq<Event>, i: nat): nat
    requires i < |es|
  {
    RankAmong(es[..i], es[i].due)
  }

  function RankAmong(es: seq<Event>, due: nat): nat {
    if es == [] then 0 else
    RankAmong(es[..|es| - 1], due) + if es[|es| - 1].due == due then 1 else 0
  }

  predicate Apart(e: Event, f: Event) {
    && Before(e, f) && e.generation == f.generation && e.insertion != f.insertion
    && !(e.kind == KEYBOARD && f.kind == KEYBOARD && e.due == f.due)
  }

  // The order field is the rank in the due group, and a group's events act on one another's results.
  predicate Placed(es: seq<Event>, i: nat)
    requires i < |es|
  {
    es[i].order == Rank(es, i) && (i > 0 && es[i - 1].due == es[i].due ==> es[i].before == es[i - 1].after)
  }

  ghost predicate IsTranscript(es: seq<Event>) {
    && (forall i :: 0 <= i < |es| ==> EventRule(es[i]) && Placed(es, i))
    && (forall i, j :: 0 <= i < j < |es| ==> Apart(es[i], es[j]))
  }

  // ----- The validator -----

  // The checks one event must pass against its predecessor.
  predicate Follows(previous: Event, e: Event) {
    && previous.due <= e.due
    && if previous.due == e.due then
         && e.order == previous.order + 1 && Priority(previous.kind) <= Priority(e.kind)
         && (Priority(previous.kind) == Priority(e.kind) ==> previous.insertion < e.insertion)
         && e.before == previous.after
       else e.order == 0
  }

  predicate Fits(e: Event, previous: Option<Event>, generation: Option<nat>, sequences: set<nat>, keyboardDue: set<nat>) {
    && (generation.Some? ==> e.generation == generation.value) && e.insertion !in sequences
    && (e.kind == KEYBOARD ==> e.due !in keyboardDue)
    && (previous.None? ==> e.order == 0) && (previous.Some? ==> Follows(previous.value, e))
  }

  method ValidateEvent(
      e: Event, previous: Option<Event>, generation: Option<nat>, sequences: set<nat>, keyboardDue: set<nat>)
    returns (ok: bool, sequences': set<nat>, keyboardDue': set<nat>)
    ensures ok <==> EventRule(e) && Fits(e, previous, generation, sequences, keyboardDue)
    ensures ok ==> sequences' == sequences + {e.insertion}
    ensures ok ==> keyboardDue' == keyboardDue + if e.kind == KEYBOARD then {e.due} else {}
  {
    hide TransitionOk, Bit;
    sequences', keyboardDue' := sequences, keyboardDue;
    if e.generation == 0 || (generation.Some? && e.generation != generation.value) || e.insertion in sequences' {
      return false, sequences', keyboardDue';
    }
    sequences' := sequences' + {e.insertion};
    if (e.kind != SEQUENCE_BREAK && e.kind != CLOCK && e.kind != KEYBOARD) || e.flags != 0 {
      return false, sequences', keyboardDue';
    }
    if || (e.kind == SEQUENCE_BREAK && e.value != 0) || (e.kind == CLOCK && e.value != 1)
       || (e.kind == KEYBOARD && e.value > 0xFFFF) {
      return false, sequences', keyboardDue';
    }
    if e.kind == KEYBOARD {
      if e.due in keyboardDue' {
        return false, sequences', keyboardDue';
      }
      keyboardDue' := keyboardDue' + {e.due};
    }
    if !InDomain(e.before) || !InDomain(e.after) {
      return false, sequences', keyboardDue';
    }
    if previous.None? {
      if e.order != 0 {
        return false, sequences', keyboardDue';
      }
    } else if e.due < previous.value.due {
      return false, sequences', keyboardDue';
    } else if e.due == previous.value.due {
      var current, prior := Priority(e.kind), Priority(previous.value.kind);
      if || e.order != previous.value.order + 1 || current < prior
         || (current == prior && e.insertion <= previous.value.insertion) || e.before != previous.value.after {
        return false, sequences', keyboardDue';
      }
    } else if e.order != 0 {
      return false, sequences', keyboardDue';
    }
    return TransitionOk(e), sequences', keyboardDue';
  }

  // The validator's variables after some events.
  function Previous(es: seq<Event>): Option<Event> { if es == [] then None else Some(es[|es| - 1]) }

  function Generation(es: seq<Event>): Option<nat> { if es == [] then None else Some(es[|es| - 1].generation) }

  function Insertions(es: seq<Event>): set<nat> { set e | e in es :: e.insertion }

  function KeyboardTicks(es: seq<Event>): set<nat> { set e | e in es && e.kind == KEYBOARD :: e.due }

  predicate Checked(es: seq<Event>, e: Event) {
    Fits(e, Previous(es), Generation(es), Insertions(es), KeyboardTicks(es))
  }

  lemma NothingIsTranscript()
    ensures IsTranscript([]) && Insertions([]) == {} && KeyboardTicks([]) == {}
  {}

  lemma SetsGrow(es: seq<Event>, e: Event)
    ensures Insertions(es + [e]) == Insertions(es) + {e.insertion}
    ensures KeyboardTicks(es + [e]) == KeyboardTicks(es) + if e.kind == KEYBOARD then {e.due} else {}
  {
    assert forall x :: x in es + [e] <==> x in es || x == e;
  }

  lemma TranscriptPrefix(es: seq<Event>, n: nat)
    requires IsTranscript(es) && n <= |es|
    ensures IsTranscript(es[..n])
  {
    hide EventRule, Apart, RankAmong;
    forall i | 0 <= i < n
      ensures EventRule(es[..n][i]) && Placed(es[..n], i)
    {
      assert Placed(es, i);
      assert es[..n][..i] == es[..i];
    }
  }

  lemma {:induction false} NoneDue(es: seq<Event>, due: nat)
    requires forall i :: 0 <= i < |es| ==> es[i].due != due
    ensures RankAmong(es, due) == 0
    decreases |es|
  {
    if es != [] {
      NoneDue(es[..|es| - 1], due);
    }
  }

  ghost predicate AllBefore(es: seq<Event>, e: Event) { forall i :: 0 <= i < |es| ==> Apart(es[i], e) }

  lemma Snoc(es: seq<Event>, e: Event)
    requires IsTranscript(es)
    ensures IsTranscript(es + [e]) <==> EventRule(e) && Placed(es + [e], |es|) && AllBefore(es, e)
  {
    hide EventRule, Apart, RankAmong;
    var all, n := es + [e], |es|;
    forall i | 0 <= i < n
      ensures Placed(all, i)
    {
      assert Placed(es, i);
      assert all[..i] == es[..i];
    }
    if IsTranscript(all) {
      assert EventRule(all[n]) && Placed(all, n);
      forall i | 0 <= i < n
        ensures Apart(es[i], e)
      {
        assert Apart(all[i], all[n]);
      }
    }
  }

  // In the event order it is enough to look at the last event.
  lemma BeforeAll(es: seq<Event>, e: Event, i: nat)
    requires IsTranscript(es) && i < |es| && Before(es[|es| - 1], e)
    ensures Before(es[i], e) && es[i].generation == es[|es| - 1].generation
  {
    hide EventRule, Placed;
    if i < |es| - 1 {
      assert Apart(es[i], es[|es| - 1]);
    }
  }

  lemma RankOfNext(es: seq<Event>, e: Event)
    requires IsTranscript(es) && es != [] && Before(es[|es| - 1], e)
    ensures RankAmong(es, e.due) == if es[|es| - 1].due == e.due then es[|es| - 1].order + 1 else 0
  {
    var n := |es| - 1;
    assert Placed(es, n);
    hide IsTranscript;
    if es[n].due != e.due {
      forall i | 0 <= i <= n
        ensures es[i].due != e.due
      {
        DueOrder(es, i);
      }
      NoneDue(es, e.due);
    }
  }

  lemma DueOrder(es: seq<Event>, i: nat)
    requires IsTranscript(es) && i < |es|
    ensures es[i].due <= es[|es| - 1].due
  {
    hide EventRule, Placed;
    if i < |es| - 1 {
      assert Apart(es[i], es[|es| - 1]);
    }
  }

  lemma CheckedIsApart(es: seq<Event>, e: Event)
    requires IsTranscript(es) && Checked(es, e)
    ensures AllBefore(es, e) && Placed(es + [e], |es|)
  {
    hide EventRule, Placed;
    var n := |es|;
    assert (es + [e])[..n] == es;
    forall i | 0 <= i < n
      ensures Apart(es[i], e)
    {
      BeforeAll(es, e, i);
      BeforeAll(es, e, 0);
      assert es[i].insertion in Insertions(es);
      assert es[i].kind == KEYBOARD ==> es[i].due in KeyboardTicks(es);
    }
    PlacedNext(es, e);
  }

  lemma PlacedNext(es: seq<Event>, e: Event)
    requires IsTranscript(es) && (es != [] ==> Before(es[|es| - 1], e))
    ensures Placed(es + [e], |es|) <==>
              if es == [] then e.order == 0
              else if es[|es| - 1].due == e.due then e.order == es[|es| - 1].order + 1 && e.before == es[|es| - 1].after
              else e.order == 0
  {
    assert (es + [e])[..|es|] == es;
    if es != [] {
      RankOfNext(es, e);
    }
    hide IsTranscript, RankAmong;
  }

  lemma ApartIsChecked(es: seq<Event>, e: Event)
    requires IsTranscript(es) && AllBefore(es, e) && Placed(es + [e], |es|)
    ensures Checked(es, e)
  {
    hide IsTranscript, Placed;
    if es != [] {
      assert Apart(es[0], e) && Apart(es[|es| - 1], e);
    }
    PlacedNext(es, e);
  }

  // Checking the next event against its predecessor and the two sets is comparing it with every
  // event before it.
  lemma OneMore(es: seq<Event>, e: Event)
    requires IsTranscript(es)
    ensures IsTranscript(es + [e]) <==> EventRule(e) && Checked(es, e)
  {
    hide IsTranscript, EventRule, Placed, AllBefore, Checked;
    Snoc(es, e);
    if Checked(es, e) {
      CheckedIsApart(es, e);
    }
    if AllBefore(es, e) && Placed(es + [e], |es|) {
      ApartIsChecked(es, e);
    }
  }

  // ----- Whole groups -----

  function AdvanceAll(es: seq<Event>, d: Device): Device {
    if es == [] then d else
    var e := es[|es| - 1];
    Advance(e.kind, e.value, AdvanceAll(es[..|es| - 1], d))
  }

  // Events i..j of a transcript that are due at the same tick.
  ghost predicate IsGroup(es: seq<Event>, i: nat, j: nat) {
    IsTranscript(es) && i < j <= |es| && es[i].due == es[j - 1].due
  }

  lemma GroupShrinks(es: seq<Event>, i: nat, j: nat)
    requires IsGroup(es, i, j) && i + 1 < j
    ensures IsGroup(es, i, j - 1) && es[j - 1].before == es[j - 2].after
  {
    hide EventRule, RankAmong;
    assert Apart(es[i], es[j - 1]);
    assert Apart(es[j - 2], es[j - 1]);
    assert i < j - 2 ==> Apart(es[i], es[j - 2]);
    assert Placed(es, j - 1);
  }

  // The state after a group is what the machine makes of the state before it.
  lemma {:induction false} GroupIsRun(es: seq<Event>, i: nat, j: nat)
    requires IsGroup(es, i, j)
    ensures es[j - 1].after == AdvanceAll(es[i..j], es[i].before)
    decreases j
  {
    hide Advance, TransitionOk, InDomain, Apart, Placed;
    assert EventRule(es[j - 1]);
    TransitionIsStep(es[j - 1]);
    assert es[i..j][..j - 1 - i] == es[i..j - 1];
    if i + 1 < j {
      GroupShrinks(es, i, j);
      GroupIsRun(es, i, j - 1);
    }
  }

  function Clocks(es: seq<Event>): nat {
    if es == [] then 0 else Clocks(es[..|es| - 1]) + if es[|es| - 1].kind == CLOCK then 1 else 0
  }

  // The clock, its phase and the cycle counter after that many 60 Hz periods, computed in one go.
  predicate Carried(d: Device, a: Device, periods: nat) {
    var sixtieths := d.usecPhase + periods * TICK;
    && a.usecClock == (d.usecClock + sixtieths / 60) % U32 && a.usecPhase == sixtieths % 60
    && a.sixtyCycle == (d.sixtyCycle + periods) % U16
  }

  lemma NothingCarried(d: Device)
    requires InDomain(d) && d.usecClock < U32
    ensures Carried(d, d, 0)
  {}

  lemma CarriedOnce(d: Device, a: Device, b: Device, periods: nat)
    requires Carried(d, a, periods)
    requires b.usecClock == (a.usecClock + (a.usecPhase + TICK) / 60) % U32
    requires b.usecPhase == (a.usecPhase + TICK) % 60 && b.sixtyCycle == (a.sixtyCycle + 1) % U16
    ensures Carried(d, b, periods + 1)
  {
    var x := d.usecPhase + periods * TICK;
    assert x + TICK == d.usecPhase + (periods + 1) * TICK;
    var more := (x % 60 + TICK) / 60;
    assert x / 60 + more == (x + TICK) / 60 && (x % 60 + TICK) % 60 == (x + TICK) % 60;
    ModOfSum(d.usecClock + x / 60, more, U32);
    ModOfSum(d.sixtyCycle + periods, 1, U16);
  }

  lemma CarriedOn(d: Device, a: Device, b: Device, periods: nat)
    requires Carried(d, a, periods)
    requires b.usecClock == a.usecClock && b.usecPhase == a.usecPhase && b.sixtyCycle == a.sixtyCycle
    ensures Carried(d, b, periods)
  {}

  lemma ClockOnlyTicks(e: Event)
    requires EventRule(e)
    ensures var b, a := e.before, e.after;
            if e.kind == CLOCK then
              && a.usecClock == (b.usecClock + (b.usecPhase + TICK) / 60) % U32
              && a.usecPhase == (b.usecPhase + TICK) % 60 && a.sixtyCycle == (b.sixtyCycle + 1) % U16
            else
              a.usecClock == b.usecClock && a.usecPhase == b.usecPhase && a.sixtyCycle == b.sixtyCycle
  {
    hide Bit, SetBit, Merge, Posted, InDomain;
  }

  // However clocks, keys and sequence breaks fall within a group, the clock carries exactly one
  // period per clock event: nothing is lost between the steps.
  lemma {:induction false} NoDrift(es: seq<Event>, i: nat, j: nat)
    requires IsGroup(es, i, j) && es[i].before.usecClock < U32
    ensures Carried(es[i].before, es[j - 1].after, Clocks(es[i..j]))
    decreases j
  {
    hide Advance, Apart, Placed, Bit, SetBit, Merge, Posted;
    var e, d := es[j - 1], es[i].before;
    assert EventRule(e) && InDomain(d) by { assert EventRule(es[i]); }
    assert es[i..j][..j - 1 - i] == es[i..j - 1];
    var before := Clocks(es[i..j - 1]);
    assert Carried(d, e.before, before) by {
      if i + 1 < j {
        GroupShrinks(es, i, j);
        NoDrift(es, i, j - 1);
      } else {
        NothingCarried(d);
      }
    }
    ClockOnlyTicks(e);
    hide IsTranscript, EventRule, Carried, IsGroup;
    if e.kind == CLOCK {
      CarriedOnce(d, e.before, e.after, before);
    } else {
      CarriedOn(d, e.before, e.after, before);
    }
  }
}
