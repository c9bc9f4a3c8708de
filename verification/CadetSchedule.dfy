/** The whole key schedule, from texts to numbered batches, and the witness's check of it. */
module CadetSchedule {
  import opened Bytes
  import opened CadetFrames
  import opened CadetPacing

  const BOOT_START: int := 25_000_000
  const N_START: int := 27_000_000

  // Events in transport batches: those sent before form A is observed, and those after.
  datatype Plan = Plan(pre: seq<seq<Event>>, post: seq<seq<Event>>, count: nat)

  // Characters in a burst and the pause after it.
  type Bursting = Option<(int, int)>

  // ----- The four groups of events -----

  function LastDue(es: seq<Event>): int
    requires es != []
  {
    es[|es| - 1].due
  }

  function Form(phase: Phase, start: int, text: string, values: Mapping, bursting: Bursting): Result<seq<Event>> {
    match bursting
    case None =>
      var codes :- WireOf(text, values);
      Ok(Batch(phase, start, codes))
    case Some((chars, pause)) =>
      :- Need(chars >= 1 && pause >= 1);
      var strokes :- Strokes(text, values);
      assert forall i :: 0 <= i < |strokes| ==> strokes[i] != [] by { StrokesJoin(text, values); }
      Ok(Bursts(phase, strokes, start, chars, pause, |strokes|))
  }

  // A form types its text's frames, starting at its start, in strictly increasing order.
  lemma FormIsPaced(phase: Phase, start: int, text: string, values: Mapping, bursting: Bursting)
    requires text != [] && Form(phase, start, text, values, bursting).Ok?
    ensures var es := Form(phase, start, text, values, bursting).value;
            && es != [] && es[0].due == start && Increasing(es)
            && WireOf(text, values) == Ok(Codes(es))
  {
    hide WireOf, Batch, Bursts, Paced, Codes, Increasing;
    StrokesJoin(text, values);
    WireNotEmpty(text, values);
    match bursting
    case None =>
      BatchPaced(phase, start, WireOf(text, values).value, 1);
      BatchIncreases(phase, start, WireOf(text, values).value);
    case Some((chars, pause)) =>
      var s := Strokes(text, values).value;
      BurstsPaced(phase, s, start, chars, pause, |s|);
      ChunkedBatchIncreases(phase, s, start, chars, pause);
      assert s[..|s|] == s;
  }

  lemma WireNotEmpty(text: string, values: Mapping)
    requires text != [] && WireOf(text, values).Ok?
    ensures WireOf(text, values).value != []
  {
    var n := |text| - 1;
    assert text == text[..n] + [text[n]];
    WireGrows(text[..n], text[n], values);
    StrokeNotEmpty(KeyOf(text[n], values).value);
  }

  function WithReturn(values: Mapping): Mapping
    requires "return" in values.names
  {
    values.(names := values.names["\r" := values.names["return"]])
  }

  function Groups(values: Mapping, aText: string, bText: string, aStart: int, hold: int, bursting: Bursting): (r: Result<seq<seq<Event>>>)
    ensures r.Ok? ==> |r.value| == 4
  {
    if hold < 1 || "return" !in values.names || "N" !in values.names then Err else
    var expanded := WithReturn(values);
    var boot :- Form(Boot, BOOT_START, "\r", expanded, None);
    var n :- Form(Boot, N_START, "N\r", expanded, None);
    var a :- Form(FormA, aStart, aText + "\r", expanded, bursting);
    assert a != [] by { FormIsPaced(FormA, aStart, aText + "\r", expanded, bursting); }
    var b :- Form(FormB, LastDue(a) + hold, bText + "\r", expanded, bursting);
    Ok([boot, n, a, b])
  }

  // ----- Numbering -----

  function NumberFrom(es: seq<Event>, first: nat): (r: seq<Event>)
    ensures |r| == |es|
  {
    seq(|es|, i requires 0 <= i < |es| => es[i].(index := Some(first + i)))
  }

  // Group g is numbered on from the groups before it.
  function Numbered(groups: seq<seq<Event>>): (r: seq<seq<Event>>)
    ensures |r| == |groups|
  {
    if groups == [] then [] else
    var n := |groups| - 1;
    Numbered(groups[..n]) + [NumberFrom(groups[n], |Flatten(groups[..n])|)]
  }

  lemma {:induction false} NumberedFlat(groups: seq<seq<Event>>)
    ensures Flatten(Numbered(groups)) == NumberFrom(Flatten(groups), 0)
    decreases |groups|
  {
    if groups != [] {
      var n := |groups| - 1;
      NumberedFlat(groups[..n]);
      assert Numbered(groups)[..n] == Numbered(groups[..n]);
    }
  }

  lemma {:induction false} NumberedGroup(groups: seq<seq<Event>>, g: nat)
    requires g < |groups|
    ensures Numbered(groups)[g] == NumberFrom(groups[g], |Flatten(groups[..g])|)
    decreases |groups|
  {
    var n := |groups| - 1;
    if g < n {
      NumberedGroup(groups[..n], g);
      assert groups[..n][..g] == groups[..g];
    }
  }

  method AssignIndices(groups: seq<seq<Event>>) returns (r: seq<seq<Event>>, count: nat)
    ensures r == Numbered(groups) && count == |Flatten(groups)|
  {
    r, count := [], 0;
    for g := 0 to |groups|
      invariant r == Numbered(groups[..g]) && count == |Flatten(groups[..g])|
    {
      var first, group := count, groups[g];
      var done: seq<Event> := [];
      for i := 0 to |group|
        invariant count == first + i && done == NumberFrom(group[..i], first)
      {
        done := done + [group[i].(index := Some(count))];
        count := count + 1;
      }
      assert group[..|group|] == group;
      assert groups[..g + 1][..g] == groups[..g];
      r := r + [done];
    }
    assert groups[..|groups|] == groups;
  }

  // ----- The schedule -----

  function PlanOf(groups: seq<seq<Event>>): Plan
    requires |groups| == 4
  {
    var g := Numbered(groups);
    Plan(Chunks(g[0]) + Chunks(g[1]) + Chunks(g[2]), Chunks(g[3]), |Flatten(groups)|)
  }

  method BuildForm(phase: Phase, start: int, text: string, values: Mapping, bursting: Bursting) returns (r: Result<seq<Event>>)
    ensures r == Form(phase, start, text, values, bursting)
  {
    StrokesJoin(text, values);
    hide WireOf, Batch, Bursts;
    match bursting {
      case None =>
        var codes := Transitions(text, values);
        if codes.Err? {
          return Err;
        }
        return Ok(Batch(phase, start, codes.value));
      case Some((chars, pause)) =>
        r := ChunkedBatch(phase, start, text, values, chars, pause);
    }
  }

  method Schedule(values: Mapping, aText: string, bText: string, aStart: int, hold: int, bursting: Bursting)
    returns (r: Result<Plan>)
    ensures var groups := Groups(values, aText, bText, aStart, hold, bursting);
            r == if groups.Ok? then Ok(PlanOf(groups.value)) else Err
  {
    hide Form, Batch, Chunks, Numbered, Flatten;
    if hold < 1 || "return" !in values.names || "N" !in values.names {
      return Err;
    }
    var expanded := WithReturn(values);
    var boot := BuildForm(Boot, BOOT_START, "\r", expanded, None);
    if boot.Err? {
      return Err;
    }
    var n := BuildForm(Boot, N_START, "N\r", expanded, None);
    if n.Err? {
      return Err;
    }
    var a := BuildForm(FormA, aStart, aText + "\r", expanded, bursting);
    if a.Err? {
      return Err;
    }
    FormIsPaced(FormA, aStart, aText + "\r", expanded, bursting);
    var b := BuildForm(FormB, LastDue(a.value) + hold, bText + "\r", expanded, bursting);
    if b.Err? {
      return Err;
    }
    var groups, count := AssignIndices([boot.value, n.value, a.value, b.value]);
    return Ok(Plan(Chunks(groups[0]) + Chunks(groups[1]) + Chunks(groups[2]), Chunks(groups[3]), count));
  }

  // ----- Numbers -----

  lemma FlattenFour<T>(g: seq<seq<T>>)
    requires |g| == 4
    ensures Flatten(g) == g[0] + g[1] + g[2] + g[3]
  {
    assert g[..3][..2] == g[..2] && g[..2][..1] == g[..1] && g[..1][..0] == [];
    assert Flatten(g[..0]) == [] && [] + g[0] == g[0];
    assert Flatten(g[..1]) == Flatten(g[..1][..0]) + g[..1][0] == g[0];
    assert Flatten(g[..2]) == Flatten(g[..2][..1]) + g[..2][1] == g[0] + g[1];
    assert Flatten(g[..3]) == Flatten(g[..3][..2]) + g[..3][2] == g[0] + g[1] + g[2];
  }

  // Sent in order, batch after batch, the events are the four groups numbered 0, 1, 2, ... without a gap.
  lemma NumbersRunThrough(groups: seq<seq<Event>>)
    requires |groups| == 4
    ensures var p := PlanOf(groups);
            && Flatten(p.pre) + Flatten(p.post) == NumberFrom(Flatten(groups), 0)
            && p.count == |Flatten(groups)|
  {
    var g := Numbered(groups);
    NumberedFlat(groups);
    FlattenFour(g);
    FlattenPlan(g);
  }

  lemma FlattenPlan<T>(g: seq<seq<T>>)
    requires |g| == 4
    ensures Flatten(Chunks(g[0]) + Chunks(g[1]) + Chunks(g[2])) == g[0] + g[1] + g[2]
    ensures Flatten(Chunks(g[3])) == g[3]
  {
    hide Chunks, Flatten;
    forall k | 0 <= k < 4
      ensures Flatten(Chunks(g[k])) == g[k]
    {
      ChunksPartition(g[k]);
    }
    FlattenJoin(Chunks(g[0]) + Chunks(g[1]), Chunks(g[2]));
    FlattenJoin(Chunks(g[0]), Chunks(g[1]));
  }

  // ----- Deadlines -----

  lemma JoinIncreases(a: seq<Event>, b: seq<Event>)
    requires Increasing(a) && Increasing(b) && a != [] && b != []
    ensures Increasing(a + b) <==> LastDue(a) < b[0].due
  {
    var c, n := a + b, |a|;
    assert c[n - 1] == a[n - 1] && c[n] == b[0];
    if LastDue(a) < b[0].due {
      forall i, j | 0 <= i < j < |c|
        ensures c[i].due < c[j].due
      {
        if i < n <= j {
          assert c[i].due <= a[n - 1].due && b[0].due <= b[j - n].due;
        }
      }
    }
  }

  lemma IncreasingPrefix(a: seq<Event>, b: seq<Event>)
    requires Increasing(a + b)
    ensures Increasing(a)
  {
    forall i, j | 0 <= i < j < |a|
      ensures a[i].due < a[j].due
    {
      assert (a + b)[i] == a[i] && (a + b)[j] == a[j];
    }
  }

  lemma BootEndsInTime(values: Mapping)
    requires Form(Boot, BOOT_START, "\r", values, None).Ok?
    ensures var es := Form(Boot, BOOT_START, "\r", values, None).value;
            1 <= |es| <= 4 && LastDue(es) < N_START
  {
    OneStroke('\r', values);
  }

  lemma OneStroke(c: char, values: Mapping)
    requires WireOf([c], values).Ok?
    ensures 2 <= |WireOf([c], values).value| <= 4
  {
    hide WireOf, KeyOf;
    NothingTyped(values);
    WireGrows([], c, values);
    assert [] + [c] == [c];
  }

  lemma BootFitsOneBatch(values: Mapping)
    requires WireOf("N\r", values).Ok?
    ensures |WireOf("N\r", values).value| <= BATCH
  {
    hide WireOf, KeyOf;
    assert "N\r" == "N" + ['\r'];
    WireGrows("N", '\r', values);
    OneStroke('N', values);
  }

  // The text a group types.
  function TextOf(k: nat, aText: string, bText: string): string {
    if k == 0 then "\r" else if k == 1 then "N\r" else (if k == 2 then aText else bText) + "\r"
  }

  lemma GroupFacts(values: Mapping, aText: string, bText: string, aStart: int, hold: int, bursting: Bursting)
    requires Groups(values, aText, bText, aStart, hold, bursting).Ok?
    ensures var g := Groups(values, aText, bText, aStart, hold, bursting).value;
            && "return" in values.names
            && (forall k :: 0 <= k < 4 ==>
                  g[k] != [] && Increasing(g[k]) && WireOf(TextOf(k, aText, bText), WithReturn(values)) == Ok(Codes(g[k])))
            && |g[0]| <= BATCH && |g[1]| <= BATCH && LastDue(g[0]) < N_START == g[1][0].due
            && g[2][0].due == aStart && g[3][0].due == LastDue(g[2]) + hold && hold >= 1
  {
    hide Form, WireOf, Increasing, Codes, WithReturn;
    var g := Groups(values, aText, bText, aStart, hold, bursting).value;
    var expanded := WithReturn(values);
    FormIsPaced(Boot, BOOT_START, "\r", expanded, None);
    FormIsPaced(Boot, N_START, "N\r", expanded, None);
    FormIsPaced(FormA, aStart, aText + "\r", expanded, bursting);
    FormIsPaced(FormB, LastDue(g[2]) + hold, bText + "\r", expanded, bursting);
    BootEndsInTime(expanded);
    BootFitsOneBatch(expanded);
  }

  // When the last boot event is due: the second text is sent without bursts.
  function BootEnd(values: Mapping): int
    requires "return" in values.names && WireOf("N\r", WithReturn(values)).Ok?
  {
    WireNotEmpty("N\r", WithReturn(values));
    N_START + Spacing(|WireOf("N\r", WithReturn(values)).value| - 1)
  }

  lemma BootEndIsLastDue(values: Mapping, aText: string, bText: string, aStart: int, hold: int, bursting: Bursting)
    requires Groups(values, aText, bText, aStart, hold, bursting).Ok?
    ensures "return" in values.names && WireOf("N\r", WithReturn(values)).Ok?
    ensures var g := Groups(values, aText, bText, aStart, hold, bursting).value;
            g[1] != [] && LastDue(g[1]) == BootEnd(values)
  {
    hide WireOf, WithReturn, Spacing;
    WireNotEmpty("N\r", WithReturn(values));
  }

  // The deadlines of the whole schedule strictly increase exactly when form A starts after the last
  // boot event; form B follows form A by the hold.
  lemma DeadlinesIncrease(values: Mapping, aText: string, bText: string, aStart: int, hold: int, bursting: Bursting)
    requires Groups(values, aText, bText, aStart, hold, bursting).Ok?
    ensures "return" in values.names && WireOf("N\r", WithReturn(values)).Ok?
    ensures var g := Groups(values, aText, bText, aStart, hold, bursting).value;
            && (forall k :: 0 <= k < 4 ==> g[k] != [] && Increasing(g[k]))
            && g[2][0].due == aStart && g[3][0].due == LastDue(g[2]) + hold
            && (Increasing(Flatten(g)) <==> BootEnd(values) < aStart)
  {
    hide *;
    BootEndIsLastDue(values, aText, bText, aStart, hold, bursting);
    var g := Groups(values, aText, bText, aStart, hold, bursting).value;
    GroupFacts(values, aText, bText, aStart, hold, bursting);
    FlattenFour(g);
    FourIncrease(g[0], g[1], g[2], g[3]);
  }

  // Whatever the key mapping, the second boot text has from four to eight frames.
  lemma BootEndBounds(values: Mapping)
    requires "return" in values.names && WireOf("N\r", WithReturn(values)).Ok?
    ensures N_START < BootEnd(values) <= N_START + Spacing(7)
  {
    hide KeyOf, WithReturn;
    var expanded := WithReturn(values);
    assert "N\r" == "N" + ['\r'];
    WireGrows("N", '\r', expanded);
    OneStroke('N', expanded);
  }

  const RELEASE_A_START: int := 50_000_000

  // The release's start of form A therefore suits every key mapping and every pair of texts.
  lemma ReleaseIncreases(values: Mapping, aText: string, bText: string, hold: int, bursting: Bursting)
    requires Groups(values, aText, bText, RELEASE_A_START, hold, bursting).Ok?
    ensures Increasing(Flatten(Groups(values, aText, bText, RELEASE_A_START, hold, bursting).value))
  {
    hide Groups, WireOf, WithReturn, BootEnd, Increasing, Flatten;
    DeadlinesIncrease(values, aText, bText, RELEASE_A_START, hold, bursting);
    BootEndBounds(values);
  }

  // A keyboard of two keys, and a start of form A that the builder takes though the boot text is not over.
  function TwoKeys(): Mapping { Mapping(map["return" := Key(1, Unshift), "N" := Key(2, Unshift)], c => [c]) }

  lemma EarlyStartOverlaps()
    ensures Groups(TwoKeys(), "", "", N_START, 1, None).Ok?
    ensures !Increasing(Flatten(Groups(TwoKeys(), "", "", N_START, 1, None).value))
  {
    TwoKeysType();
    hide WireOf, WithReturn, TwoKeys, BootEnd, Increasing, Flatten, Batch;
    assert "" + "\r" == "\r";
    DeadlinesIncrease(TwoKeys(), "", "", N_START, 1, None);
    BootEndBounds(TwoKeys());
  }

  lemma TwoKeysType()
    ensures "return" in TwoKeys().names && "N" in TwoKeys().names
    ensures WireOf("\r", WithReturn(TwoKeys())).Ok? && WireOf("N\r", WithReturn(TwoKeys())).Ok?
  {
    TwoKeysFound();
    OneMoreTyped("", '\r', WithReturn(TwoKeys()));
    OneMoreTyped("", 'N', WithReturn(TwoKeys()));
    OneMoreTyped("N", '\r', WithReturn(TwoKeys()));
    hide *;
    assert "" + ['\r'] == "\r" && "" + ['N'] == "N" && "N" + ['\r'] == "N\r";
  }

  lemma TwoKeysFound()
    ensures "return" in TwoKeys().names && "N" in TwoKeys().names
    ensures WireOf("", WithReturn(TwoKeys())).Ok?
    ensures forall c :: c in {'\r', 'N'} ==>
              var k := KeyOf(c, WithReturn(TwoKeys()));
              k.Ok? && k.value.plane == Unshift
  {
    hide WireOf;
    NothingTyped(WithReturn(TwoKeys()));
  }

  lemma OneMoreTyped(text: string, c: char, values: Mapping)
    requires KeyOf(c, values).Ok? && KeyOf(c, values).value.plane == Unshift
    ensures WireOf(text, values).Ok? ==> WireOf(text + [c], values).Ok?
  {
    hide WireOf, KeyOf;
    WireGrows(text, c, values);
  }

  lemma FourIncrease(a: seq<Event>, b: seq<Event>, c: seq<Event>, d: seq<Event>)
    requires Increasing(a) && Increasing(b) && Increasing(c) && Increasing(d)
    requires a != [] && b != [] && c != [] && d != []
    requires LastDue(a) < b[0].due && LastDue(c) < d[0].due
    ensures Increasing(a + b + c + d) <==> LastDue(b) < c[0].due
  {
    hide Increasing;
    JoinIncreases(a, b);
    JoinIncreases(a + b, c);
    if Increasing(a + b + c) {
      JoinIncreases(a + b + c, d);
    }
    if Increasing(a + b + c + d) {
      IncreasingPrefix(a + b + c, d);
    }
  }

  // ----- The witness's check -----

  // What the validator reads back: the first batch, the second, the rest of the first part, the second part.
  function ValidatorWires(p: Plan): seq<seq<nat>>
    requires |p.pre| >= 3
  {
    [Codes(p.pre[0]), Codes(p.pre[1]), Codes(Flatten(p.pre[2..])), Codes(Flatten(p.post))]
  }

  predicate WiresAccepted(p: Plan) {
    && |p.pre| >= 3 && p.post != []
    && forall k :: 0 <= k < 4 ==> ValidatorWires(p)[k] != [] && AllUp(ValidatorWires(p)[k])
  }

  method ValidateSchedule(p: Plan) returns (ok: bool)
    ensures ok <==> WiresAccepted(p)
  {
    if |p.pre| < 3 || p.post == [] {
      return false;
    }
    var wires := ValidatorWires(p);
    for k := 0 to 4
      invariant forall j :: 0 <= j < k ==> wires[j] != [] && AllUp(wires[j])
    {
      var valid := ValidateGroup(wires[k]);
      if !valid {
        return false;
      }
    }
    return true;
  }

  predicate AllTypable(text: string, values: Mapping) {
    KeysOf(text, values).Ok? && forall k :: k in KeysOf(text, values).value ==> Typable(k)
  }

  lemma WireAccepted(text: string, values: Mapping)
    requires WireOf(text, values).Ok?
    ensures AllUp(WireOf(text, values).value) <==> AllTypable(text, values)
  {
    AcceptedIffTypable(KeysOf(text, values).value);
  }

  lemma OneChunk<T>(events: seq<T>)
    requires 1 <= |events| <= BATCH
    ensures Chunks(events) == [events]
  {
    assert events[0..|events|] == events;
  }

  lemma SomeChunk<T>(events: seq<T>)
    requires events != []
    ensures Chunks(events) != []
  {}

  lemma NumberKeepsCodes(es: seq<Event>, first: nat)
    ensures Codes(NumberFrom(es, first)) == Codes(es)
  {}

  // The validator reads back the four groups it is meant to see.
  lemma WiresAreGroups(groups: seq<seq<Event>>)
    requires |groups| == 4 && forall k :: 0 <= k < 4 ==> groups[k] != []
    requires |groups[0]| <= BATCH && |groups[1]| <= BATCH
    ensures var p := PlanOf(groups);
            && |p.pre| >= 3 && p.post != []
            && ValidatorWires(p) == [Codes(groups[0]), Codes(groups[1]), Codes(groups[2]), Codes(groups[3])]
  {
    hide Codes, Numbered, Chunks, Flatten, NumberFrom;
    var g := Numbered(groups);
    forall k | 0 <= k < 4
      ensures |g[k]| == |groups[k]| && Codes(g[k]) == Codes(groups[k])
    {
      NumberedGroup(groups, k);
      NumberKeepsCodes(groups[k], |Flatten(groups[..k])|);
    }
    OneChunk(g[0]);
    OneChunk(g[1]);
    SomeChunk(g[2]);
    SomeChunk(g[3]);
    ChunksPartition(g[2]);
    ChunksPartition(g[3]);
    var p := PlanOf(groups);
    assert p.pre == [g[0], g[1]] + Chunks(g[2]);
    assert p.pre[2..] == Chunks(g[2]);
  }

  // The separately written validator accepts the schedule exactly when every key of its texts is typable.
  lemma ScheduleAcceptedIffTypable(values: Mapping, aText: string, bText: string, aStart: int, hold: int, bursting: Bursting)
    requires Groups(values, aText, bText, aStart, hold, bursting).Ok?
    ensures "return" in values.names
    ensures WiresAccepted(PlanOf(Groups(values, aText, bText, aStart, hold, bursting).value)) <==>
              forall k :: 0 <= k < 4 ==> AllTypable(TextOf(k, aText, bText), WithReturn(values))
  {
    hide Groups, WireOf, Increasing, Codes, WithReturn, PlanOf, ValidatorWires, TextOf, AllTypable, AllUp;
    var g := Groups(values, aText, bText, aStart, hold, bursting).value;
    GroupFacts(values, aText, bText, aStart, hold, bursting);
    WiresAreGroups(g);
    forall k | 0 <= k < 4
      ensures AllUp(Codes(g[k])) <==> AllTypable(TextOf(k, aText, bText), WithReturn(values))
    {
      WireAccepted(TextOf(k, aText, bText), WithReturn(values));
    }
    assert forall k :: 0 <= k < 4 ==> ValidatorWires(PlanOf(g))[k] == Codes(g[k]) && Codes(g[k]) != [];
  }
}
