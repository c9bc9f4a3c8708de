/** Deadlines of key frames: 60 Hz spacing inside a burst, a pause between bursts, batches of at most 64. */
module CadetPacing {
  import opened Arithmetic
  import opened Bytes
  import opened CadetFrames

  const TICK: nat := 1_000_000

  datatype Phase = Boot | FormA | FormB

  datatype Event = Event(phase: Phase, due: int, scancode: nat, index: Option<nat>)

  // Boundaries from a start to the n-th 60 Hz period after it, rounded up.
  function Spacing(n: nat): nat { (n * TICK + 59) / 60 }

  function Batch(phase: Phase, start: int, codes: seq<nat>): (b: seq<Event>)
    ensures |b| == |codes|
  {
    seq(|codes|, i requires 0 <= i < |codes| => Event(phase, start + Spacing(i), codes[i], None))
  }

  function Codes(es: seq<Event>): (c: seq<nat>)
    ensures |c| == |es|
  {
    seq(|es|, i requires 0 <= i < |es| => es[i].scancode)
  }

  // ----- Bursts of characters -----

  function Strokes(text: string, values: Mapping): Result<seq<seq<nat>>> {
    if text == [] then Ok([]) else
    var before :- Strokes(text[..|text| - 1], values);
    var key :- KeyOf(text[|text| - 1], values);
    var last :- Stroke(key);
    Ok(before + [last])
  }

  function Joined(strokes: seq<seq<nat>>): seq<nat> {
    if strokes == [] then [] else Joined(strokes[..|strokes| - 1]) + strokes[|strokes| - 1]
  }

  // Typing a text character by character is typing it at once.
  lemma {:induction false} StrokesJoin(text: string, values: Mapping)
    ensures Strokes(text, values).Ok? <==> WireOf(text, values).Ok?
    ensures Strokes(text, values).Ok? ==>
              var s := Strokes(text, values).value;
              && |s| == |text| && Joined(s) == WireOf(text, values).value && forall i :: 0 <= i < |s| ==> s[i] != []
    decreases |text|
  {
    hide KeyOf, WireOf, Stroke;
    if text == [] {
      NothingTyped(values);
    } else {
      var n := |text| - 1;
      StrokesJoin(text[..n], values);
      WireGrows(text[..n], text[n], values);
      assert text == text[..n] + [text[n]];
      if Strokes(text, values).Ok? {
        StrokeNotEmpty(KeyOf(text[n], values).value);
        var s := Strokes(text, values).value;
        assert s[..n] == Strokes(text[..n], values).value;
      }
    }
  }

  // When character k starts: a period after the one before it, or a pause after a full burst.
  function CharacterStart(strokes: seq<seq<nat>>, start: int, chars: nat, pause: nat, k: nat): int
    requires k <= |strokes| && chars > 0 && forall i :: 0 <= i < |strokes| ==> strokes[i] != []
  {
    if k == 0 then start else
    CharacterStart(strokes, start, chars, pause, k - 1) + Spacing(|strokes[k - 1]| - 1)
    + if k % chars == 0 then pause else Spacing(1)
  }

  function Bursts(phase: Phase, strokes: seq<seq<nat>>, start: int, chars: nat, pause: nat, k: nat): seq<Event>
    requires k <= |strokes| && chars > 0 && forall i :: 0 <= i < |strokes| ==> strokes[i] != []
  {
    if k == 0 then [] else
    Bursts(phase, strokes, start, chars, pause, k - 1)
    + Batch(phase, CharacterStart(strokes, start, chars, pause, k - 1), strokes[k - 1])
  }

  lemma OneFrameMore(phase: Phase, start: int, frames: seq<nat>, i: nat)
    requires i < |frames|
    ensures Batch(phase, start, frames[..i + 1])
            == Batch(phase, start, frames[..i]) + [Event(phase, start + Spacing(i), frames[i], None)]
  {
    hide Spacing;
  }

  method ChunkedBatch(phase: Phase, start: int, text: string, values: Mapping, chunkChars: int, chunkPause: int)
    returns (r: Result<seq<Event>>)
    ensures r.Ok? <==> chunkChars >= 1 && chunkPause >= 1 && WireOf(text, values).Ok?
    ensures r.Ok? ==> Strokes(text, values).Ok?
    ensures r.Ok? ==>
              var s := Strokes(text, values).value;
              && (forall i :: 0 <= i < |s| ==> s[i] != [])
              && r.value == Bursts(phase, s, start, chunkChars, chunkPause, |s|)
  {
    hide WireOf, Strokes, Spacing;
    StrokesJoin(text, values);
    if chunkChars < 1 || chunkPause < 1 {
      return Err;
    }
    var all := Strokes(text, values);
    if all.Err? {
      return Err;
    }
    var strokes := all.value;
    var result: seq<Event> := [];
    var chunkStart, inChunk := start, 0;
    for k := 0 to |strokes|
      invariant result == Bursts(phase, strokes, start, chunkChars, chunkPause, k)
      invariant k < |strokes| ==> chunkStart == CharacterStart(strokes, start, chunkChars, chunkPause, k)
      invariant 0 <= inChunk < chunkChars || k == |strokes|
      invariant k < |strokes| ==> inChunk == k % chunkChars
    {
      var frames := strokes[k];
      var before := result;
      for i := 0 to |frames|
        invariant result == before + Batch(phase, chunkStart, frames[..i])
      {
        OneFrameMore(phase, chunkStart, frames, i);
        result := result + [Event(phase, chunkStart + Spacing(i), frames[i], None)];
      }
      assert frames[..|frames|] == frames;
      assert result[|result| - 1].due == chunkStart + Spacing(|frames| - 1);
      NextRemainder(k, chunkChars);
      inChunk := inChunk + 1;
      if inChunk == chunkChars && k + 1 != |strokes| {
        chunkStart := result[|result| - 1].due + chunkPause;
        inChunk := 0;
      } else if k + 1 != |strokes| {
        chunkStart := result[|result| - 1].due + Spacing(1);
      }
    }
    return Ok(result);
  }

  lemma NextRemainder(k: nat, d: nat)
    requires d > 0
    ensures (k + 1) % d == if k % d == d - 1 then 0 else k % d + 1
  {
    var q, r := k / d, k % d;
    assert k + 1 == d * q + (r + 1);
    if r == d - 1 {
      DivModUnique(k + 1, d, q + 1, 0);
    } else {
      DivModUnique(k + 1, d, q, r + 1);
    }
  }

  // ----- Gaps between deadlines -----

  // A gap is one 60 Hz period, rounded either way, or the pause after a burst.
  predicate IsGap(d: int, pause: nat) { d == 16_666 || d == 16_667 || d == pause }

  predicate Paced(es: seq<Event>, pause: nat) {
    forall i :: 0 <= i < |es| - 1 ==> IsGap(es[i + 1].due - es[i].due, pause)
  }

  lemma SpacingStep(n: nat)
    ensures Spacing(n + 1) - Spacing(n) in {16_666, 16_667} && Spacing(0) == 0 && Spacing(1) == 16_667
  {}

  lemma BatchPaced(phase: Phase, start: int, codes: seq<nat>, pause: nat)
    ensures Paced(Batch(phase, start, codes), pause)
    ensures codes != [] ==>
              var b := Batch(phase, start, codes);
              b[0].due == start && b[|b| - 1].due == start + Spacing(|codes| - 1) && Codes(b) == codes
  {
    var b := Batch(phase, start, codes);
    hide Spacing;
    SpacingStep(0);
    forall i | 0 <= i < |b| - 1
      ensures IsGap(b[i + 1].due - b[i].due, pause)
    {
      SpacingStep(i);
    }
  }

  lemma PacedJoin(a: seq<Event>, b: seq<Event>, pause: nat)
    requires Paced(a, pause) && Paced(b, pause) && a != [] && b != []
    requires IsGap(b[0].due - a[|a| - 1].due, pause)
    ensures Paced(a + b, pause)
  {
    hide IsGap;
    var c, n := a + b, |a|;
    forall i | 0 <= i < |c| - 1
      ensures IsGap(c[i + 1].due - c[i].due, pause)
    {
      if i < n - 1 {
        assert c[i] == a[i] && c[i + 1] == a[i + 1];
      } else if i >= n {
        assert c[i] == b[i - n] && c[i + 1] == b[i - n + 1];
      }
    }
  }

  // Every gap in a chunked batch is a 60 Hz period or the pause, and its codes are the text's frames.
  lemma {:induction false} BurstsPaced(phase: Phase, strokes: seq<seq<nat>>, start: int, chars: nat, pause: nat, k: nat)
    requires k <= |strokes| && chars > 0 && forall i :: 0 <= i < |strokes| ==> strokes[i] != []
    ensures var es := Bursts(phase, strokes, start, chars, pause, k);
            && Paced(es, pause) && Codes(es) == Joined(strokes[..k])
            && (k > 0 ==>
                  && es != [] && es[0].due == start
                  && es[|es| - 1].due == CharacterStart(strokes, start, chars, pause, k - 1) + Spacing(|strokes[k - 1]| - 1))
    decreases k
  {
    hide Spacing, Batch, Paced;
    if k == 0 {
      assert Paced([], pause) by { BatchPaced(phase, start, [], pause); NoBatch(phase, start); }
    } else {
      var first := CharacterStart(strokes, start, chars, pause, k - 1);
      var before, last := Bursts(phase, strokes, start, chars, pause, k - 1), Batch(phase, first, strokes[k - 1]);
      BurstsPaced(phase, strokes, start, chars, pause, k - 1);
      BatchPaced(phase, first, strokes[k - 1], pause);
      CodesJoin(before, last);
      assert strokes[..k][..k - 1] == strokes[..k - 1];
      SpacingStep(0);
      if k > 1 {
        PacedJoin(before, last, pause);
      } else {
        assert before + last == last;
      }
    }
  }

  lemma NoBatch(phase: Phase, start: int)
    ensures Batch(phase, start, []) == []
  {}

  lemma CodesJoin(a: seq<Event>, b: seq<Event>)
    ensures Codes(a + b) == Codes(a) + Codes(b)
  {}

  predicate Increasing(es: seq<Event>) { forall i, j :: 0 <= i < j < |es| ==> es[i].due < es[j].due }

  lemma {:induction false} PacedIncreases(es: seq<Event>, pause: nat, i: nat, j: nat)
    requires Paced(es, pause) && pause > 0 && i < j < |es|
    ensures es[i].due < es[j].due
    decreases j
  {
    assert IsGap(es[j - 1 + 1].due - es[j - 1].due, pause);
    if i < j - 1 {
      PacedIncreases(es, pause, i, j - 1);
    }
  }

  // Deadlines strictly increase, whatever the text, the burst length and the pause.
  lemma ChunkedBatchIncreases(phase: Phase, strokes: seq<seq<nat>>, start: int, chars: nat, pause: nat)
    requires chars > 0 && pause > 0 && forall i :: 0 <= i < |strokes| ==> strokes[i] != []
    ensures Increasing(Bursts(phase, strokes, start, chars, pause, |strokes|))
  {
    hide Bursts, Paced;
    BurstsPaced(phase, strokes, start, chars, pause, |strokes|);
    var es := Bursts(phase, strokes, start, chars, pause, |strokes|);
    forall i, j | 0 <= i < j < |es|
      ensures es[i].due < es[j].due
    {
      PacedIncreases(es, pause, i, j);
    }
  }

  lemma BatchIncreases(phase: Phase, start: int, codes: seq<nat>)
    ensures Increasing(Batch(phase, start, codes))
  {
    hide Batch, Paced;
    BatchPaced(phase, start, codes, 1);
    var es := Batch(phase, start, codes);
    forall i, j | 0 <= i < j < |es|
      ensures es[i].due < es[j].due
    {
      PacedIncreases(es, 1, i, j);
    }
  }

  // ----- Transport batches -----

  const BATCH: nat := 64

  function Least(a: nat, b: nat): nat { if a < b then a else b }

  function Chunks<T>(events: seq<T>): seq<seq<T>> {
    seq((|events| + BATCH - 1) / BATCH, k requires 0 <= k < (|events| + BATCH - 1) / BATCH =>
      events[k * BATCH..Least((k + 1) * BATCH, |events|)])
  }

  function Flatten<T>(batches: seq<seq<T>>): seq<T> {
    if batches == [] then [] else Flatten(batches[..|batches| - 1]) + batches[|batches| - 1]
  }

  lemma {:induction false} ChunksPrefix<T>(events: seq<T>, k: nat)
    requires k <= |Chunks(events)|
    ensures Flatten(Chunks(events)[..k]) == events[..Least(k * BATCH, |events|)]
    decreases k
  {
    if k > 0 {
      ChunksPrefix(events, k - 1);
      assert Chunks(events)[..k][..k - 1] == Chunks(events)[..k - 1];
    }
  }

  // The batches hold one to 64 events each, all but the last are full, and end to end they are the events.
  lemma ChunksPartition<T>(events: seq<T>)
    ensures Flatten(Chunks(events)) == events
    ensures forall k :: 0 <= k < |Chunks(events)| ==> 1 <= |Chunks(events)[k]| <= BATCH
    ensures forall k :: 0 <= k < |Chunks(events)| - 1 ==> |Chunks(events)[k]| == BATCH
  {
    var c := Chunks(events);
    ChunksPrefix(events, |c|);
    assert c[..|c|] == c && events[..|events|] == events;
  }

  lemma {:induction false} FlattenJoin<T>(a: seq<seq<T>>, b: seq<seq<T>>)
    ensures Flatten(a + b) == Flatten(a) + Flatten(b)
    decreases |b|
  {
    if b == [] {
      assert a + b == a;
    } else {
      var n := |b| - 1;
      assert (a + b)[..|a + b| - 1] == a + b[..n] && (a + b)[|a + b| - 1] == b[n];
      FlattenJoin(a, b[..n]);
      assert Flatten(a) + Flatten(b[..n]) + b[n] == Flatten(a) + (Flatten(b[..n]) + b[n]);
    }
  }
}
