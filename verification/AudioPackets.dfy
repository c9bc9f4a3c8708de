/** The beeper's reference job: packets that tile its duration, and rendering them piece by piece. */
module AudioPackets {
  import opened Bytes
  import opened AudioRenderer

  const FRAMES_PER_PACKET: nat := 512

  // ----- Events -----

  // A packet event of 64 bytes.
  function EventBytes(sequence: nat, postSlot: nat, intraSlot: nat, frames: nat, half: nat, duration: nat, offset: nat): (e: seq<Byte>)
    ensures |e| == 64
  {
    var front := LE(sequence, 8) + LE(1, 8) + LE(postSlot, 8) + LE(intraSlot, 4) + LE(1, 4);
    front + LE(frames, 4) + LE(1, 4) + LE(half, 4) + LE(duration, 4) + LE(offset, 8) + (LE(1, 4) + LE(0, 4))
  }

  lemma SevenPieces(
      front: seq<Byte>, frames: seq<Byte>, one: seq<Byte>, half: seq<Byte>, duration: seq<Byte>, offset: seq<Byte>, back: seq<Byte>)
    requires |front| == 32 && |frames| == |one| == |half| == |duration| == 4 && |offset| == 8
    ensures var e := front + frames + one + half + duration + offset + back;
            e[32..36] == frames && e[40..44] == half && e[48..56] == offset
  {}

  // Packing refuses a number that does not fit its field.
  function CanonicalBeepEvent(
      sequence: nat, postSlot: nat, intraSlot: nat, frames: nat, half: nat, duration: nat, offset: nat): Result<seq<Byte>> {
    if sequence >= U64 || postSlot >= U64 || offset >= U64 then Err else
    :- Need(intraSlot < U32 && frames < U32 && half < U32 && duration < U32);
    Ok(EventBytes(sequence, postSlot, intraSlot, frames, half, duration, offset))
  }

  function FramesOf(event: seq<Byte>): nat
    requires |event| == 64
  {
    FromLE(event[32..36])
  }

  function OffsetOf(event: seq<Byte>): nat
    requires |event| == 64
  {
    FromLE(event[48..56])
  }

  // The half wavelength and the frame offset a renderer must honour.
  function EventTiming(event: seq<Byte>): Result<(nat, nat)> {
    if |event| != 64 then Err else
    var half := FromLE(event[40..44]);
    :- Need(half != 0 && OffsetOf(event) < U32);
    Ok((half, OffsetOf(event)))
  }

  function PcmFromEvent(event: seq<Byte>, cursor: nat, frames: nat): Result<seq<Byte>> {
    var (half, offset) :- EventTiming(event);
    Ok(Pcm(Samples(half, offset + cursor, frames)))
  }

  lemma EventReads(sequence: nat, postSlot: nat, intraSlot: nat, frames: nat, half: nat, duration: nat, offset: nat)
    requires CanonicalBeepEvent(sequence, postSlot, intraSlot, frames, half, duration, offset).Ok?
    ensures var e := EventBytes(sequence, postSlot, intraSlot, frames, half, duration, offset);
            && FramesOf(e) == frames && OffsetOf(e) == offset
            && EventTiming(e) == if half != 0 && offset < U32 then Ok((half, offset)) else Err
  {
    hide LE, FromLE, Pow256;
    Pow256Values();
    FromLEOfLE(frames, 4);
    FromLEOfLE(half, 4);
    FromLEOfLE(offset, 8);
    SevenPieces(LE(sequence, 8) + LE(1, 8) + LE(postSlot, 8) + LE(intraSlot, 4) + LE(1, 4),
                LE(frames, 4), LE(1, 4), LE(half, 4), LE(duration, 4), LE(offset, 8), LE(1, 4) + LE(0, 4));
  }

  // ----- Witness chain -----

  function InitialInput(generation: nat): seq<Byte> { Ascii("CDRAUDW1") + LE(1, 4) + LE(6, 4) + LE(generation, 8) }

  function InitialWitness(H: Hash, generation: nat): Digest { H(InitialInput(generation)) }

  function WitnessStep(H: Hash, previous: Digest, event: seq<Byte>): Digest { H(Ascii("CDRAUDW1") + previous + event) }

  function Witness(H: Hash, head: Digest, events: seq<seq<Byte>>): Digest {
    if events == [] then head else WitnessStep(H, Witness(H, head, events[..|events| - 1]), events[|events| - 1])
  }

  // ----- The job -----

  function Min(a: nat, b: nat): nat { if a < b then a else b }

  // The packet that starts at frame 512 * k.
  function JobEvent(k: nat, total: nat, postSlot: nat, half: nat, duration: nat): (e: seq<Byte>)
    requires k * FRAMES_PER_PACKET < total
    ensures |e| == 64
  {
    var offset := k * FRAMES_PER_PACKET;
    EventBytes(k, postSlot, k, Min(FRAMES_PER_PACKET, total - offset), half, duration, offset)
  }

  function JobEvents(n: nat, total: nat, postSlot: nat, half: nat, duration: nat): seq<seq<Byte>>
    requires n * FRAMES_PER_PACKET < total + FRAMES_PER_PACKET
  {
    seq(n, k requires 0 <= k < n => JobEvent(k, total, postSlot, half, duration))
  }

  function PacketCount(total: nat): (n: nat)
    ensures n * FRAMES_PER_PACKET < total + FRAMES_PER_PACKET && total <= n * FRAMES_PER_PACKET
  {
    (total + FRAMES_PER_PACKET - 1) / FRAMES_PER_PACKET
  }

  method ReferenceJob(H: Hash, postSlot: nat, half: nat, duration: nat)
    returns (r: Result<(seq<seq<Byte>>, Digest, Digest)>)
    ensures r.Ok? <==> TotalFrames(duration) == 0 || (postSlot < U64 && half < U32 && duration < U32)
    ensures r.Ok? ==>
              var total := TotalFrames(duration);
              var (events, head, final) := r.value;
              && events == JobEvents(PacketCount(total), total, postSlot, half, duration)
              && head == InitialWitness(H, 1) && final == Witness(H, head, events)
  {
    hide EventBytes, LE;
    var total := TotalFrames(duration);
    var events: seq<seq<Byte>> := [];
    var offset := 0;
    while offset < total
      invariant offset == Min(|events| * FRAMES_PER_PACKET, total)
      invariant |events| * FRAMES_PER_PACKET < total + FRAMES_PER_PACKET
      invariant events != [] ==> postSlot < U64 && half < U32 && duration < U32
      invariant events == JobEvents(|events|, total, postSlot, half, duration)
    {
      var count := Min(FRAMES_PER_PACKET, total - offset);
      var n := |events|;
      var event := CanonicalBeepEvent(n, postSlot, n, count, half, duration, offset);
      if event.Err? {
        return Err;
      }
      assert JobEvents(n + 1, total, postSlot, half, duration) == JobEvents(n, total, postSlot, half, duration) + [event.value];
      events := events + [event.value];
      offset := offset + count;
    }
    assert |events| == PacketCount(total);
    var head := InitialWitness(H, 1);
    var final := head;
    for i := 0 to |events|
      invariant final == Witness(H, head, events[..i])
    {
      assert events[..i + 1][..i] == events[..i];
      final := WitnessStep(H, final, events[i]);
    }
    assert events[..|events|] == events;
    return Ok((events, head, final));
  }

  // ----- Packets tile the job -----

  // The numbers of a beeper job, as its record's fields can hold them.
  predicate IsJob(events: seq<seq<Byte>>, postSlot: nat, half: nat, duration: nat) {
    var total := TotalFrames(duration);
    && postSlot < U64 && 0 < half < U32 && duration < U32
    && events == JobEvents(PacketCount(total), total, postSlot, half, duration)
  }

  lemma TotalFitsWord(duration: nat)
    requires duration < U32
    ensures TotalFrames(duration) <= 34_359_739
  {}

  lemma JobEventReads(events: seq<seq<Byte>>, postSlot: nat, half: nat, duration: nat, k: nat)
    requires IsJob(events, postSlot, half, duration) && k < |events|
    ensures var e, total := events[k], TotalFrames(duration);
            && |e| == 64 && k * FRAMES_PER_PACKET < total && OffsetOf(e) == k * FRAMES_PER_PACKET
            && FramesOf(e) == Min(FRAMES_PER_PACKET, total - k * FRAMES_PER_PACKET)
            && EventTiming(e) == Ok((half, OffsetOf(e)))
  {
    hide IsJob, JobEvents, PacketCount, EventBytes, TotalFrames, FramesOf, OffsetOf, EventTiming;
    JobEventIs(events, postSlot, half, duration, k);
    var offset := k * FRAMES_PER_PACKET;
    EventReads(k, postSlot, k, Min(FRAMES_PER_PACKET, TotalFrames(duration) - offset), half, duration, offset);
  }

  // Event k, and the bounds that let its numbers be packed.
  lemma JobEventIs(events: seq<seq<Byte>>, postSlot: nat, half: nat, duration: nat, k: nat)
    requires IsJob(events, postSlot, half, duration) && k < |events|
    ensures var total := TotalFrames(duration);
            && k * FRAMES_PER_PACKET < total < U32 && 0 < half < U32 && duration < U32 && postSlot < U64
            && events[k] == JobEvent(k, total, postSlot, half, duration)
  {
    hide JobEvent, TotalFrames;
    TotalFitsWord(duration);
  }

  function FramesBefore(events: seq<seq<Byte>>, k: nat): nat
    requires k <= |events| && forall i :: 0 <= i < k ==> |events[i]| == 64
  {
    if k == 0 then 0 else FramesBefore(events, k - 1) + FramesOf(events[k - 1])
  }

  // Each packet starts where those before it end, holds 1 to 512 frames, and together they hold them all.
  lemma {:induction false} PacketsTile(events: seq<seq<Byte>>, postSlot: nat, half: nat, duration: nat, k: nat)
    requires IsJob(events, postSlot, half, duration) && k <= |events|
    ensures forall i :: 0 <= i < |events| ==> |events[i]| == 64
    ensures FramesBefore(events, k) == Min(k * FRAMES_PER_PACKET, TotalFrames(duration))
    ensures k < |events| ==> OffsetOf(events[k]) == FramesBefore(events, k) && 0 < FramesOf(events[k]) <= FRAMES_PER_PACKET
    ensures FramesBefore(events, |events|) == TotalFrames(duration)
    decreases |events| - k
  {
    hide TotalFrames, FramesOf, OffsetOf, JobEvent;
    forall i | 0 <= i < |events|
      ensures |events[i]| == 64
    {
      JobEventReads(events, postSlot, half, duration, i);
    }
    FramesBeforeIs(events, postSlot, half, duration, k);
    FramesBeforeIs(events, postSlot, half, duration, |events|);
    if k < |events| {
      JobEventReads(events, postSlot, half, duration, k);
    }
  }

  lemma {:induction false} FramesBeforeIs(events: seq<seq<Byte>>, postSlot: nat, half: nat, duration: nat, k: nat)
    requires IsJob(events, postSlot, half, duration) && k <= |events|
    requires forall i :: 0 <= i < |events| ==> |events[i]| == 64
    ensures FramesBefore(events, k) == Min(k * FRAMES_PER_PACKET, TotalFrames(duration))
    decreases k
  {
    hide TotalFrames, FramesOf, OffsetOf, JobEvent, IsJob;
    if k > 0 {
      FramesBeforeIs(events, postSlot, half, duration, k - 1);
      JobEventReads(events, postSlot, half, duration, k - 1);
    }
  }

  // ----- Rendering in pieces -----

  // A stretch of one packet, as a partial acknowledgement leaves it.
  datatype Piece = Piece(packet: nat, cursor: nat, frames: nat)

  // Each piece lies in its packet and starts where the one before ends.
  predicate Consecutive(events: seq<seq<Byte>>, pieces: seq<Piece>, from: nat)
    decreases |pieces|
  {
    pieces == [] ||
    var p := pieces[0];
    && p.packet < |events| && |events[p.packet]| == 64
    && p.cursor + p.frames <= FramesOf(events[p.packet]) && OffsetOf(events[p.packet]) + p.cursor == from
    && Consecutive(events, pieces[1..], from + p.frames)
  }

  function Played(pieces: seq<Piece>): nat { if pieces == [] then 0 else pieces[0].frames + Played(pieces[1..]) }

  function Render(events: seq<seq<Byte>>, pieces: seq<Piece>): Result<seq<Byte>> {
    if pieces == [] then Ok([]) else
    :- Need(pieces[0].packet < |events|);
    var pcm :- PcmFromEvent(events[pieces[0].packet], pieces[0].cursor, pieces[0].frames);
    var rest :- Render(events, pieces[1..]);
    Ok(pcm + rest)
  }

  lemma PieceRenders(events: seq<seq<Byte>>, postSlot: nat, half: nat, duration: nat, p: Piece)
    requires IsJob(events, postSlot, half, duration) && p.packet < |events|
    ensures |events[p.packet]| == 64
    ensures half > 0
    ensures PcmFromEvent(events[p.packet], p.cursor, p.frames)
            == Ok(Pcm(Samples(half, OffsetOf(events[p.packet]) + p.cursor, p.frames)))
  {
    hide JobEvents, JobEvent, TotalFrames, Pcm, Samples, EventTiming, OffsetOf, FramesOf, IsJob, Min;
    JobEventIs(events, postSlot, half, duration, p.packet);
    JobEventReads(events, postSlot, half, duration, p.packet);
  }

  // However a stretch of the job is cut into pieces, inside packets and across them, the pieces give
  // the bytes of one render of the whole stretch.
  lemma {:induction false} PiecesJoin(
      events: seq<seq<Byte>>, postSlot: nat, half: nat, duration: nat, pieces: seq<Piece>, from: nat)
    requires IsJob(events, postSlot, half, duration) && Consecutive(events, pieces, from)
    ensures Render(events, pieces) == Ok(Pcm(Samples(half, from, Played(pieces))))
    decreases |pieces|
  {
    hide *;
    if pieces == [] {
      NothingRendered(events, postSlot, half, duration, from);
    } else {
      var p, rest := pieces[0], pieces[1..];
      FirstPiece(events, pieces, from);
      PieceRenders(events, postSlot, half, duration, p);
      PiecesJoin(events, postSlot, half, duration, rest, from + p.frames);
      AdjacentStretches(half, from, p.frames, Played(rest));
    }
  }

  lemma FirstPiece(events: seq<seq<Byte>>, pieces: seq<Piece>, from: nat)
    requires pieces != [] && Consecutive(events, pieces, from)
    ensures var p, rest := pieces[0], pieces[1..];
            && p.packet < |events| && |events[p.packet]| == 64 && OffsetOf(events[p.packet]) + p.cursor == from
            && Consecutive(events, rest, from + p.frames) && Played(pieces) == p.frames + Played(rest)
            && var first := PcmFromEvent(events[p.packet], p.cursor, p.frames);
               first.Ok? && Render(events, rest).Ok? ==> Render(events, pieces) == Ok(first.value + Render(events, rest).value)
  {
    hide PcmFromEvent, OffsetOf, FramesOf;
  }

  lemma NothingRendered(events: seq<seq<Byte>>, postSlot: nat, half: nat, duration: nat, from: nat)
    requires IsJob(events, postSlot, half, duration)
    ensures half > 0 && Render(events, []) == Ok(Pcm(Samples(half, from, Played([]))))
  {}

  // While a job plays, the table index never falls more than one entry behind the exact phase.
  lemma PhaseWhilePlaying(half: nat, duration: nat, position: nat)
    requires half > 0 && duration < U32 && position < TotalFrames(duration)
    ensures 0 <= EntriesBehind(half, position) <= 1
    ensures TableIndex(half, position) == (ExactEntries(half, position) - EntriesBehind(half, position)) % 32
  {
    hide TotalFrames, ExactEntries, EntriesBehind, TableIndex;
    TotalFitsWord(duration);
    AtMostOneEntryBehind(half, position);
  }

  // ----- The witness chain names the events -----

  // The witness after the first n events of a generation, and what that step hashed.
  function WitnessAt(H: Hash, generation: nat, events: seq<seq<Byte>>, n: nat): Digest
    requires n <= |events|
  {
    Witness(H, InitialWitness(H, generation), events[..n])
  }

  function InputAt(H: Hash, generation: nat, events: seq<seq<Byte>>, n: nat): seq<Byte>
    requires n <= |events|
  {
    if n == 0 then InitialInput(generation)
    else Ascii("CDRAUDW1") + WitnessAt(H, generation, events, n - 1) + events[n - 1]
  }

  // Two different inputs, of a step of one chain and a step of the other, that hash alike.
  ghost predicate WitnessesCollide(H: Hash, g: nat, a: seq<seq<Byte>>, h: nat, b: seq<seq<Byte>>) {
    exists i, j :: 0 <= i <= |a| && 0 <= j <= |b| && InputAt(H, g, a, i) != InputAt(H, h, b, j)
                   && H(InputAt(H, g, a, i)) == H(InputAt(H, h, b, j))
  }

  lemma WitnessIsHash(H: Hash, generation: nat, events: seq<seq<Byte>>, n: nat)
    requires n <= |events|
    ensures WitnessAt(H, generation, events, n) == H(InputAt(H, generation, events, n))
  {
    hide InitialInput, Ascii;
    if n > 0 {
      assert events[..n][..n - 1] == events[..n - 1] && events[..n][n - 1] == events[n - 1];
    }
  }

  lemma InitialApart(g: nat, h: nat, previous: Digest, event: seq<Byte>)
    ensures |InitialInput(g)| == 24 < |Ascii("CDRAUDW1") + previous + event|
    ensures g < U64 && h < U64 && InitialInput(g) == InitialInput(h) ==> g == h
  {
    hide LE, Ascii, FromLE;
    assert InitialInput(g)[16..24] == LE(g, 8) && InitialInput(h)[16..24] == LE(h, 8);
    Pow256Values();
    if g < U64 && h < U64 {
      FromLEOfLE(g, 8);
      FromLEOfLE(h, 8);
    }
  }

  lemma StepParts(p: Digest, x: seq<Byte>, q: Digest, y: seq<Byte>)
    requires Ascii("CDRAUDW1") + p + x == Ascii("CDRAUDW1") + q + y
    ensures p == q && x == y
  {
    var s, t := Ascii("CDRAUDW1") + p + x, Ascii("CDRAUDW1") + q + y;
    assert s[8..40] == p && t[8..40] == q && s[40..] == x && t[40..] == y;
  }

  // Equal witnesses, after however many events, come from one generation and the same events, or some two
  // steps of the chains are a hash collision.
  lemma {:induction false} WitnessBindsEvents(H: Hash, g: nat, a: seq<seq<Byte>>, i: nat, h: nat, b: seq<seq<Byte>>, j: nat)
    requires g < U64 && h < U64 && i <= |a| && j <= |b|
    requires WitnessAt(H, g, a, i) == WitnessAt(H, h, b, j) && !WitnessesCollide(H, g, a, h, b)
    ensures g == h && a[..i] == b[..j]
    decreases i
  {
    hide WitnessAt, InitialInput, Ascii, Witness;
    WitnessIsHash(H, g, a, i);
    WitnessIsHash(H, h, b, j);
    assert InputAt(H, g, a, i) == InputAt(H, h, b, j);
    if i > 0 && j > 0 {
      StepParts(WitnessAt(H, g, a, i - 1), a[i - 1], WitnessAt(H, h, b, j - 1), b[j - 1]);
      WitnessBindsEvents(H, g, a, i - 1, h, b, j - 1);
      assert a[..i] == a[..i - 1] + [a[i - 1]] && b[..j] == b[..j - 1] + [b[j - 1]];
    } else if i > 0 {
      InitialApart(h, g, WitnessAt(H, g, a, i - 1), a[i - 1]);
    } else if j > 0 {
      InitialApart(g, h, WitnessAt(H, h, b, j - 1), b[j - 1]);
    } else {
      InitialApart(g, h, WitnessAt(H, g, a, 0), []);
    }
  }
}
