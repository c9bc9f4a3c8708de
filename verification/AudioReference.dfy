/** The beeper's numbers and byte layouts said again: 8000 frames a second, 512 to a packet, fields by offset. */
module AudioReference {
  import opened Arithmetic
  import opened Bytes
  import opened AudioRenderer
  import opened AudioPackets

  // A frame lasts 125 microseconds.
  lemma FramesCover(duration: nat)
    ensures 125 * TotalFrames(duration) >= duration
    ensures TotalFrames(duration) > 0 ==> 125 * (TotalFrames(duration) - 1) < duration
  {}

  // The step is the whole part of 2^32 phase units times 1,000,000 over 16,000 half wavelengths.
  lemma StepIs(half: nat)
    requires half > 0
    ensures PhaseStep(half) * (16_000 * half) <= 1_000_000 * 4_294_967_296 < (PhaseStep(half) + 1) * (16_000 * half)
  {
    hide PhaseStep;
    var d, r := Denominator(half), Rounding(half);
    assert d == 16_000 * half;
    assert 1_000_000 * U32 == PhaseStep(half) * d + r;
    assert (PhaseStep(half) + 1) * d == PhaseStep(half) * d + d;
  }

  // One entry of the table is 2^27 phase units, wrapped at 2^32.
  lemma IndexIs(half: nat, position: nat)
    requires half > 0
    ensures TableIndex(half, position) == position * PhaseStep(half) / 134_217_728 % 32
  {
    hide PhaseStep, TableIndex;
    IndexWithoutWrap(half, position);
  }

  // ----- Events -----

  // Three long words, six words, a long word and two words; four of them are always 1 and the last is 0.
  ghost predicate LaidOut(e: seq<Byte>, sequence: nat, postSlot: nat, intraSlot: nat, frames: nat, half: nat, duration: nat, offset: nat)
    requires |e| == 64
  {
    && e[..8] == LE(sequence, 8) && e[8..16] == LE(1, 8) && e[16..24] == LE(postSlot, 8) && e[24..28] == LE(intraSlot, 4)
    && e[28..32] == LE(1, 4) && e[32..36] == LE(frames, 4) && e[36..40] == LE(1, 4) && e[40..44] == LE(half, 4)
    && e[44..48] == LE(duration, 4) && e[48..56] == LE(offset, 8) && e[56..60] == LE(1, 4) && e[60..64] == LE(0, 4)
  }

  lemma EventLayout(sequence: nat, postSlot: nat, intraSlot: nat, frames: nat, half: nat, duration: nat, offset: nat)
    ensures LaidOut(EventBytes(sequence, postSlot, intraSlot, frames, half, duration, offset),
                         sequence, postSlot, intraSlot, frames, half, duration, offset)
  {
    hide LE;
    var front := LE(sequence, 8) + LE(1, 8) + LE(postSlot, 8) + LE(intraSlot, 4) + LE(1, 4);
    FivePiecesAt(LE(sequence, 8), LE(1, 8), LE(postSlot, 8), LE(intraSlot, 4), LE(1, 4));
    var rest := LE(frames, 4) + LE(1, 4) + LE(half, 4) + LE(duration, 4) + LE(offset, 8) + (LE(1, 4) + LE(0, 4));
    SixPiecesAt(LE(frames, 4), LE(1, 4), LE(half, 4), LE(duration, 4), LE(offset, 8), LE(1, 4), LE(0, 4));
    var e := EventBytes(sequence, postSlot, intraSlot, frames, half, duration, offset);
    FrontAndRest(front, LE(frames, 4), LE(1, 4), LE(half, 4), LE(duration, 4), LE(offset, 8), LE(1, 4) + LE(0, 4));
    assert e == front + rest;
    Behind(front, rest);
  }

  lemma FivePiecesAt(a: seq<Byte>, b: seq<Byte>, c: seq<Byte>, d: seq<Byte>, e: seq<Byte>)
    requires |a| == |b| == |c| == 8 && |d| == |e| == 4
    ensures var s := a + b + c + d + e;
            s[..8] == a && s[8..16] == b && s[16..24] == c && s[24..28] == d && s[28..32] == e
  {}

  lemma SixPiecesAt(a: seq<Byte>, b: seq<Byte>, c: seq<Byte>, d: seq<Byte>, e: seq<Byte>, f: seq<Byte>, g: seq<Byte>)
    requires |a| == |b| == |c| == |d| == |f| == |g| == 4 && |e| == 8
    ensures var s := a + b + c + d + e + (f + g);
            && s[..4] == a && s[4..8] == b && s[8..12] == c && s[12..16] == d && s[16..24] == e && s[24..28] == f
            && s[28..32] == g
  {}

  lemma FrontAndRest(f: seq<Byte>, a: seq<Byte>, b: seq<Byte>, c: seq<Byte>, d: seq<Byte>, e: seq<Byte>, g: seq<Byte>)
    ensures f + a + b + c + d + e + g == f + (a + b + c + d + e + g)
  {}

  lemma Behind(front: seq<Byte>, rest: seq<Byte>)
    requires |front| == |rest| == 32
    ensures var e := front + rest;
            && (forall i, j :: 0 <= i <= j <= 32 ==> e[i..j] == front[i..j])
            && (forall i, j :: 0 <= i <= j <= 32 ==> e[32 + i..32 + j] == rest[i..j])
  {}

  // Packet k of a job holds the 512 frames from 512 k on, or as many as are left.
  lemma JobPackets(events: seq<seq<Byte>>, postSlot: nat, half: nat, duration: nat, k: nat)
    requires IsJob(events, postSlot, half, duration) && k < |events|
    ensures |events[k]| == 64 && OffsetOf(events[k]) == 512 * k
    ensures FramesOf(events[k]) == if TotalFrames(duration) - 512 * k >= 512 then 512 else TotalFrames(duration) - 512 * k
  {
    hide IsJob, TotalFrames, OffsetOf, FramesOf;
    JobEventReads(events, postSlot, half, duration, k);
  }

  // What the witness chain hashes, byte by byte.
  lemma WitnessInputs(H: Hash, generation: nat, previous: Digest, event: seq<Byte>)
    ensures InitialInput(generation) == [67, 68, 82, 65, 85, 68, 87, 49, 1, 0, 0, 0, 6, 0, 0, 0] + LE(generation, 8)
    ensures InitialWitness(H, generation) == H(InitialInput(generation))
    ensures WitnessStep(H, previous, event) == H([67, 68, 82, 65, 85, 68, 87, 49] + previous + event)
  {
    assert Ascii("CDRAUDW1") == [67, 68, 82, 65, 85, 68, 87, 49];
    SmallWords();
  }

  lemma SmallWords()
    ensures LE(1, 4) == [1, 0, 0, 0] && LE(6, 4) == [6, 0, 0, 0]
  {}
}
