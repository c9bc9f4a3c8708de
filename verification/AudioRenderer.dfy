/** The fixed-table beeper renderer: what it samples, and how far its phase can lag behind the exact one. */
module AudioRenderer {
  import opened Arithmetic
  import opened Bytes

  const SAMPLE_RATE: nat := 8000
  const ENTRY: nat := 0x800_0000  // phase units in one of the table's 32 entries: 2^27

  // The table of one sine period.
  function Sine32(): (t: seq<int>)
    ensures |t| == 32
  {
    [0, 6393, 12539, 18204, 23170, 27245, 30273, 32137, 32767, 32137, 30273, 27245, 23170, 18204, 12539, 6393,
     0, -6393, -12539, -18204, -23170, -27245, -30273, -32137, -32767, -32137, -30273, -27245, -23170, -18204, -12539, -6393]
  }

  // The least number of frames that covers a duration in microseconds.
  function TotalFrames(duration: nat): (f: nat)
    ensures f * 1_000_000 >= duration * SAMPLE_RATE
    ensures f > 0 ==> (f - 1) * 1_000_000 < duration * SAMPLE_RATE
  {
    (duration * SAMPLE_RATE + 999_999) / 1_000_000
  }

  // ----- Phase -----

  function PhaseStep(half: nat): nat
    requires half > 0
  {
    DivNonNegative(1_000_000 * U32, half * 2 * SAMPLE_RATE);
    1_000_000 * U32 / (half * 2 * SAMPLE_RATE)
  }

  // The table index of an absolute frame, with 32-bit wrap-around at each step.
  function TableIndex(half: nat, position: nat): (i: nat)
    requires half > 0
    ensures i < 32
  {
    var frame := position % U32;
    var phase := frame * (PhaseStep(half) % U32) % U32;
    assert phase < 32 * ENTRY;
    phase / ENTRY
  }

  // How many entries an exact oscillator has passed: position frames last position / 8000 seconds, and
  // one entry lasts half / 16 microseconds.
  function ExactEntries(half: nat, position: nat): nat
    requires half > 0
  {
    DivNonNegative(position * 1_000_000 * 32, half * 2 * SAMPLE_RATE);
    position * 1_000_000 * 32 / (half * 2 * SAMPLE_RATE)
  }

  // Wrapping at 32 bits loses nothing but whole periods.
  lemma IndexWithoutWrap(half: nat, position: nat)
    requires half > 0
    ensures TableIndex(half, position) == position * PhaseStep(half) / ENTRY % 32
  {
    hide PhaseStep;
    var step := PhaseStep(half);
    var frame := position % U32;
    ModOfProduct(position, step % U32, U32);
    ModOfProduct(step, position, U32);
    assert frame * (step % U32) % U32 == position * step % U32;
    var x := position * step;
    assert x == x / U32 * U32 + x % U32;
    assert x % U32 == (x % U32) / ENTRY * ENTRY + (x % U32) % ENTRY;
    DivModUnique(x, ENTRY, x / U32 * 32 + (x % U32) / ENTRY, (x % U32) % ENTRY);
    DivModUnique(x / ENTRY, 32, x / U32, (x % U32) / ENTRY);
  }

  // ----- How far behind the index is -----

  // The phase step's denominator, and the remainder that rounding the step down cuts off.
  function Denominator(half: nat): (d: nat)
    requires half > 0
    ensures d > 0
  {
    half * 2 * SAMPLE_RATE
  }

  function Rounding(half: nat): (r: nat)
    requires half > 0
    ensures r < Denominator(half) && 1_000_000 * U32 == PhaseStep(half) * Denominator(half) + r
  {
    1_000_000 * U32 % Denominator(half)
  }

  // The renderer's own phase, before it is wrapped.
  function Phase(half: nat, position: nat): nat
    requires half > 0
  {
    position * PhaseStep(half)
  }

  // How many entries the renderer has passed too few.
  function EntriesBehind(half: nat, position: nat): int
    requires half > 0
  {
    ExactEntries(half, position) - Phase(half, position) / ENTRY
  }

  lemma Lag(a: nat, f: nat, d: nat, x: nat, n: nat)
    requires d > 0 && n * ENTRY == (a * ENTRY + f) * d + x
    ensures n / d == a + (f * d + x) / (ENTRY * d)
  {
    var y := f * d + x;
    var q, r := n / d, n % d;
    assert n == d * q + r;
    Factor(a, f, d, x);
    assert y == ENTRY * d * (q - a) + ENTRY * r by {
      Spread(d, q, a, r);
    }
    DivModUnique(y, ENTRY * d, q - a, ENTRY * r);
  }

  lemma Factor(a: nat, f: nat, d: nat, x: nat)
    ensures (a * ENTRY + f) * d + x == ENTRY * d * a + (f * d + x)
  {}

  lemma Spread(d: int, q: int, a: int, r: int)
    ensures (d * q + r) * ENTRY - ENTRY * d * a == ENTRY * d * (q - a) + ENTRY * r
  {}

  // The exact lag: what the position has been rounded off so far, plus the phase's place in its entry, in
  // whole entries. The table shows the entry that far behind the exact one.
  lemma LagIsRounding(half: nat, position: nat)
    requires half > 0
    ensures var d, f := Denominator(half), Phase(half, position) % ENTRY;
            EntriesBehind(half, position) == (f * d + position * Rounding(half)) / (ENTRY * d) >= 0
    ensures TableIndex(half, position) == (ExactEntries(half, position) - EntriesBehind(half, position)) % 32
  {
    IndexWithoutWrap(half, position);
    hide TableIndex, PhaseStep, Rounding;
    var d, r, phase := Denominator(half), Rounding(half), Phase(half, position);
    var n := position * 1_000_000 * 32;
    assert n * ENTRY == position * (1_000_000 * U32);
    assert position * (PhaseStep(half) * d + r) == phase * d + position * r;
    Lag(phase / ENTRY, phase % ENTRY, d, position * r, n);
    DivNonNegative((phase % ENTRY) * d + position * r, ENTRY * d);
  }

  // The index is the exact entry or the one before it exactly when the accumulated rounding stays short
  // of what is left to the end of the next entry.
  lemma OneEntryBehindIff(half: nat, position: nat)
    requires half > 0
    ensures EntriesBehind(half, position) <= 1 <==>
              position * Rounding(half) < Denominator(half) * (2 * ENTRY - Phase(half, position) % ENTRY)
  {
    LagIsRounding(half, position);
    hide TableIndex, PhaseStep, Rounding, Denominator, Phase, ExactEntries, EntriesBehind;
    var d, f, x := Denominator(half), Phase(half, position) % ENTRY, position * Rounding(half);
    var y := f * d + x;
    QuotientAtMostOne(y, ENTRY * d);
    assert d * (2 * ENTRY - f) == 2 * (ENTRY * d) - f * d;
  }

  lemma QuotientAtMostOne(y: nat, m: nat)
    requires m > 0
    ensures y / m <= 1 <==> y < 2 * m
  {
    var q := y / m;
    assert y == m * q + y % m;
    if q >= 2 {
      MulMonotone(m, 2, q);
    } else {
      MulMonotone(m, q, 1);
    }
  }

  // On the table, where the entries come round, the shown entry is the exact one or its predecessor
  // exactly when the lag is, up to whole periods.
  lemma ShownEntryIff(half: nat, position: nat)
    requires half > 0
    ensures var exact, shown := ExactEntries(half, position), TableIndex(half, position);
            shown == exact % 32 || shown == (exact - 1) % 32 <==> EntriesBehind(half, position) % 32 <= 1
  {
    hide TableIndex, PhaseStep, Rounding, Denominator, Phase, ExactEntries, EntriesBehind;
    LagIsRounding(half, position);
    ShiftedEntry(ExactEntries(half, position), EntriesBehind(half, position));
  }

  lemma ShiftedEntry(exact: int, behind: int)
    ensures (exact - behind) % 32 == exact % 32 || (exact - behind) % 32 == (exact - 1) % 32 <==> behind % 32 <= 1
  {
    var q, m := behind / 32, behind % 32;
    assert exact - behind == (exact - m) - 32 * q;
    assert (exact - behind) % 32 == (exact - m) % 32;
  }

  // In particular up to 2^27 frames, whatever the wavelength.
  lemma AtMostOneEntryBehind(half: nat, position: nat)
    requires half > 0 && position <= ENTRY
    ensures 0 <= EntriesBehind(half, position) <= 1
    ensures TableIndex(half, position) == (ExactEntries(half, position) - EntriesBehind(half, position)) % 32
  {
    hide TableIndex, PhaseStep, Rounding, Denominator, Phase, ExactEntries, EntriesBehind;
    LagIsRounding(half, position);
    OneEntryBehindIff(half, position);
    var d, f, r := Denominator(half), Phase(half, position) % ENTRY, Rounding(half);
    SmallRounding(position, r, d, f);
  }

  lemma SmallRounding(position: nat, r: nat, d: nat, f: nat)
    requires position <= ENTRY && r < d && f < ENTRY
    ensures position * r < d * (2 * ENTRY - f)
  {
    MulMonotone(r, position, ENTRY);
    MulMonotone(d, ENTRY + 1, 2 * ENTRY - f);
  }

  // A position where the bound is lost: the renderer admits offsets up to 2^32 - 1.
  lemma TwoEntriesBehindLater()
    ensures EntriesBehind(3, 6 * ENTRY) == 2 && TableIndex(3, 6 * ENTRY) == (ExactEntries(3, 6 * ENTRY) - 2) % 32
  {
    hide TableIndex;
    assert PhaseStep(3) == 89_478_485_333 && ExactEntries(3, 6 * ENTRY) == 536_870_912_000;
    LagIsRounding(3, 6 * ENTRY);
  }

  // ----- Samples -----

  function SampleAt(half: nat, position: nat): int
    requires half > 0
  {
    Sine32()[TableIndex(half, position)]
  }

  // The samples of frames first, first + 1, ...
  function Samples(half: nat, first: nat, frames: nat): (s: seq<int>)
    requires half > 0
    ensures |s| == frames
  {
    seq(frames, i requires 0 <= i < frames => SampleAt(half, first + i))
  }

  lemma NextSample(half: nat, first: nat, frames: nat)
    requires half > 0
    ensures Samples(half, first, frames + 1) == Samples(half, first, frames) + [Sine32()[TableIndex(half, first + frames)]]
  {
    hide TableIndex, Sine32;
    var a := Samples(half, first, frames + 1);
    assert a[frames] == SampleAt(half, first + frames);
    assert a[..frames] == Samples(half, first, frames);
  }

  // Little-endian 16-bit two's complement.
  function Pcm(samples: seq<int>): seq<Byte> {
    if samples == [] then [] else LE(samples[0] % U16, 2) + Pcm(samples[1..])
  }

  method FixedSine32Pcm(half: int, eventOffset: nat, cursor: nat, frames: int) returns (r: Result<seq<Byte>>)
    ensures r == if half <= 0 || frames < 0 then Err else Ok(Pcm(Samples(half, eventOffset + cursor, frames)))
  {
    if half <= 0 || frames < 0 {
      return Err;
    }
    var samples: seq<int> := [];
    for index := 0 to frames
      invariant samples == Samples(half, eventOffset + cursor, index)
    {
      var frame := (eventOffset + cursor + index) % U32;
      var phase := frame * (PhaseStep(half) % U32) % U32;
      assert phase / ENTRY == TableIndex(half, eventOffset + cursor + index);
      NextSample(half, eventOffset + cursor, index);
      samples := samples + [Sine32()[phase / ENTRY]];
    }
    return Ok(Pcm(samples));
  }

  lemma {:induction false} PcmAppends(a: seq<int>, b: seq<int>)
    ensures Pcm(a + b) == Pcm(a) + Pcm(b)
    decreases |a|
  {
    if a == [] {
      assert a + b == b;
    } else {
      assert (a + b)[1..] == a[1..] + b;
      PcmAppends(a[1..], b);
    }
  }

  // A 16-bit pattern as the signed number it stands for.
  function Signed16(n: nat): int { if n < U16 / 2 then n else n - U16 }

  // Each sample that fits 16 bits stands at its place in the bytes.
  lemma {:induction false} PcmReads(samples: seq<int>, i: nat)
    requires i < |samples| && -0x8000 <= samples[i] < 0x8000
    ensures |Pcm(samples)| == 2 * |samples|
    ensures Signed16(FromLE(Pcm(samples)[2 * i..2 * i + 2])) == samples[i]
    decreases |samples|
  {
    hide LE, FromLE, Pow256;
    var first, rest := LE(samples[0] % U16, 2), Pcm(samples[1..]);
    PcmLength(samples[1..]);
    if i == 0 {
      Pow256Values();
      FromLEOfLE(samples[0] % U16, 2);
      assert Pcm(samples)[0..2] == first;
    } else {
      PcmReads(samples[1..], i - 1);
      assert (first + rest)[2 * i..2 * i + 2] == rest[2 * (i - 1)..2 * (i - 1) + 2];
    }
  }

  lemma {:induction false} PcmLength(samples: seq<int>)
    ensures |Pcm(samples)| == 2 * |samples|
    decreases |samples|
  {
    hide LE;
    if samples != [] {
      PcmLength(samples[1..]);
    }
  }

  // Frame i of a rendered stretch reads back as the table sample at its absolute position.
  lemma RenderedSample(half: nat, first: nat, frames: nat, i: nat)
    requires half > 0 && i < frames
    ensures var pcm := Pcm(Samples(half, first, frames));
            && |pcm| == 2 * frames
            && Signed16(FromLE(pcm[2 * i..2 * i + 2])) == Sine32()[TableIndex(half, first + i)]
  {
    hide Pcm, FromLE, TableIndex, Sine32, Signed16, PhaseStep;
    var samples := Samples(half, first, frames);
    SineFits(TableIndex(half, first + i));
    assert samples[i] == SampleAt(half, first + i);
    PcmReads(samples, i);
  }

  lemma SineFits(i: nat)
    requires i < 32
    ensures -0x8000 <= Sine32()[i] < 0x8000
  {
    assert forall x :: x in Sine32() ==> -0x8000 <= x < 0x8000;
    assert Sine32()[i] in Sine32();
  }

  // Rendering two adjacent stretches is rendering their union.
  lemma AdjacentStretches(half: nat, first: nat, n: nat, m: nat)
    requires half > 0
    ensures Pcm(Samples(half, first, n)) + Pcm(Samples(half, first + n, m)) == Pcm(Samples(half, first, n + m))
  {
    hide Pcm, SampleAt;
    PcmAppends(Samples(half, first, n), Samples(half, first + n, m));
    assert Samples(half, first, n) + Samples(half, first + n, m) == Samples(half, first, n + m);
  }
}
