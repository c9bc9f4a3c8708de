/** The beeper's table is the sine: each entry is the integer nearest to 32767 times it. */
module AudioSine {
  import opened AudioRenderer

  // The sines of 0 to 8 sixteenths of a half turn, by the half-angle formulas: twice the square of the sine of an
  // angle is 1 less the cosine of its double, and of its cosine 1 more; the cosine of k sixteenths is the sine of 8 - k.
  predicate QuarterSines(s: seq<real>) {
    && |s| == 9 && s[0] == 0.0 && s[8] == 1.0 && (forall k :: 0 <= k <= 8 ==> s[k] >= 0.0)
    && forall k :: 0 <= k <= 4 ==> HalfAngle(s, k)
  }

  predicate HalfAngle(s: seq<real>, k: nat)
    requires |s| == 9 && k <= 4
  {
    2.0 * s[k] * s[k] == 1.0 - s[8 - 2 * k] && 2.0 * s[8 - k] * s[8 - k] == 1.0 + s[8 - 2 * k]
  }

  // All 32 of a turn: up, down, and the same below zero.
  function FullSine(s: seq<real>, k: nat): real
    requires |s| == 9 && k < 32
  {
    if k <= 8 then s[k] else if k <= 16 then s[16 - k] else if k <= 24 then -s[k - 16] else -s[32 - k]
  }

  lemma SquaresRise(x: real, y: real)
    requires 0.0 <= x <= y
    ensures x * x <= y * y
  {
    assert x * x <= x * y && x * y <= y * y;
  }

  lemma Bracket(x: real, lo: real, hi: real)
    requires x >= 0.0 && lo >= 0.0 && hi >= 0.0 && lo * lo < x * x < hi * hi
    ensures lo < x < hi
  {
    if x <= lo {
      SquaresRise(x, lo);
      assert false;
    }
    if x >= hi {
      SquaresRise(hi, x);
      assert false;
    }
  }

  // A root of half of v lies between two numbers whose squares do.
  lemma Rooted(x: real, v: real, lo: real, hi: real)
    requires x >= 0.0 && 2.0 * x * x == v && lo >= 0.0 && hi >= 0.0 && 2.0 * lo * lo < v < 2.0 * hi * hi
    ensures lo < x < hi
  {
    assert 2.0 * x * x == 2.0 * (x * x) && 2.0 * lo * lo == 2.0 * (lo * lo) && 2.0 * hi * hi == 2.0 * (hi * hi);
    Bracket(x, lo, hi);
  }

  // Six or seven digits of each sine, found from the eighth turn outwards.
  lemma QuarterDigits(s: seq<real>)
    requires QuarterSines(s)
    ensures 0.19509 < s[1] < 0.195091 && 0.382683 < s[2] < 0.382684 && 0.555569 < s[3] < 0.555571
    ensures 0.7071067 < s[4] < 0.7071068 && 0.831469 < s[5] < 0.83147 && 0.9238795 < s[6] < 0.9238796
    ensures 0.980785 < s[7] < 0.980786
  {
    assert HalfAngle(s, 4) && HalfAngle(s, 2) && HalfAngle(s, 1) && HalfAngle(s, 3);
    Rooted(s[4], 1.0, 0.7071067, 0.7071068);
    Rooted(s[6], 1.0 + s[4], 0.9238795, 0.9238796);
    Rooted(s[2], 1.0 - s[4], 0.382683, 0.382684);
    Rooted(s[1], 1.0 - s[6], 0.19509, 0.195091);
    Rooted(s[7], 1.0 + s[6], 0.980785, 0.980786);
    Rooted(s[3], 1.0 - s[2], 0.555569, 0.555571);
    Rooted(s[5], 1.0 + s[2], 0.831469, 0.83147);
  }

  predicate Nearest(n: int, x: real) { -0.5 < n as real - x < 0.5 }

  lemma QuarterIsNearest(s: seq<real>, k: nat)
    requires QuarterSines(s) && k <= 8
    ensures Nearest(Sine32()[k], 32767.0 * s[k])
  {
    QuarterDigits(s);
    hide QuarterSines;
    assert k in {0, 1, 2, 3, 4, 5, 6, 7, 8};
  }

  lemma TableFolds(k: nat)
    requires k < 32
    ensures Sine32()[k] == if k <= 8 then Sine32()[k] else if k <= 16 then Sine32()[16 - k]
                           else if k <= 24 then -Sine32()[k - 16] else -Sine32()[32 - k]
  {}

  // Each of the 32 entries is the integer nearest to 32767 times the sine of its place in the turn.
  lemma TableIsNearest(s: seq<real>, k: nat)
    requires QuarterSines(s) && k < 32
    ensures Nearest(Sine32()[k], 32767.0 * FullSine(s, k))
  {
    TableFolds(k);
    hide Sine32, QuarterSines;
    var j := if k <= 8 then k else if k <= 16 then 16 - k else if k <= 24 then k - 16 else 32 - k;
    QuarterIsNearest(s, j);
  }
}
