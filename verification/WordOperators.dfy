/** The operators of 32-bit unsigned words, by arithmetic, and what each does to the bits. */
module WordOperators {
  import opened Arithmetic
  import opened Bytes

  type Word = w: nat | w < U32

  lemma WordWidth()
    ensures Pow2(8) == 256 && Pow2(16) == 65536 && Pow2(24) == 0x100_0000 && Pow2(32) == U32
  {
    assert Pow2(4) == 16;
    assert Pow2(12) == 4096;
    assert Pow2(20) == 0x10_0000;
    assert Pow2(28) == 0x1000_0000;
  }

  // ----- Bitwise operators -----

  // The number whose lowest bits come from those of x and y by f.
  function Combine(f: (bool, bool) -> bool, x: nat, y: nat, width: nat): (r: nat)
    ensures r < Pow2(width)
    decreases width
  {
    if width == 0 then 0 else
    (if f(x % 2 == 1, y % 2 == 1) then 1 else 0) + 2 * Combine(f, x / 2, y / 2, width - 1)
  }

  function Both(a: bool, b: bool): bool { a && b }

  function Either(a: bool, b: bool): bool { a || b }

  function OneOf(a: bool, b: bool): bool { a != b }

  function And(x: Word, y: Word): Word { WordWidth(); Combine(Both, x, y, 32) }

  function Or(x: Word, y: Word): Word { WordWidth(); Combine(Either, x, y, 32) }

  function Xor(x: Word, y: Word): Word { WordWidth(); Combine(OneOf, x, y, 32) }

  function Not(x: Word): Word { U32 - 1 - x }

  lemma {:induction false} CombineBits(f: (bool, bool) -> bool, x: nat, y: nat, width: nat, i: nat)
    ensures Bit(Combine(f, x, y, width), i) <==> i < width && f(Bit(x, i), Bit(y, i))
    decreases width, i
  {
    if width == 0 {
      NoBits(i);
    } else if i > 0 {
      CombineBits(f, x / 2, y / 2, width - 1, i - 1);
    }
  }

  lemma {:induction false} NoBits(i: nat)
    ensures !Bit(0, i)
  {
    if i > 0 {
      NoBits(i - 1);
    }
  }

  lemma {:induction false} ComplementBits(x: nat, width: nat, i: nat)
    requires x < Pow2(width) && i < width
    ensures Bit(Pow2(width) - 1 - x, i) <==> !Bit(x, i)
    decreases width
  {
    var c := Pow2(width) - 1 - x;
    assert c / 2 == Pow2(width - 1) - 1 - x / 2 && (c % 2 == 1 <==> x % 2 == 0);
    if i > 0 {
      ComplementBits(x / 2, width - 1, i - 1);
    }
  }

  lemma OperatorBits(x: Word, y: Word, i: nat)
    requires i < 32
    ensures Bit(And(x, y), i) <==> Bit(x, i) && Bit(y, i)
    ensures Bit(Or(x, y), i) <==> Bit(x, i) || Bit(y, i)
    ensures Bit(Xor(x, y), i) <==> Bit(x, i) != Bit(y, i)
    ensures Bit(Not(x), i) <==> !Bit(x, i)
  {
    hide Bit, Combine, Pow2;
    CombineBits(Both, x, y, 32, i);
    CombineBits(Either, x, y, 32, i);
    CombineBits(OneOf, x, y, 32, i);
    WordWidth();
    ComplementBits(x, 32, i);
  }

  // ----- Shifts and rotation -----

  function Shr(x: Word, n: nat): Word { DivideDown(x, Pow2(n)); x / Pow2(n) }

  function Shl(x: Word, n: nat): Word { x * Pow2(n) % U32 }

  function Rotr(x: Word, n: nat): Word
    requires n <= 32
  {
    Or(Shr(x, n), Shl(x, 32 - n))
  }

  lemma DivideDown(x: nat, d: nat)
    requires d > 0
    ensures 0 <= x / d <= x
  {
    DivNonNegative(x, d);
    var q := x / d;
    MulMonotone(q, 1, d);
    assert x == d * q + x % d;
  }

  lemma HalveAgain(x: nat, n: nat)
    requires n > 0
    ensures x / Pow2(n) == x / 2 / Pow2(n - 1)
  {
    var p := Pow2(n - 1);
    var h, b := x / 2, x % 2;
    var q, r := h / p, h % p;
    assert h == p * q + r && 0 <= r < p;
    assert x == 2 * (p * q + r) + b;
    assert x == Pow2(n) * q + (2 * r + b) by {
      assert 2 * (p * q) == 2 * p * q;
    }
    DivModUnique(x, Pow2(n), q, 2 * r + b);
  }

  lemma {:induction false} ShrBits(x: nat, n: nat, i: nat)
    ensures x / Pow2(n) >= 0
    ensures Bit(x / Pow2(n), i) <==> Bit(x, i + n)
    decreases n
  {
    DivideDown(x, Pow2(n));
    if n > 0 {
      HalveAgain(x, n);
      ShrBits(x / 2, n - 1, i);
    }
  }

  lemma {:induction false} TimesBits(x: nat, n: nat, i: nat)
    ensures Bit(x * Pow2(n), i) <==> i >= n && Bit(x, i - n)
    decreases n, i
  {
    if n > 0 {
      assert x * Pow2(n) == 2 * (x * Pow2(n - 1)) by {
        Reorder(x, Pow2(n - 1));
      }
      if i > 0 {
        assert x * Pow2(n) / 2 == x * Pow2(n - 1);
        TimesBits(x, n - 1, i - 1);
      }
    }
  }

  lemma Reorder(x: nat, p: nat)
    ensures x * (2 * p) == 2 * (x * p)
  {}

  // Reducing modulo a power of two keeps the bits below it.
  lemma {:induction false} ModBits(x: nat, width: nat, i: nat)
    requires i < width
    ensures Bit(x % Pow2(width), i) <==> Bit(x, i)
    decreases width
  {
    HalfOfMod(x, Pow2(width - 1));
    if i > 0 {
      ModBits(x / 2, width - 1, i - 1);
    }
  }

  lemma HalfOfMod(x: nat, p: nat)
    requires p > 0
    ensures 0 <= x % (2 * p) && x % (2 * p) / 2 == x / 2 % p && x % (2 * p) % 2 == x % 2
  {
    var q, r := x / 2 / p, x / 2 % p;
    assert x / 2 == p * q + r;
    assert x == 2 * (p * q + r) + x % 2;
    var s := 2 * r + x % 2;
    assert x == 2 * p * q + s by {
      assert 2 * (p * q) == 2 * p * q;
    }
    DivModUnique(x, 2 * p, q, s);
  }

  lemma {:induction false} NoBitsAbove(x: nat, width: nat, i: nat)
    requires x < Pow2(width) && i >= width
    ensures !Bit(x, i)
    decreases width
  {
    if width == 0 {
      NoBits(i);
    } else {
      NoBitsAbove(x / 2, width - 1, i - 1);
    }
  }

  // Bit i of a word rotated right by n is bit i + n, around the word.
  lemma RotrBits(x: Word, n: nat, i: nat)
    requires n <= 32 && i < 32
    ensures Bit(Rotr(x, n), i) <==> Bit(x, (i + n) % 32)
  {
    hide Bit, Combine, Pow2, Or, Shr, Shl;
    var a, b := Shr(x, n), Shl(x, 32 - n);
    WordWidth();
    OperatorBits(a, b, i);
    ShiftedRight(x, n, i);
    ShiftedLeft(x, 32 - n, i);
  }

  lemma ShiftedRight(x: Word, n: nat, i: nat)
    ensures Bit(Shr(x, n), i) <==> i + n < 32 && Bit(x, i + n)
  {
    ShrBits(x, n, i);
    if i + n >= 32 {
      WordWidth();
      NoBitsAbove(x, 32, i + n);
    }
  }

  lemma ShiftedLeft(x: Word, n: nat, i: nat)
    requires i < 32
    ensures Bit(Shl(x, n), i) <==> i >= n && Bit(x, i - n)
  {
    WordWidth();
    TimesBits(x, n, i);
    ModBits(x * Pow2(n), 32, i);
  }
}
