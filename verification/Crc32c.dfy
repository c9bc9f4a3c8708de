/** CRC-32C: the bit-serial definition, the table-driven loop, and the bursts it detects. */
module Crc32c {
  import opened Bytes

  // ----- Words of 32 bits, least significant bit first -----

  type Word = w: seq<bool> | |w| == 32 witness seq(32, _ => false)

  function Falses(n: nat): seq<bool> { seq(n, _ => false) }

  function Xor(x: Word, y: Word): Word { seq(32, i requires 0 <= i < 32 => x[i] != y[i]) }

  function ShiftRight(x: Word, k: nat): Word
    requires k <= 32
  {
    x[k..] + Falses(k)
  }

  function ShiftLeft(x: Word, k: nat): Word
    requires k <= 32
  {
    Falses(k) + x[..32 - k]
  }

  function Bits(n: nat, width: nat): (s: seq<bool>)
    ensures |s| == width
  {
    if width == 0 then [] else [n % 2 == 1] + Bits(n / 2, width - 1)
  }

  function Value(s: seq<bool>): nat {
    if s == [] then 0 else (if s[0] then 1 else 0) + 2 * Value(s[1..])
  }

  lemma {:induction false} BitsOfValue(s: seq<bool>)
    ensures Bits(Value(s), |s|) == s
    decreases |s|
  {
    if s != [] {
      BitsOfValue(s[1..]);
    }
  }

  lemma {:induction false} Pow2Sum(a: nat, b: nat)
    ensures Pow2(a + b) == Pow2(a) * Pow2(b)
  {
    if a > 0 {
      Pow2Sum(a - 1, b);
      Pow2Next(a - 1);
      Pow2Next(a - 1 + b);
      hide Pow2;
      DoubleProduct(Pow2(a - 1), Pow2(b));
    }
  }

  lemma Pow2Next(n: nat)
    ensures Pow2(n + 1) == 2 * Pow2(n)
  {}

  lemma DoubleProduct(p: nat, q: nat)
    ensures 2 * p * q == 2 * (p * q)
  {}

  lemma {:induction false} ValueOfBits(n: nat, width: nat)
    requires n < Pow2(width)
    ensures Value(Bits(n, width)) == n
  {
    if width > 0 {
      ValueOfBits(n / 2, width - 1);
      assert Bits(n, width)[1..] == Bits(n / 2, width - 1);
    }
  }

  lemma {:induction false} ValueFits(s: seq<bool>)
    ensures Value(s) < Pow2(|s|)
    decreases |s|
  {
    if s != [] {
      ValueFits(s[1..]);
    }
  }

  // ----- Bit-serial definition (reflected, as in appendix B of RFC 4960) -----

  const POLYNOMIAL: nat := 0x82F63B78

  // The generator's exponents below 32: the register's bit i stands for x to the power 31 - i. It starts with all ones.
  function Exponents(): set<nat> { {28, 27, 26, 25, 23, 22, 20, 19, 18, 14, 13, 11, 10, 9, 8, 6, 0} }

  lemma GeneratorIs(i: nat)
    requires i < 32
    ensures (Bits(POLYNOMIAL, 32)[i] <==> 31 - i in Exponents()) && Ones()[i]
  {
    hide Bits, Halves;
    GeneratorHalves();
    BitsApart(POLYNOMIAL, 8, 24);
    BitsApart(0x82F63B, 8, 16);
    BitsApart(0x82F6, 8, 8);
    if i < 8 {
      LowestBits();
      LowestExponents(i);
    } else if i < 16 {
      LowBits8();
      LowExponents(i);
    } else if i < 24 {
      HighBits8();
      HighExponents(i);
    } else {
      HighestBits();
      HighestExponents(i);
    }
  }

  function Halves(n: nat, k: nat): nat { if k == 0 then n else Halves(n / 2, k - 1) }

  lemma {:induction false} BitsApart(n: nat, k: nat, width: nat)
    ensures Bits(n, k + width) == Bits(n, k) + Bits(Halves(n, k), width)
    decreases k
  {
    if k > 0 {
      BitsApart(n / 2, k - 1, width);
    } else {
      assert Bits(n, 0) + Bits(n, width) == Bits(n, width);
    }
  }

  lemma GeneratorHalves()
    ensures Halves(POLYNOMIAL, 8) == 0x82F63B && Halves(0x82F63B, 8) == 0x82F6 && Halves(0x82F6, 8) == 0x82
  {}

  lemma LowestBits()
    ensures Bits(POLYNOMIAL, 8) == [false, false, false, true, true, true, true, false]
  {}

  lemma LowBits8()
    ensures Bits(0x82F63B, 8) == [true, true, false, true, true, true, false, false]
  {}

  lemma HighBits8()
    ensures Bits(0x82F6, 8) == [false, true, true, false, true, true, true, true]
  {}

  lemma HighestBits()
    ensures Bits(0x82, 8) == [false, true, false, false, false, false, false, true]
  {}

  lemma LowestExponents(i: nat)
    requires i < 8
    ensures 31 - i in Exponents() <==> i in {3, 4, 5, 6}
  {}

  lemma LowExponents(i: nat)
    requires 8 <= i < 16
    ensures 31 - i in Exponents() <==> i in {8, 9, 11, 12, 13}
  {}

  lemma HighExponents(i: nat)
    requires 16 <= i < 24
    ensures 31 - i in Exponents() <==> i in {17, 18, 20, 21, 22, 23}
  {}

  lemma HighestExponents(i: nat)
    requires 24 <= i < 32
    ensures 31 - i in Exponents() <==> i in {25, 31}
  {}

  function Step(x: Word): Word {
    if x[0] then Xor(ShiftRight(x, 1), Bits(POLYNOMIAL, 32)) else ShiftRight(x, 1)
  }

  function Steps(x: Word, n: nat): Word
    decreases n
  {
    if n == 0 then x else Steps(Step(x), n - 1)
  }

  // The register after shifting in the bytes of data.
  function Register(x: Word, data: seq<Byte>): Word
    decreases |data|
  {
    if data == [] then x else Register(Steps(Xor(x, Bits(data[0], 32)), 8), data[1..])
  }

  function Ones(): Word { seq(32, _ => true) }

  function Crc(data: seq<Byte>): nat { Value(Xor(Register(Ones(), data), Ones())) }

  lemma CrcFits(data: seq<Byte>)
    ensures Crc(data) < U32
  {
    ValueFits(Xor(Register(Ones(), data), Ones()));
    assert Pow2(8) == 256;
    Pow2Sum(8, 8);
    Pow2Sum(16, 16);
  }

  // ----- Linearity of a step -----

  lemma StepXor(x: Word, y: Word)
    ensures Step(Xor(x, y)) == Xor(Step(x), Step(y))
  {
    hide Bits;
  }

  lemma {:induction false} StepsXor(x: Word, y: Word, n: nat)
    ensures Steps(Xor(x, y), n) == Xor(Steps(x, n), Steps(y, n))
    decreases n
  {
    hide Step, Xor;
    if n > 0 {
      StepXor(x, y);
      StepsXor(Step(x), Step(y), n - 1);
    }
  }

  lemma {:induction false} StepsAdd(x: Word, m: nat, n: nat)
    ensures Steps(Steps(x, m), n) == Steps(x, m + n)
    decreases m
  {
    hide Step;
    if m > 0 {
      StepsAdd(Step(x), m - 1, n);
    }
  }

  // A word whose lowest k bits are clear is only shifted by k steps.
  lemma {:induction false} StepsOfHigh(x: Word, k: nat)
    requires k <= 32 && forall i :: 0 <= i < k ==> !x[i]
    ensures Steps(x, k) == ShiftRight(x, k)
    decreases k
  {
    if k > 0 {
      StepsOfHigh(ShiftRight(x, 1), k - 1);
    }
  }

  lemma {:induction false} TopBit(n: nat, width: nat)
    requires Pow2(width) <= n < Pow2(width + 1)
    ensures Bits(n, width + 1)[width]
  {
    if width > 0 {
      TopBit(n / 2, width - 1);
    }
  }

  lemma PolynomialTopBit()
    ensures Bits(POLYNOMIAL, 32)[31]
  {
    assert Pow2(7) == 128 && Pow2(8) == 256;
    Pow2Sum(8, 8);
    Pow2Sum(8, 16);
    Pow2Sum(24, 7);
    Pow2Sum(24, 8);
    TopBit(POLYNOMIAL, 31);
  }

  lemma StepBit(x: Word, i: nat)
    requires i < 32
    ensures Step(x)[i] == ((i < 31 && x[i + 1]) != (x[0] && Bits(POLYNOMIAL, 32)[i]))
  {
    hide Bits;
  }

  // The top bit of a step's result tells whether the polynomial was added.
  lemma StepInjective(x: Word, y: Word)
    requires Step(x) == Step(y)
    ensures x == y
  {
    hide *;
    PolynomialTopBit();
    StepBit(x, 31);
    StepBit(y, 31);
    forall i | 0 <= i < 32 ensures x[i] == y[i] {
      if i > 0 {
        StepBit(x, i - 1);
        StepBit(y, i - 1);
      }
    }
  }

  lemma {:induction false} StepsInjective(x: Word, y: Word, n: nat)
    requires Steps(x, n) == Steps(y, n)
    ensures x == y
    decreases n
  {
    hide Step;
    if n > 0 {
      StepsInjective(Step(x), Step(y), n - 1);
      StepInjective(x, y);
    }
  }

  // ----- The table-driven loop -----

  function LowByte(x: Word): seq<bool> { x[..8] }

  // One table lookup does the work of eight steps.
  lemma LookupIsEightSteps(x: Word, b: Byte)
    ensures var u := Xor(x, Bits(b, 32));
            Xor(Steps(Bits(Value(LowByte(u)), 32), 8), ShiftRight(x, 8)) == Steps(u, 8)
  {
    hide Steps, Xor, Bits, Value, ShiftRight, LowByte;
    var u := Xor(x, Bits(b, 32));
    var low, high := LowPart(u), HighPart(u);
    BitsOfLow(LowByte(u));
    LowAndHigh(u);
    StepsXor(low, high, 8);
    StepsOfHigh(high, 8);
    HighPartShifts(x, b);
  }

  function LowPart(u: Word): Word { LowByte(u) + Falses(24) }

  function HighPart(u: Word): Word { Falses(8) + u[8..] }

  lemma LowAndHigh(u: Word)
    ensures u == Xor(LowPart(u), HighPart(u)) && LowByte(u) + Falses(24) == LowPart(u)
    ensures forall i :: 0 <= i < 8 ==> !HighPart(u)[i]
  {}

  // Shifting out the low byte forgets the byte that was added to it.
  lemma HighPartShifts(x: Word, b: Byte)
    ensures ShiftRight(HighPart(Xor(x, Bits(b, 32))), 8) == ShiftRight(x, 8)
  {
    hide Bits;
    HighBitsClear(b);
  }

  lemma BitsOfLow(s: seq<bool>)
    requires |s| == 8
    ensures Bits(Value(s), 32) == s + Falses(24)
  {
    BitsOfValue(s + Falses(24));
    ValueOfPadded(s, 24);
  }

  lemma {:induction false} ValueOfPadded(s: seq<bool>, n: nat)
    ensures Value(s + Falses(n)) == Value(s)
    decreases |s| + n
  {
    if s != [] {
      assert (s + Falses(n))[1..] == s[1..] + Falses(n);
      ValueOfPadded(s[1..], n);
    } else if n > 0 {
      assert Falses(n)[1..] == Falses(n - 1);
      assert [] + Falses(n) == Falses(n) && [] + Falses(n - 1) == Falses(n - 1);
      ValueOfPadded([], n - 1);
    }
  }

  lemma HighBitsClear(b: Byte)
    ensures Bits(b, 32) == Bits(b, 8) + Falses(24)
  {
    assert Pow2(8) == 256;
    ValueOfBits(b, 8);
    BitsOfLow(Bits(b, 8));
  }

  ghost predicate IsTable(table: seq<Word>) {
    |table| == 256 && forall v :: 0 <= v < 256 ==> table[v] == Steps(Bits(v, 32), 8)
  }

  method BuildTable() returns (table: seq<Word>)
    ensures IsTable(table)
  {
    hide Step;
    table := [];
    for initial := 0 to 256
      invariant |table| == initial
      invariant forall v :: 0 <= v < initial ==> table[v] == Steps(Bits(v, 32), 8)
    {
      var value: Word := Bits(initial, 32);
      for i := 0 to 8
        invariant Steps(value, 8 - i) == Steps(Bits(initial, 32), 8)
      {
        value := Step(value);
      }
      table := table + [value];
    }
  }

  /** The table-driven CRC of both trace codecs. */
  method Compute(data: seq<Byte>) returns (crc: nat)
    ensures crc == Crc(data)
  {
    hide Steps, Xor, ShiftRight;
    var table := BuildTable();
    var x := Ones();
    assert data[0..] == data;
    for i := 0 to |data|
      invariant Register(x, data[i..]) == Register(Ones(), data)
    {
      var u := Xor(x, Bits(data[i], 32));
      LookupIsEightSteps(x, data[i]);
      ValueFits(LowByte(u));
      assert Pow2(8) == 256;
      x := Xor(table[Value(LowByte(u))], ShiftRight(x, 8));
      assert data[i..][1..] == data[i + 1..];
    }
    crc := Value(Xor(x, Ones()));
  }

  // ----- Error detection -----

  lemma {:induction false} RegisterConcat(x: Word, a: seq<Byte>, b: seq<Byte>)
    ensures Register(x, a + b) == Register(Register(x, a), b)
    decreases |a|
  {
    hide Steps, Xor;
    if a == [] {
      assert a + b == b;
    } else {
      assert (a + b)[1..] == a[1..] + b;
      RegisterConcat(Steps(Xor(x, Bits(a[0], 32)), 8), a[1..], b);
    }
  }

  lemma XorCancels(x: Word, y: Word, c: Word)
    requires Xor(x, c) == Xor(y, c)
    ensures x == y
  {
    forall i | 0 <= i < 32 ensures x[i] == y[i] {
      assert Xor(x, c)[i] == Xor(y, c)[i];
    }
  }

  lemma {:induction false} RegisterInjective(x: Word, y: Word, data: seq<Byte>)
    requires Register(x, data) == Register(y, data)
    ensures x == y
    decreases |data|
  {
    hide Steps, Xor;
    if data != [] {
      var c := Bits(data[0], 32);
      RegisterInjective(Steps(Xor(x, c), 8), Steps(Xor(y, c), 8), data[1..]);
      StepsInjective(Xor(x, c), Xor(y, c), 8);
      XorCancels(x, y, c);
    }
  }

  // Up to four bytes as one word, least significant byte first.
  function Pack(data: seq<Byte>): (s: seq<bool>)
    ensures |s| == 8 * |data|
  {
    if data == [] then [] else Bits(data[0], 8) + Pack(data[1..])
  }

  function Widen(s: seq<bool>): Word
    requires |s| <= 32
  {
    s + Falses(32 - |s|)
  }

  lemma {:induction false} PackInjective(a: seq<Byte>, b: seq<Byte>)
    requires |a| == |b| && Pack(a) == Pack(b)
    ensures a == b
    decreases |a|
  {
    if a != [] {
      assert Bits(a[0], 8) == Pack(a)[..8] == Pack(b)[..8] == Bits(b[0], 8);
      assert Pack(a[1..]) == Pack(a)[8..] == Pack(b)[8..] == Pack(b[1..]);
      assert Pow2(8) == 256;
      ValueOfBits(a[0], 8);
      ValueOfBits(b[0], 8);
      PackInjective(a[1..], b[1..]);
      assert a == [a[0]] + a[1..] && b == [b[0]] + b[1..];
    }
  }

  // Up to four bytes act on the register like one word.
  lemma {:induction false} RegisterOfWord(x: Word, data: seq<Byte>)
    requires |data| <= 4
    ensures Register(x, data) == Steps(Xor(x, Widen(Pack(data))), 8 * |data|)
    decreases |data|
  {
    hide Steps;
    if data == [] {
      assert Xor(x, Widen([])) == x;
      NoSteps(x);
    } else {
      var c, rest := Bits(data[0], 32), data[1..];
      var p := Widen(Pack(rest));
      var high := ShiftLeft(p, 8);
      RegisterOfWord(Steps(Xor(x, c), 8), rest);
      StepsOfHigh(high, 8);
      assert ShiftRight(high, 8) == p;
      StepsXor(Xor(x, c), high, 8);
      HighBitsClear(data[0]);
      assert Xor(Xor(x, c), high) == Xor(x, Widen(Pack(data)));
      StepsAdd(Xor(x, Widen(Pack(data))), 8, 8 * |rest|);
    }
  }

  lemma NoSteps(x: Word)
    ensures Steps(x, 0) == x
  {}

  // Strings of equal length that differ only within four consecutive bytes have different CRCs.
  lemma BurstDetected(a: seq<Byte>, b: seq<Byte>, i: nat)
    requires |a| == |b| && a != b && i <= |a|
    requires forall j :: 0 <= j < |a| && !(i <= j < i + 4) ==> a[j] == b[j]
    ensures Crc(a) != Crc(b)
  {
    var k := if i + 4 <= |a| then i + 4 else |a|;
    var p, u, v, s := a[..i], a[i..k], b[i..k], a[k..];
    assert a == p + u + s && b == p + v + s;
    if Crc(a) == Crc(b) {
      CrcDeterminesRegister(a, b);
      WindowDetermined(p, u, v, s);
      assert false;
    }
  }

  lemma WindowDetermined(p: seq<Byte>, u: seq<Byte>, v: seq<Byte>, s: seq<Byte>)
    requires |u| == |v| <= 4
    requires Register(Ones(), p + u + s) == Register(Ones(), p + v + s)
    ensures u == v
  {
    hide Register, Steps, Xor, Pack;
    var x := Register(Ones(), p);
    RegisterConcat(Ones(), p + u, s);
    RegisterConcat(Ones(), p + v, s);
    RegisterConcat(Ones(), p, u);
    RegisterConcat(Ones(), p, v);
    RegisterInjective(Register(x, u), Register(x, v), s);
    RegisterOfWord(x, u);
    RegisterOfWord(x, v);
    var a, b := Widen(Pack(u)), Widen(Pack(v));
    StepsInjective(Xor(x, a), Xor(x, b), 8 * |u|);
    XorCommutes(x, a);
    XorCommutes(x, b);
    XorCancels(a, b, x);
    assert Pack(u) == a[..8 * |u|] && Pack(v) == b[..8 * |v|];
    PackInjective(u, v);
  }

  lemma XorCommutes(x: Word, y: Word)
    ensures Xor(x, y) == Xor(y, x)
  {}

  lemma CrcDeterminesRegister(a: seq<Byte>, b: seq<Byte>)
    requires Crc(a) == Crc(b)
    ensures Register(Ones(), a) == Register(Ones(), b)
  {
    hide Register, Xor;
    var x, y := Register(Ones(), a), Register(Ones(), b);
    BitsOfValue(Xor(x, Ones()));
    BitsOfValue(Xor(y, Ones()));
    XorCancels(x, y, Ones());
  }
}
