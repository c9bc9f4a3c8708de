/** The word functions of section 4.1.2 of FIPS 180-4 bit by bit, and words as big-endian bytes. */
module Fips180Words {
  import opened Arithmetic
  import opened Bytes
  import opened Fips180Constants
  import opened WordOperators
  import opened Fips180

  // ----- Section 4.1.2 -----

  // Ch chooses a bit of y or of z by the bit of x; Maj takes the bit that two of the three have.
  lemma ChoiceBits(x: Word, y: Word, z: Word, i: nat)
    requires i < 32
    ensures Bit(Ch(x, y, z), i) <==> if Bit(x, i) then Bit(y, i) else Bit(z, i)
    ensures Bit(Maj(x, y, z), i) <==> (Bit(x, i) && Bit(y, i)) || (Bit(x, i) && Bit(z, i)) || (Bit(y, i) && Bit(z, i))
  {
    hide Bit, And, Xor, Not;
    OperatorBits(x, y, i);
    OperatorBits(Not(x), z, i);
    OperatorBits(And(x, y), And(Not(x), z), i);
    OperatorBits(x, z, i);
    OperatorBits(y, z, i);
    OperatorBits(And(x, y), And(x, z), i);
    OperatorBits(Xor(And(x, y), And(x, z)), And(y, z), i);
  }

  // An odd number of three bits.
  predicate Odd(a: bool, b: bool, c: bool) { a != (b != c) }

  lemma ThreeXor(a: Word, b: Word, c: Word, i: nat)
    requires i < 32
    ensures Bit(Xor(Xor(a, b), c), i) <==> Odd(Bit(a, i), Bit(b, i), Bit(c, i))
  {
    hide Bit, Xor;
    OperatorBits(a, b, i);
    OperatorBits(Xor(a, b), c, i);
  }

  // The large sigmas add three rotations.
  lemma BigSigmaBits(x: Word, i: nat)
    requires i < 32
    ensures Bit(BigSigma0(x), i) <==> Odd(Bit(x, (i + 2) % 32), Bit(x, (i + 13) % 32), Bit(x, (i + 22) % 32))
    ensures Bit(BigSigma1(x), i) <==> Odd(Bit(x, (i + 6) % 32), Bit(x, (i + 11) % 32), Bit(x, (i + 25) % 32))
  {
    hide Bit, Xor, Rotr, Odd;
    ThreeXor(Rotr(x, 2), Rotr(x, 13), Rotr(x, 22), i);
    ThreeXor(Rotr(x, 6), Rotr(x, 11), Rotr(x, 25), i);
    RotrBits(x, 2, i);
    RotrBits(x, 13, i);
    RotrBits(x, 22, i);
    RotrBits(x, 6, i);
    RotrBits(x, 11, i);
    RotrBits(x, 25, i);
  }

  // The small sigmas add two rotations and a shift.
  lemma SmallSigmaBits(x: Word, i: nat)
    requires i < 32
    ensures Bit(SmallSigma0(x), i) <==> Odd(Bit(x, (i + 7) % 32), Bit(x, (i + 18) % 32), i + 3 < 32 && Bit(x, i + 3))
    ensures Bit(SmallSigma1(x), i) <==> Odd(Bit(x, (i + 17) % 32), Bit(x, (i + 19) % 32), i + 10 < 32 && Bit(x, i + 10))
  {
    hide Bit, Xor, Rotr, Shr, Odd;
    ThreeXor(Rotr(x, 7), Rotr(x, 18), Shr(x, 3), i);
    ThreeXor(Rotr(x, 17), Rotr(x, 19), Shr(x, 10), i);
    RotrBits(x, 7, i);
    RotrBits(x, 18, i);
    RotrBits(x, 17, i);
    RotrBits(x, 19, i);
    ShiftedRight(x, 3, i);
    ShiftedRight(x, 10, i);
  }

  // ----- Words as bytes, most significant first -----

  lemma FourBytes(s: seq<Byte>)
    requires |s| == 4
    ensures FromBigEndian(s) == 0x100_0000 * s[0] as int + 65536 * s[1] as int + 256 * s[2] as int + s[3] as int
  {
    assert s[..3][..2] == s[..2] && s[..2][..1] == s[..1] && s[..1][..0] == [];
    assert FromBigEndian(s[..1]) == s[0];
    assert FromBigEndian(s[..2]) == 256 * FromBigEndian(s[..1]) + s[1];
    assert FromBigEndian(s[..3]) == 256 * FromBigEndian(s[..2]) + s[2];
  }

  lemma StoredWord(w: Word)
    ensures |StoreWord(w)| == 4 && FromBigEndian(StoreWord(w)) == w
  {
    hide FromBigEndian;
    WordWidth();
    FourBytes(StoreWord(w));
    assert Shr(w, 24) == w / 0x100_0000 && Shr(w, 16) == w / 65536 && Shr(w, 8) == w / 256;
    BytesOfWord(w);
  }

  lemma BytesOfWord(w: nat)
    requires w < U32
    ensures w == 0x100_0000 * (w / 0x100_0000 % 256) + 65536 * (w / 65536 % 256) + 256 * (w / 256 % 256) + w % 256
  {
    var a, b := w / 256, w / 65536;
    assert b == a / 256 && w / 0x100_0000 == b / 256;
  }

  // Numbers without a common bit are added by Or.
  lemma {:induction false} OrAdds(x: nat, y: nat, low: nat, width: nat)
    requires y < Pow2(low) && low <= width && x * Pow2(low) < Pow2(width)
    ensures Combine(Either, x * Pow2(low), y, width) == x * Pow2(low) + y
    decreases width
  {
    if low > 0 {
      Reorder(x, Pow2(low - 1));
      OrAdds(x, y / 2, low - 1, width - 1);
    } else {
      assert x * Pow2(0) == x;
      OrWithZero(x, width);
    }
  }

  lemma {:induction false} OrWithZero(x: nat, width: nat)
    requires x < Pow2(width)
    ensures Combine(Either, x, 0, width) == x
    decreases width
  {
    if width > 0 {
      OrWithZero(x / 2, width - 1);
    }
  }

  lemma OrIs(x: nat, y: nat, low: nat)
    requires low <= 32 && y < Pow2(low) && x * Pow2(low) < U32
    ensures 0 <= x * Pow2(low) && y < U32 && Or(x * Pow2(low), y) == x * Pow2(low) + y
  {
    hide Pow2, Combine;
    WordWidth();
    Pow2Rises(low, 32);
    MulMonotone(x, 0, Pow2(low));
    OrAdds(x, y, low, 32);
  }

  lemma {:induction false} Pow2Rises(m: nat, n: nat)
    requires m <= n
    ensures Pow2(m) <= Pow2(n)
    decreases n
  {
    if m < n {
      Pow2Rises(m, n - 1);
    }
  }

  lemma ShiftedByte(x: Byte, y: Byte, z: Byte)
    ensures Shl(x, 24) == x as int * 0x100_0000 && Shl(y, 16) == y as int * 65536 && Shl(z, 8) == z as int * 256
  {
    hide Pow2;
    WordWidth();
  }

  lemma LoadedWord(b: seq<Byte>)
    requires |b| == 4
    ensures LoadWord(b) == FromBigEndian(b)
  {
    hide FromBigEndian, Or, Pow2, Shl;
    FourBytes(b);
    WordWidth();
    ShiftedByte(b[0], b[1], b[2]);
    var x: nat, y: nat, z: nat, w: nat := b[0], b[1], b[2], b[3];
    assert Shl(x, 24) == x * 0x100_0000 && Shl(y, 16) == y * 65536 && Shl(z, 8) == z * 256;
    OrIs(x, y * 65536, 24);
    var xy := x * 256 + y;
    assert x * 0x100_0000 + y * 65536 == xy * 65536;
    OrIs(xy, z * 256, 16);
    var xyz := xy * 256 + z;
    assert xy * 65536 + z * 256 == xyz * 256;
    OrIs(xyz, w, 8);
  }

  // ----- The digest and the schedule, read that way -----

  lemma {:induction false} SerializedAt(h: seq<Word>, i: nat)
    requires i < |h|
    ensures |Serialized(h)| == 4 * |h| && Serialized(h)[4 * i..4 * i + 4] == StoreWord(h[i])
    decreases |h|
  {
    hide StoreWord;
    var n := |h| - 1;
    StoredWord(h[n]);
    if i < n {
      SerializedAt(h[..n], i);
      assert Serialized(h)[4 * i..4 * i + 4] == Serialized(h[..n])[4 * i..4 * i + 4];
    } else if n > 0 {
      SerializedAt(h[..n], 0);
    }
  }

  // Every four bytes of a digest are, most significant first, a word of the final hash value.
  lemma DigestWords(m: seq<Byte>, i: nat)
    requires i < 8
    ensures |Padded(m)| % 64 == 0 && |Sha256(m)| == 32
    ensures FromBigEndian(Sha256(m)[4 * i..4 * i + 4]) == HashBlocks(Padded(m))[i]
  {
    hide FromBigEndian, StoreWord, HashBlocks, Padded, Serialized;
    PaddedLength(m);
    SerializedAt(HashBlocks(Padded(m)), i);
    StoredWord(HashBlocks(Padded(m))[i]);
  }

  // And every four bytes of a block are its first sixteen scheduled words.
  lemma ScheduleStarts(block: Block, t: nat)
    requires t < 16
    ensures Schedule(block, t) == FromBigEndian(block[4 * t..4 * t + 4])
  {
    LoadedWord(block[4 * t..4 * t + 4]);
  }

  // The constants stand in their places.
  lemma ConstantsInPlace(t: nat, i: nat)
    requires t < 64 && i < 8
    ensures IsCubeRoot(Prime(t) * POW96, CubeRootInteger(Prime(t)) * POW32 + K(t))
    ensures IsSquareRoot(Prime(i) * POW64, SquareRootInteger(Prime(i)) * POW32 + H0()[i])
  {
    hide IsCubeRoot, IsSquareRoot, Prime, CubeRootInteger, SquareRootInteger, RoundConstant, InitialValue;
  }
}
