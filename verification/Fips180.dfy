/** The hash function SHA-256 of FIPS 180-4, over whole bytes. */
module Fips180 {
  import opened Arithmetic
  import opened Bytes
  import opened Fips180Constants
  import opened WordOperators

  type Block = b: seq<Byte> | |b| == 64 witness seq(64, _ => 0)
  type State = h: seq<Word> | |h| == 8 witness seq(8, _ => 0)

  // ----- Section 4.1.2: functions on words -----

  function Add(x: Word, y: Word): Word { (x + y) % POW32 }

  function Ch(x: Word, y: Word, z: Word): Word { Xor(And(x, y), And(Not(x), z)) }

  function Maj(x: Word, y: Word, z: Word): Word { Xor(Xor(And(x, y), And(x, z)), And(y, z)) }

  function BigSigma0(x: Word): Word { Xor(Xor(Rotr(x, 2), Rotr(x, 13)), Rotr(x, 22)) }

  function BigSigma1(x: Word): Word { Xor(Xor(Rotr(x, 6), Rotr(x, 11)), Rotr(x, 25)) }

  function SmallSigma0(x: Word): Word { Xor(Xor(Rotr(x, 7), Rotr(x, 18)), Shr(x, 3)) }

  function SmallSigma1(x: Word): Word { Xor(Xor(Rotr(x, 17), Rotr(x, 19)), Shr(x, 10)) }

  // ----- Sections 4.2.2 and 5.3.3: constants -----

  function K(t: nat): Word
    requires t < 64
  {
    RoundConstant(t)
  }

  function H0(): State { seq(8, i requires 0 <= i < 8 => InitialValue(i)) }

  // ----- Section 5.1.1: padding -----

  // Byte i, counted from the least significant one, of a 64-bit number.
  function ByteOf(n: nat, i: nat): Byte {
    (n / Pow256(i)) % 256
  }

  function BigEndian64(n: nat): (s: seq<Byte>)
    ensures |s| == 8
  {
    seq(8, i requires 0 <= i < 8 => ByteOf(n, 7 - i))
  }

  // How many zero bytes bring n + 1 bytes to 56 modulo 64.
  function ZeroCount(n: nat): nat { (55 - n) % 64 }

  lemma ZeroCountFits(n: nat)
    ensures (n + 1 + ZeroCount(n)) % 64 == 56 && (n + 9 + ZeroCount(n)) % 64 == 0
  {
    var q, z := (55 - n) / 64, ZeroCount(n);
    assert 55 - n == 64 * q + z;
    assert n + 1 + z == 64 * -q + 56;
    assert n + 9 + z == 64 * (1 - q);
  }

  // The bit length is recorded modulo 2^64; see PaddingIsStandard for the messages that have one.
  function Padded(m: seq<Byte>): seq<Byte> {
    m + [0x80] + Zeros(ZeroCount(|m|)) + BigEndian64((8 * |m|) % U64)
  }

  // ----- Section 6.2.2: computation -----

  function LoadWord(b: seq<Byte>): Word
    requires |b| == 4
  {
    Or(Or(Or(Shl(b[0], 24), Shl(b[1], 16)), Shl(b[2], 8)), b[3])
  }

  function StoreWord(w: Word): seq<Byte> { [Shr(w, 24) % 256, Shr(w, 16) % 256, Shr(w, 8) % 256, w % 256] }

  function Schedule(block: Block, t: nat): Word
    requires t < 64
  {
    if t < 16 then LoadWord(block[4 * t..4 * t + 4])
    else Add(Add(Add(SmallSigma1(Schedule(block, t - 2)), Schedule(block, t - 7)),
                 SmallSigma0(Schedule(block, t - 15))), Schedule(block, t - 16))
  }

  datatype Working = Working(a: Word, b: Word, c: Word, d: Word, e: Word, f: Word, g: Word, h: Word)

  function Round(v: Working, k: Word, w: Word): Working {
    var t1 := Add(Add(Add(Add(v.h, BigSigma1(v.e)), Ch(v.e, v.f, v.g)), k), w);
    var t2 := Add(BigSigma0(v.a), Maj(v.a, v.b, v.c));
    Working(Add(t1, t2), v.a, v.b, v.c, Add(v.d, t1), v.e, v.f, v.g)
  }

  function Start(h: State): Working { Working(h[0], h[1], h[2], h[3], h[4], h[5], h[6], h[7]) }

  function Rounds(h: State, words: seq<Word>, t: nat): Working
    requires t <= |words| <= 64
  {
    if t == 0 then Start(h) else Round(Rounds(h, words, t - 1), K(t - 1), words[t - 1])
  }

  function Words(block: Block): (words: seq<Word>)
    ensures |words| == 64
  {
    seq(64, t requires 0 <= t < 64 => Schedule(block, t))
  }

  function AllRounds(h: State, block: Block): Working {
    var words := Words(block);
    Rounds(h, words, |words|)
  }

  function Feed(h: State, v: Working): State {
    [Add(h[0], v.a), Add(h[1], v.b), Add(h[2], v.c), Add(h[3], v.d),
     Add(h[4], v.e), Add(h[5], v.f), Add(h[6], v.g), Add(h[7], v.h)]
  }

  function Compress(h: State, block: Block): State { Feed(h, AllRounds(h, block)) }

  // The intermediate hash value after all the blocks of s.
  function HashBlocks(s: seq<Byte>): State
    requires |s| % 64 == 0
  {
    if s == [] then H0() else
    assert |s| >= 64;
    Compress(HashBlocks(s[..|s| - 64]), s[|s| - 64..])
  }

  function Serialized(h: seq<Word>): seq<Byte> {
    if h == [] then [] else Serialized(h[..|h| - 1]) + StoreWord(h[|h| - 1])
  }

  function Sha256(m: seq<Byte>): seq<Byte> {
    PaddedLength(m);
    Serialized(HashBlocks(Padded(m)))
  }

  lemma PaddedLength(m: seq<Byte>)
    ensures |Padded(m)| % 64 == 0
  {
    ZeroCountFits(|m|);
  }

  // ----- What makes this the standard's padding and constants -----

  function FromBigEndian(s: seq<Byte>): nat {
    if s == [] then 0 else 256 * FromBigEndian(s[..|s| - 1]) + s[|s| - 1]
  }

  // The first k of the eight bytes are the number's leading part.
  lemma {:induction false} LeadingBytes(n: nat, k: nat)
    requires k <= 8 && n < U64
    ensures FromBigEndian(BigEndian64(n)[..k]) == n / Pow256(8 - k)
  {
    hide Pow256, BigEndian64;
    var s := BigEndian64(n);
    if k == 0 {
      Pow256Values();
    } else {
      LeadingBytes(n, k - 1);
      BigEndianByte(n, k - 1);
      NextPower(8 - k);
      assert s[..k][..k - 1] == s[..k - 1] && s[..k][k - 1] == s[k - 1];
      DivideAgain(n, Pow256(8 - k));
    }
  }

  lemma BigEndianByte(n: nat, i: nat)
    requires i < 8
    ensures BigEndian64(n)[i] == n / Pow256(7 - i) % 256
  {
    hide Pow256;
  }

  lemma NextPower(k: nat)
    ensures Pow256(k + 1) == 256 * Pow256(k)
  {}

  lemma DivideAgain(n: nat, p: nat)
    requires p > 0
    ensures n / p == 256 * (n / (256 * p)) + (n / p) % 256
  {
    var q, r := n / p, n % p;
    var a, b := q / 256, q % 256;
    assert q == 256 * a + b;
    Distribute(p, a, b);
    assert p * b <= p * 255 by { MulMonotone(p, b, 255); }
    DivModUnique(n, 256 * p, a, p * b + r);
  }

  lemma Distribute(p: nat, a: nat, b: nat)
    ensures p * (256 * a + b) == 256 * p * a + p * b
  {}

  lemma LengthField(n: nat)
    requires n < U64
    ensures |BigEndian64(n)| == 8 && FromBigEndian(BigEndian64(n)) == n
  {
    LeadingBytes(n, 8);
    assert BigEndian64(n)[..8] == BigEndian64(n);
  }

  // Section 5.1.1: a one bit, the least number of zero bits that leaves 64 bits of the last block,
  // and the bit length in those 64 bits; defined for messages of fewer than 2^64 bits.
  ghost predicate IsStandardPadding(m: seq<Byte>, p: seq<Byte>, zeros: nat) {
    && |p| == |m| + 1 + zeros + 8
    && |p| % 64 == 0 && zeros < 64
    && p[..|m|] == m && p[|m|] == 0x80
    && (forall i :: |m| < i < |p| - 8 ==> p[i] == 0)
    && FromBigEndian(p[|p| - 8..]) == 8 * |m|
  }

  lemma PaddingIsStandard(m: seq<Byte>)
    requires 8 * |m| < U64
    ensures IsStandardPadding(m, Padded(m), ZeroCount(|m|))
  {
    hide FromBigEndian, BigEndian64, ZeroCount, Zeros;
    PaddedLength(m);
    LengthField(8 * |m|);
    FewZeros(|m|);
    AllZeros(ZeroCount(|m|));
    PaddedParts(m, Zeros(ZeroCount(|m|)), BigEndian64(8 * |m|));
  }

  lemma FewZeros(n: nat)
    ensures ZeroCount(n) < 64
  {}

  lemma AllZeros(n: nat)
    ensures |Zeros(n)| == n && forall i :: 0 <= i < n ==> Zeros(n)[i] == 0
  {}

  lemma PaddedParts(m: seq<Byte>, zeros: seq<Byte>, tail: seq<Byte>)
    requires |tail| == 8 && forall i :: 0 <= i < |zeros| ==> zeros[i] == 0
    ensures var p := m + [0x80] + zeros + tail;
            && |p| == |m| + 1 + |zeros| + 8
            && p[..|m|] == m && p[|m|] == 0x80
            && (forall i :: |m| < i < |p| - 8 ==> p[i] == 0)
            && p[|p| - 8..] == tail
  {}

  // No two messages share a padded form.
  lemma PaddingInjective(m: seq<Byte>, m': seq<Byte>)
    requires 8 * |m| < U64 && 8 * |m'| < U64 && Padded(m) == Padded(m')
    ensures m == m'
  {
    PaddingIsStandard(m);
    PaddingIsStandard(m');
    assert |m| == |m'|;
  }
}
