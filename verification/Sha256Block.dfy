/** The block function that both C programs carry. */
module Sha256Block {
  import opened Arithmetic
  import opened Bytes
  import opened Fips180
  import opened WordOperators
  import opened Fips180Constants

  /** Expands one block into 64 words. */
  method Expand(block: seq<Byte>) returns (words: array<Word>)
    requires |block| == 64
    ensures fresh(words) && words[..] == Words(block)
  {
    hide LoadWord, SmallSigma0, SmallSigma1, Add;
    words := new Word[64];
    for index := 0 to 16
      invariant forall t :: 0 <= t < index ==> words[t] == Schedule(block, t)
    {
      words[index] := LoadWord(block[4 * index..4 * index + 4]);
    }
    for index := 16 to 64
      invariant forall t :: 0 <= t < index ==> words[t] == Schedule(block, t)
    {
      var s0 := SmallSigma0(words[index - 15]);
      var s1 := SmallSigma1(words[index - 2]);
      ScheduleSum(s1, words[index - 7], s0, words[index - 16]);
      words[index] := Add(Add(Add(words[index - 16], s0), words[index - 7]), s1);
    }
  }

  /** Runs the rounds on eight rotating variables. */
  method Mix(start: State, words: array<Word>) returns (v: Working)
    requires words.Length == 64
    ensures v == Rounds(start, words[..], 64)
  {
    hide BigSigma0, BigSigma1, Ch, Maj, Add, K;
    var a, b, c, d, e, f, g, h := start[0], start[1], start[2], start[3], start[4], start[5], start[6], start[7];
    ghost var ws := words[..];
    for index := 0 to 64
      invariant Working(a, b, c, d, e, f, g, h) == Rounds(start, ws, index)
    {
      var temporary1 := Add(Add(Add(Add(h, BigSigma1(e)), Ch(e, f, g)), K(index)), words[index]);
      var temporary2 := Add(BigSigma0(a), Maj(a, b, c));
      assert Round(Working(a, b, c, d, e, f, g, h), K(index), ws[index]) ==
             Working(Add(temporary1, temporary2), a, b, c, Add(d, temporary1), e, f, g);
      h := g; g := f; f := e; e := Add(d, temporary1);
      d := c; c := b; b := a; a := Add(temporary1, temporary2);
    }
    v := Working(a, b, c, d, e, f, g, h);
  }

  method Accumulate(h: array<Word>, v: Working)
    requires h.Length == 8
    modifies h
    ensures h[..] == Feed(old(h[..]), v)
  {
    h[0], h[1], h[2], h[3] := Add(h[0], v.a), Add(h[1], v.b), Add(h[2], v.c), Add(h[3], v.d);
    h[4], h[5], h[6], h[7] := Add(h[4], v.e), Add(h[5], v.f), Add(h[6], v.g), Add(h[7], v.h);
  }

  /** Replaces the hash value by the next one. */
  method Transform(h: array<Word>, block: seq<Byte>)
    requires h.Length == 8 && |block| == 64
    modifies h
    ensures h[..] == Compress(old(h[..]), block)
  {
    hide Words, Rounds, Feed;
    var words := Expand(block);
    var v := Mix(h[..], words);
    Accumulate(h, v);
  }

  // The programs add the four terms of a scheduled word in another order than the standard.
  lemma ScheduleSum(s1: Word, w7: Word, s0: Word, w16: Word)
    ensures Add(Add(Add(w16, s0), w7), s1) == Add(Add(Add(s1, w7), s0), w16)
  {
    SumOfFour(w16, s0, w7, s1);
    SumOfFour(s1, w7, s0, w16);
  }

  lemma SumOfFour(w: Word, x: Word, y: Word, z: Word)
    ensures Add(Add(Add(w, x), y), z) == (w + x + y + z) % POW32
  {
    ModOfSum(w + x, y, POW32);
    ModOfSum(w + x + y, z, POW32);
  }

  // Hashing one more block.
  lemma HashBlocksOf(message: seq<Byte>, s: seq<Byte>, block: seq<Byte>)
    requires |s| % 64 == 0 && |block| == 64 && message == s + block
    ensures |message| % 64 == 0
    ensures HashBlocks(message) == Compress(HashBlocks(s), block)
  {
    hide Compress;
    assert message[..|message| - 64] == s && message[|message| - 64..] == block;
  }

  // ----- What a partly filled block buffer stands for -----

  // h covers all whole blocks of message; pending is what is left over.
  ghost predicate Absorbed(h: seq<Word>, pending: seq<Byte>, message: seq<Byte>) {
    var n := |message| - |pending|;
    && 0 <= n && n % 64 == 0
    && pending == message[n..]
    && h == HashBlocks(message[..n])
  }

  lemma AbsorbedMore(h: seq<Word>, pending: seq<Byte>, message: seq<Byte>, more: seq<Byte>)
    requires Absorbed(h, pending, message)
    ensures Absorbed(h, pending + more, message + more)
  {
    hide HashBlocks;
    var n := |message| - |pending|;
    assert (message + more)[n..] == pending + more && (message + more)[..n] == message[..n];
  }

  lemma AbsorbedBlock(h: seq<Word>, pending: seq<Byte>, message: seq<Byte>)
    requires Absorbed(h, pending, message) && |pending| == 64 && |h| == 8
    ensures Absorbed(Compress(h, pending), [], message)
  {
    hide HashBlocks, Compress;
    var n := |message| - 64;
    assert message == message[..n] + pending;
    HashBlocksOf(message, message[..n], pending);
    assert message[..|message|] == message && message[|message|..] == [];
  }

  lemma AbsorbedPending(h: seq<Word>, pending: seq<Byte>, message: seq<Byte>)
    requires Absorbed(h, pending, message) && |pending| < 64
    ensures |pending| == |message| % 64
  {
    hide HashBlocks;
    var n := |message| - |pending|;
    DivModUnique(|message|, 64, n / 64, |pending|);
  }

  // Padding in the making: a one bit and some zero bytes after message m.
  ghost function Padding(m: seq<Byte>, zeros: nat): seq<Byte> { m + [0x80] + Zeros(zeros) }

  lemma PaddingGrows(m: seq<Byte>, zeros: nat, more: nat)
    ensures Padding(m, zeros) + Zeros(more) == Padding(m, zeros + more)
    ensures m + [0x80] == Padding(m, 0)
    ensures Zeros(1) == [0]
  {}

  lemma ZeroCountIs(n: nat, zeros: nat)
    requires zeros < 64 && (n + 1 + zeros) % 64 == 56
    ensures zeros == ZeroCount(n)
  {
    ZeroCountFits(n);
  }

  lemma DigestStored(h: seq<Word>, message: seq<Byte>, m: seq<Byte>)
    requires Absorbed(h, [], message) && message == Padded(m)
    ensures Serialized(h) == Sha256(m)
  {
    hide HashBlocks, Padded, Serialized;
    assert message[..|message|] == message;
  }

  lemma {:induction false} SerializedFirst(h: seq<Word>, i: nat)
    requires i < |h|
    ensures Serialized(h[..i + 1]) == Serialized(h[..i]) + StoreWord(h[i])
  {
    assert h[..i + 1][..i] == h[..i];
  }

  lemma SerializedNothing()
    ensures Serialized([]) == []
  {}

  /** Stores one word, most significant byte first. */
  method StoreBe32(output: array<Byte>, offset: nat, value: Word)
    requires offset + 4 <= output.Length
    modifies output
    ensures output[offset..offset + 4] == StoreWord(value)
    ensures output[..offset] == old(output[..offset])
  {
    var b := StoreWord(value);
    output[offset], output[offset + 1], output[offset + 2], output[offset + 3] := b[0], b[1], b[2], b[3];
  }

  /** Writes the hash value out. */
  method StoreHash(h: array<Word>, output: array<Byte>)
    requires h.Length == 8 && output.Length == 32
    modifies output
    ensures output[..] == Serialized(h[..])
    ensures h[..] == old(h[..])
  {
    hide StoreWord, Serialized;
    ghost var words := h[..];
    assert output[..0] == [] && words[..0] == [];
    SerializedNothing();
    for index := 0 to 8
      invariant h[..] == words
      invariant output[..4 * index] == Serialized(words[..index])
    {
      StoreBe32(output, 4 * index, h[index]);
      SerializedFirst(words, index);
      assert output[..4 * (index + 1)] == output[..4 * index] + output[4 * index..4 * index + 4];
    }
    assert words[..8] == words && output[..32] == output[..];
  }
}
