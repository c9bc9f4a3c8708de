/** The streaming SHA-256 of the P4 host dropper: padding is fed through update, byte by byte. */
module HostDropperSha256 {
  import opened Arithmetic
  import opened Bytes
  import opened Fips180
  import opened WordOperators
  import opened Sha256Block

  lemma CounterAdvances(n: nat, k: nat)
    ensures (n % U64 + k) % U64 == (n + k) % U64
    ensures (n % U64) * 8 % U64 == 8 * n % U64
  {
    ModOfSum(n, k, U64);
    ModOfProduct(n, 8, U64);
  }

  class Sha256State {
    const h: array<Word>
    var bytes: nat  // a 64-bit counter
    const buffer: array<Byte>
    var buffered: nat
    ghost var message: seq<Byte>  // everything passed to Update since construction

    ghost predicate Valid()
      reads this, h, buffer
    {
      && h.Length == 8 && buffer.Length == 64 && buffered < 64
      && bytes == |message| % U64
      && Absorbed(h[..], buffer[..buffered], message)
    }

    constructor ()
      ensures Valid() && fresh(h) && fresh(buffer) && message == []
    {
      h := new Word[8](i requires 0 <= i < 8 => H0()[i]);
      bytes, buffered, message := 0, 0, [];
      buffer := new Byte[64];
      new;
      assert h[..] == H0();
      assert buffer[..0] == [];
    }

    // The state between two pieces of one Update.
    ghost predicate Filling()
      reads this, h, buffer
    {
      && h.Length == 8 && buffer.Length == 64 && buffered < 64
      && Absorbed(h[..], buffer[..buffered], message)
    }

    /** Copies a piece that fits into the block buffer, and hashes the block when it is full. */
    method Absorb(piece: seq<Byte>)
      requires Filling() && buffered + |piece| <= 64
      modifies this, h, buffer
      ensures Filling() && message == old(message) + piece && bytes == old(bytes)
      ensures buffered == (old(buffered) + |piece|) % 64
    {
      hide Absorbed, Compress;
      ghost var words, pending := h[..], buffer[..buffered];
      AbsorbedMore(words, pending, message, piece);
      forall i | 0 <= i < |piece| {
        buffer[buffered + i] := piece[i];
      }
      assert h[..] == words && buffer[..buffered + |piece|] == pending + piece;
      message := message + piece;
      buffered := buffered + |piece|;
      if buffered == 64 {
        assert buffer[..64] == buffer[..];
        AbsorbedBlock(words, buffer[..], message);
        Transform(h, buffer[..]);
        buffered := 0;
        assert buffer[..0] == [];
      }
    }

    /** Appends data to the message. */
    method Update(data: seq<Byte>)
      requires Valid()
      modifies this, h, buffer
      ensures Valid() && message == old(message) + data
    {
      hide Absorbed;
      bytes := (bytes + |data|) % U64;
      CounterAdvances(|message|, |data|);
      var rest := data;
      while rest != []
        invariant Filling() && bytes == (|old(message)| + |data|) % U64
        invariant message + rest == old(message) + data
        decreases |rest|
      {
        var available := 64 - buffered;
        var copied := if |rest| < available then |rest| else available;
        Absorb(rest[..copied]);
        rest := rest[copied..];
      }
    }

    /** Brings the message to 56 bytes modulo 64 with a one bit and zeros. */
    method PadToLength() returns (ghost zeros: nat)
      requires Valid()
      modifies this, h, buffer
      ensures Valid() && buffered == 56
      ensures zeros == ZeroCount(|old(message)|) && message == Padding(old(message), zeros)
    {
      hide Absorbed;
      ghost var m := message;
      Update([0x80]);
      zeros := 0;
      PaddingGrows(m, 0, 0);
      ZeroCountFits(|m|);
      AbsorbedPending(h[..], buffer[..buffered], message);
      while buffered != 56
        invariant Valid() && zeros <= ZeroCount(|m|)
        invariant message == Padding(m, zeros)
        invariant buffered == |message| % 64
        decreases ZeroCount(|m|) - zeros
      {
        assert zeros != ZeroCount(|m|);
        Update([0]);
        PaddingGrows(m, zeros, 1);
        zeros := zeros + 1;
        AbsorbedPending(h[..], buffer[..buffered], message);
      }
      ZeroCountIs(|m|, zeros);
    }

    /** Pads the message and writes its digest to output. */
    method Final(output: array<Byte>)
      requires Valid() && output.Length == 32
      modifies this, h, buffer, output
      ensures output[..] == Sha256(old(message))
    {
      hide Absorbed, BigEndian64, HashBlocks, Serialized, Sha256, ZeroCount;
      var bits := bytes * 8 % U64;
      ghost var m := message;
      CounterAdvances(|m|, 0);
      var length := BigEndian64(bits);
      ghost var zeros := PadToLength();
      Update(length);
      assert message == Padded(m);
      PaddedLength(m);
      AbsorbedPending(h[..], buffer[..buffered], message);
      assert buffer[..0] == [];
      DigestStored(h[..], message, m);
      StoreHash(h, output);
    }
  }
}
