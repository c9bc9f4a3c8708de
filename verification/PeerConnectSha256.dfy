/** The streaming SHA-256 of the peer-connect helper: padding is written straight into the block. */
module PeerConnectSha256 {
  import opened Arithmetic
  import opened Bytes
  import opened Fips180
  import opened WordOperators
  import opened Sha256Block

  class Sha256State {
    const h: array<Word>
    var total: nat  // a 64-bit counter
    const block: array<Byte>
    var used: nat
    ghost var message: seq<Byte>  // everything passed to Update since construction

    // The state while the block buffer may be full.
    ghost predicate Holding()
      reads this, h, block
    {
      hide HashBlocks;
      && h.Length == 8 && block.Length == 64 && used <= 64
      && Absorbed(h[..], block[..used], message)
    }

    ghost predicate Valid()
      reads this, h, block
    {
      hide Absorbed;
      Holding() && used < 64 && total == |message| % U64
    }

    constructor ()
      ensures Valid() && fresh(h) && fresh(block) && message == []
    {
      h := new Word[8](i requires 0 <= i < 8 => H0()[i]);
      total, used, message := 0, 0, [];
      block := new Byte[64];
      new;
      assert h[..] == H0();
      assert block[..0] == [];
    }

    /** Copies a piece that fits to the end of the block. */
    method Put(piece: seq<Byte>)
      requires Holding() && used + |piece| <= 64
      modifies this`used, this`message, block
      ensures Holding() && message == old(message) + piece && used == old(used) + |piece|
    {
      hide Absorbed;
      ghost var words, pending := h[..], block[..used];
      AbsorbedMore(words, pending, message, piece);
      forall i | 0 <= i < |piece| {
        block[used + i] := piece[i];
      }
      assert h[..] == words && block[..used + |piece|] == pending + piece;
      message := message + piece;
      used := used + |piece|;
    }

    /** Hashes the full block and empties it. */
    method Flush()
      requires Holding() && used == 64
      modifies this`used, h
      ensures Holding() && used == 0
    {
      hide Absorbed, Compress;
      assert block[..64] == block[..];
      AbsorbedBlock(h[..], block[..], message);
      Transform(h, block[..]);
      used := 0;
      assert block[..0] == [];
    }

    /** Appends data to the message. */
    method Update(data: seq<Byte>)
      requires Valid()
      modifies this, h, block
      ensures Valid() && message == old(message) + data
    {
      hide Absorbed;
      total := (total + |data|) % U64;
      ModOfSum(|message|, |data|, U64);
      var rest := data;
      while rest != []
        invariant Holding() && used < 64 && total == (|old(message)| + |data|) % U64
        invariant message + rest == old(message) + data
        decreases |rest|
      {
        var room := 64 - used;
        var take := if |rest| < room then |rest| else room;
        Put(rest[..take]);
        rest := rest[take..];
        if used == 64 {
          Flush();
        }
      }
    }

    /** Adds a one bit and zeros up to byte 56 of a block, starting a new block if there is no room. */
    method PadToLength() returns (ghost zeros: nat)
      requires Valid()
      modifies this, h, block
      ensures Holding() && used == 56
      ensures zeros == ZeroCount(|old(message)|) && message == Padding(old(message), zeros)
    {
      hide Absorbed, ZeroCount;
      ghost var m := message;
      Put([0x80]);
      zeros := 0;
      PaddingGrows(m, 0, 0);
      if used > 56 {
        zeros := 64 - used;
        PaddingGrows(m, 0, zeros);
        Put(Zeros(64 - used));
        Flush();
      }
      PaddingGrows(m, zeros, 56 - used);
      zeros := zeros + (56 - used);
      Put(Zeros(56 - used));
      AbsorbedPending(h[..], block[..used], message);
      ZeroCountIs(|m|, zeros);
    }

    /** Pads the message inside the block and writes its digest to output. */
    method Final(output: array<Byte>)
      requires Valid() && output.Length == 32
      modifies this, h, block, output
      ensures output[..] == Sha256(old(message))
    {
      hide Absorbed, BigEndian64, HashBlocks, Serialized, Sha256;
      var bits := total * 8 % U64;
      ghost var m := message;
      ModOfProduct(|m|, 8, U64);
      ghost var zeros := PadToLength();
      Put(BigEndian64(bits));
      assert message == Padded(m);
      Flush();
      assert block[..0] == [];
      DigestStored(h[..], message, m);
      StoreHash(h, output);
    }
  }
}
