/** The two streaming SHA-256 implementations compute one function, however the input is cut up. */
module Sha256Agreement {
  import opened Bytes
  import opened Fips180
  import HostDropperSha256
  import PeerConnectSha256

  lemma {:induction false} JoinAppend(pieces: seq<seq<Byte>>, last: seq<Byte>)
    ensures Join(pieces + [last]) == Join(pieces) + last
    decreases |pieces|
  {
    if pieces == [] {
      assert [] + [last] == [last] && [last][1..] == [] && last + [] == last;
    } else {
      assert (pieces + [last])[1..] == pieces[1..] + [last];
      JoinAppend(pieces[1..], last);
      assert pieces[0] + (Join(pieces[1..]) + last) == pieces[0] + Join(pieces[1..]) + last;
    }
  }

  lemma JoinNothing(pieces: seq<seq<Byte>>)
    requires pieces == []
    ensures Join(pieces) == []
  {}

  method HostDropperDigest(pieces: seq<seq<Byte>>) returns (digest: seq<Byte>)
    ensures digest == Sha256(Join(pieces))
  {
    hide *;
    JoinNothing(pieces[..0]);
    var state := new HostDropperSha256.Sha256State();
    for i := 0 to |pieces|
      invariant state.Valid() && fresh(state) && fresh(state.h) && fresh(state.buffer)
      invariant state.message == Join(pieces[..i])
    {
      JoinAppend(pieces[..i], pieces[i]);
      assert pieces[..i + 1] == pieces[..i] + [pieces[i]];
      state.Update(pieces[i]);
    }
    assert pieces[..|pieces|] == pieces;
    var output := new Byte[32];
    state.Final(output);
    digest := output[..];
  }

  method PeerConnectDigest(pieces: seq<seq<Byte>>) returns (digest: seq<Byte>)
    ensures digest == Sha256(Join(pieces))
  {
    hide *;
    JoinNothing(pieces[..0]);
    var state := new PeerConnectSha256.Sha256State();
    for i := 0 to |pieces|
      invariant state.Valid() && fresh(state) && fresh(state.h) && fresh(state.block)
      invariant state.message == Join(pieces[..i])
    {
      JoinAppend(pieces[..i], pieces[i]);
      assert pieces[..i + 1] == pieces[..i] + [pieces[i]];
      state.Update(pieces[i]);
    }
    assert pieces[..|pieces|] == pieces;
    var output := new Byte[32];
    state.Final(output);
    digest := output[..];
  }

  // Two ways of cutting the same bytes give one digest in both implementations.
  method Agree(left: seq<seq<Byte>>, right: seq<seq<Byte>>) returns (a: seq<Byte>, b: seq<Byte>)
    ensures a == Sha256(Join(left)) && b == Sha256(Join(right))
    ensures Join(left) == Join(right) ==> a == b
  {
    a := HostDropperDigest(left);
    b := PeerConnectDigest(right);
  }
}
