/** What the final digest of a general trace binds: everything logical but the terminal's reason. */
module GeneralTraceBinding {
  import opened Bytes
  import opened TlvFraming
  import opened GeneralTraceCodec
  import opened GeneralTraceRules
  import opened GeneralTraceParser
  import opened GeneralTraceBytes
  import opened GeneralTraceRebuild
  import opened GeneralTraceCompare

  ghost predicate AcceptedTrace(H: Hash, t: Trace) {
    Printable(t.records) && ValidHeader(H, t.header) && Grammar(H, t.header, t.records)
  }

  // ----- The chain of digests -----

  // Step 0 is the header's seed, step i > 0 the digest of record i - 1; the terminal adds none.
  function DigestOf(t: Trace, i: nat): seq<Byte>
    requires i <= |t.records|
  {
    PreviousAt(t.header, t.records, i)
  }

  // What step i hashes.
  function InputOf(t: Trace, i: nat): seq<Byte>
    requires i <= |t.records|
  {
    if i == 0 then SeedInput(t.header) else Preimage(DigestOf(t, i - 1), t.records[i - 1])
  }

  // Two different inputs, of a step of one trace and a step of the other, that hash alike.
  ghost predicate Collide(H: Hash, a: Trace, i: nat, b: Trace, j: nat)
    requires i <= |a.records| && j <= |b.records|
  {
    InputOf(a, i) != InputOf(b, j) && H(InputOf(a, i)) == H(InputOf(b, j))
  }

  ghost predicate SomeCollision(H: Hash, a: Trace, b: Trace) {
    exists i, j :: 0 <= i < |a.records| && 0 <= j < |b.records| && Collide(H, a, i, b, j)
  }

  lemma DigestIsHash(H: Hash, t: Trace, i: nat)
    requires AcceptedTrace(H, t) && i < |t.records|
    ensures |DigestOf(t, i)| == 32 && DigestOf(t, i) == H(InputOf(t, i))
  {
    hide Grammar, RecordFits, Preimage, TerminalRule, SeedInput, AllowedType, ItemOf, FinalAt;
    if i > 0 {
      GrammarSays(H, t, i - 1);
      FitsSays(H, t.header, t.records, i - 1);
      SizeOfItem(t.records[i - 1]);
    }
  }

  lemma SizeOfItem(r: Record)
    requires HasItem(r.tlvs, SEMANTIC, 32)
    ensures |Semantic(r)| == 32 && Item(r.tlvs, SEMANTIC) == Some(Semantic(r))
  {
    hide Item;
  }

  lemma RecordInChain(H: Hash, t: Trace, i: nat)
    requires AcceptedTrace(H, t) && 0 < i < |t.records|
    ensures ValidRecord(t.records[i - 1]) && t.records[i - 1].sequence == i - 1 && |DigestOf(t, i - 1)| == 32
    ensures Item(t.records[i - 1].tlvs, SEMANTIC) == Some(DigestOf(t, i))
  {
    hide Grammar, RecordFits, Preimage, TerminalRule, SeedInput, AllowedType, ItemOf, FinalAt, ValidRecord, Item,
      HasItem, ValidHeader, Admissible, RecordSemantic;
    DigestIsHash(H, t, i - 1);
    GrammarSays(H, t, i - 1);
    FitsSays(H, t.header, t.records, i - 1);
    SizeOfItem(t.records[i - 1]);
  }

  // A seed's input never is a record's.
  lemma DomainsApart(h: Header, previous: seq<Byte>, r: Record)
    ensures SeedInput(h) != Preimage(previous, r)
  {
    hide LE, EncodeTlvs, Envelope, Join, SemanticTlvs;
    assert SeedInput(h)[4] == 'H' as int && Preimage(previous, r)[4] == 'R' as int;
  }

  lemma SeedParts(h: Header)
    requires |h.profile| == |h.artifacts| == |h.state| == |h.schedule| == 32
    ensures var s := SeedInput(h);
            && |s| == 161 && s[9..41] == h.profile && s[41..73] == h.artifacts && s[73..105] == h.state && s[105..137] == h.schedule
            && s[137..145] == LE(h.firstBoundary, 8) && s[145..153] == LE(h.selectorMask, 8) && s[153..161] == LE(h.eventMask, 8)
  {
    hide LE;
  }

  lemma SameSeedSameIdentity(H: Hash, g: Header, h: Header)
    requires ValidHeader(H, g) && ValidHeader(H, h) && SeedInput(g) == SeedInput(h)
    ensures Identity(g) == Identity(h)
  {
    hide LE, FromLE, Pow256, SeedInput;
    Pow256Values();
    SeedParts(g);
    SeedParts(h);
    FromLEOfLE(g.firstBoundary, 8);
    FromLEOfLE(h.firstBoundary, 8);
    FromLEOfLE(g.selectorMask, 8);
    FromLEOfLE(h.selectorMask, 8);
    FromLEOfLE(g.eventMask, 8);
    FromLEOfLE(h.eventMask, 8);
  }

  ghost predicate SamePrefix(a: Trace, b: Trace, n: nat)
    requires n <= |a.records| && n <= |b.records|
  {
    Identity(a.header) == Identity(b.header) && forall k :: 0 <= k < n ==> SameKnown(a.records[k], b.records[k])
  }

  // Without a collision, equal digests come from chains of equal length over equal content.
  lemma {:induction false} ChainBinds(H: Hash, a: Trace, i: nat, b: Trace, j: nat)
    requires AcceptedTrace(H, a) && AcceptedTrace(H, b) && i < |a.records| && j < |b.records|
    requires DigestOf(a, i) == DigestOf(b, j) && !SomeCollision(H, a, b)
    ensures i == j && SamePrefix(a, b, i)
    decreases i
  {
    hide AcceptedTrace, DigestOf, SameKnown, Preimage, Identity, SeedInput;
    DigestIsHash(H, a, i);
    DigestIsHash(H, b, j);
    assert !Collide(H, a, i, b, j);
    if i == 0 && j == 0 {
      HeadersBound(H, a, b);
    } else if i == 0 {
      DomainsApart(a.header, DigestOf(b, j - 1), b.records[j - 1]);
    } else if j == 0 {
      DomainsApart(b.header, DigestOf(a, i - 1), a.records[i - 1]);
    } else {
      LinkBound(H, a, i, b, j);
      ChainBinds(H, a, i - 1, b, j - 1);
      RecordsBound(H, a, b, i);
    }
  }

  lemma HeadersBound(H: Hash, a: Trace, b: Trace)
    requires AcceptedTrace(H, a) && AcceptedTrace(H, b) && SeedInput(a.header) == SeedInput(b.header)
    ensures Identity(a.header) == Identity(b.header)
  {
    hide Grammar, Printable, SeedInput, Identity, ValidHeader;
    SameSeedSameIdentity(H, a.header, b.header);
  }

  lemma LinkBound(H: Hash, a: Trace, i: nat, b: Trace, j: nat)
    requires AcceptedTrace(H, a) && AcceptedTrace(H, b) && 0 < i < |a.records| && 0 < j < |b.records|
    requires Preimage(DigestOf(a, i - 1), a.records[i - 1]) == Preimage(DigestOf(b, j - 1), b.records[j - 1])
    ensures DigestOf(a, i - 1) == DigestOf(b, j - 1)
  {
    hide AcceptedTrace, DigestOf, Preimage, Join, Envelope, EncodeTlvs, SemanticTlvs;
    RecordInChain(H, a, i);
    RecordInChain(H, b, j);
    PreimageParts(DigestOf(a, i - 1), DigestOf(b, j - 1), a.records[i - 1], b.records[j - 1]);
  }

  lemma RecordsBound(H: Hash, a: Trace, b: Trace, i: nat)
    requires AcceptedTrace(H, a) && AcceptedTrace(H, b) && 0 < i < |a.records| && i < |b.records|
    requires DigestOf(a, i) == DigestOf(b, i)
    requires Preimage(DigestOf(a, i - 1), a.records[i - 1]) == Preimage(DigestOf(b, i - 1), b.records[i - 1])
    ensures SameKnown(a.records[i - 1], b.records[i - 1])
  {
    hide AcceptedTrace, DigestOf, Preimage, SameKnown, ValidRecord, Item;
    RecordInChain(H, a, i);
    RecordInChain(H, b, i);
    SamePreimageSameKnown(DigestOf(a, i - 1), DigestOf(b, i - 1), a.records[i - 1], b.records[i - 1]);
  }

  // ----- The final digest -----

  function Reason(t: Trace): nat
    requires t.records != []
  {
    FromLE(ItemOf(Last(t).tlvs, REASON))
  }

  // The terminal repeats the chain's last digest, and the boundary and state of the record before it.
  lemma TerminalRepeats(H: Hash, t: Trace)
    requires AcceptedTrace(H, t)
    ensures var n := |t.records| - 1;
            && n >= 1 && Last(t).kind == KIND_TERMINAL && Semantic(Last(t)) == DigestOf(t, n)
            && FromLE(ItemOf(Last(t).tlvs, FINAL_COUNT)) == n + 1
            && Last(t).boundary == t.records[n - 1].boundary
            && ItemOf(Last(t).tlvs, FINAL_STATE) == ItemOf(t.records[n - 1].tlvs, STATE)
  {
    hide Grammar, RecordFits, Preimage, SeedInput, AllowedType, Printable, ValidHeader, Item, FromLE, Halting;
    AtLeastTwo(H, t);
    var n := |t.records| - 1;
    GrammarSays(H, t, n);
    FitsSays(H, t.header, t.records, n);
  }

  lemma SameTerminals(H: Hash, a: Trace, b: Trace)
    requires AcceptedTrace(H, a) && AcceptedTrace(H, b) && |a.records| == |b.records|
    requires SamePrefix(a, b, |a.records| - 1) && Reason(a) == Reason(b)
    ensures SameTerminal(Last(a), Last(b))
  {
    hide AcceptedTrace, DigestOf, SameKnown, FromLE, ItemOf, Semantic, Identity;
    TerminalRepeats(H, a);
    TerminalRepeats(H, b);
    var n := |a.records| - 1;
    StateOfKnown(a.records[n - 1], b.records[n - 1]);
  }

  lemma StateOfKnown(r: Record, s: Record)
    requires SameKnown(r, s)
    ensures r.boundary == s.boundary && ItemOf(r.tlvs, STATE) == ItemOf(s.tlvs, STATE) && Semantic(r) == Semantic(s)
  {
    hide ItemOf, Known;
    ItemOfKnown(r.tlvs, s.tlvs, STATE);
    ItemOfKnown(r.tlvs, s.tlvs, SEMANTIC);
  }

  lemma PrefixSameDigests(H: Hash, a: Trace, b: Trace)
    requires AcceptedTrace(H, a) && AcceptedTrace(H, b) && |a.records| == |b.records| && a.records != []
    requires SamePrefix(a, b, |a.records| - 1) && Semantic(Last(a)) == Semantic(Last(b)) && SameTerminal(Last(a), Last(b))
    ensures SameDigests(a, b)
  {
    hide AcceptedTrace, SameKnown, ItemOf, Semantic, Identity, SameTerminal;
    forall k | 0 <= k < |a.records|
      ensures Semantic(a.records[k]) == Semantic(b.records[k])
    {
      if k < |a.records| - 1 {
        StateOfKnown(a.records[k], b.records[k]);
      }
    }
  }

  lemma CollisionsAgree(H: Hash, a: Trace, b: Trace, i: nat)
    requires i + 1 < |a.records| && i + 1 < |b.records| && CollisionAt(H, a, b, i)
    ensures SomeCollision(H, a, b)
  {
    hide Preimage, PreviousAt;
    assert Collide(H, a, i + 1, b, i + 1);
  }

  // Two accepted traces end in the same digest exactly when their headers' identities and all their
  // records but the terminal agree; with the same reason the traces are logically equal. Otherwise two
  // inputs of their chains are a collision of the hash function.
  lemma FinalDigestBinds(H: Hash, a: Trace, b: Trace)
    requires AcceptedTrace(H, a) && AcceptedTrace(H, b) && !SomeCollision(H, a, b)
    ensures a.records != [] && b.records != []
    ensures Semantic(Last(a)) == Semantic(Last(b)) <==>
              |a.records| == |b.records| && SamePrefix(a, b, |a.records| - 1)
    ensures Semantic(Last(a)) == Semantic(Last(b)) && Reason(a) == Reason(b) ==> LogicallyEqual(a, b)
  {
    hide AcceptedTrace, DigestOf, SameKnown, ItemOf, Semantic, Identity, FromLE, SamePrefix, SameDigests,
      SomeCollision, CollisionAt, SameTerminal, LogicallyEqual;
    TerminalRepeats(H, a);
    TerminalRepeats(H, b);
    var m, n := |a.records| - 1, |b.records| - 1;
    if Semantic(Last(a)) == Semantic(Last(b)) {
      ChainBinds(H, a, m, b, n);
      if Reason(a) == Reason(b) {
        SameTerminals(H, a, b);
        PrefixSameDigests(H, a, b);
        EqualContentOrCollision(H, a, b);
      }
    }
    if m == n && SamePrefix(a, b, m) {
      LastDigests(a, b, m);
    }
  }

  lemma LastDigests(a: Trace, b: Trace, n: nat)
    requires 0 < n < |a.records| && n < |b.records| && SamePrefix(a, b, n)
    ensures DigestOf(a, n) == DigestOf(b, n)
  {
    hide SameKnown, Semantic, Identity;
    StateOfKnown(a.records[n - 1], b.records[n - 1]);
  }

  lemma EqualContentOrCollision(H: Hash, a: Trace, b: Trace)
    requires AcceptedTrace(H, a) && AcceptedTrace(H, b) && SameDigests(a, b) && !SomeCollision(H, a, b)
    ensures LogicallyEqual(a, b)
  {
    hide Grammar, Printable, SameDigests, LogicallyEqual, CollisionAt, SomeCollision;
    SameDigestsEqualContent(H, a, b);
    SameLengths(a, b);
    if i :| 0 <= i < |a.records| - 1 && CollisionAt(H, a, b, i) {
      CollisionsAgree(H, a, b, i);
    }
  }
}
