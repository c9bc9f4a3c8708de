/** Comparing two general traces by their digests, and what equal digests mean. */
module GeneralTraceCompare {
  import opened Bytes
  import opened TlvFraming
  import opened GeneralTraceCodec
  import opened GeneralTraceRules
  import opened GeneralTraceParser
  import opened GeneralTraceBytes
  import opened GeneralTraceRebuild

  datatype Verdict =
    | Rejected
    | HeaderDiffers(name: string)
    | RecordDiffers(index: nat)
    | CountDiffers
    | DigestDiffers
    | TerminalDiffers(name: string)
    | Same

  function Last(t: Trace): Record
    requires t.records != []
  {
    t.records[|t.records| - 1]
  }

  // The header apart from how many records it announces.
  function Identity(h: Header): Header { h.(recordCount := 0, seed := []) }

  predicate SameTerminal(a: Record, b: Record) {
    && FromLE(ItemOf(a.tlvs, REASON)) == FromLE(ItemOf(b.tlvs, REASON))
    && ItemOf(a.tlvs, FINAL_STATE) == ItemOf(b.tlvs, FINAL_STATE)
    && a.boundary == b.boundary
    && FromLE(ItemOf(a.tlvs, FINAL_COUNT)) == FromLE(ItemOf(b.tlvs, FINAL_COUNT))
  }

  ghost predicate SameDigests(a: Trace, b: Trace) {
    && Identity(a.header) == Identity(b.header) && |a.records| == |b.records|
    && (forall i :: 0 <= i < |a.records| ==> Semantic(a.records[i]) == Semantic(b.records[i]))
    && (a.records != [] ==> SameTerminal(Last(a), Last(b)))
  }

  // The header field that a verdict names: the first of seven that differs.
  predicate HeaderVerdict(g: Header, h: Header, v: Verdict) {
    if g.firstBoundary != h.firstBoundary then v == HeaderDiffers("first_boundary")
    else if g.profile != h.profile then v == HeaderDiffers("profile_sha256")
    else if g.artifacts != h.artifacts then v == HeaderDiffers("artifact_set_sha256")
    else if g.state != h.state then v == HeaderDiffers("initial_state_sha256")
    else if g.schedule != h.schedule then v == HeaderDiffers("input_schedule_sha256")
    else if g.selectorMask != h.selectorMask then v == HeaderDiffers("selector_mask")
    else if g.eventMask != h.eventMask then v == HeaderDiffers("event_mask")
    else !v.HeaderDiffers?
  }

  predicate SameIdentity(g: Header, h: Header) {
    && g.firstBoundary == h.firstBoundary && g.profile == h.profile && g.artifacts == h.artifacts && g.state == h.state
    && g.schedule == h.schedule && g.selectorMask == h.selectorMask && g.eventMask == h.eventMask
  }

  lemma IdentityIs(g: Header, h: Header)
    ensures Identity(g) == Identity(h) <==> SameIdentity(g, h)
  {}

  // The terminal field that a verdict names: items 121 and 122, the boundary, item 120.
  predicate TerminalVerdict(a: Record, b: Record, v: Verdict) {
    if FromLE(ItemOf(a.tlvs, 121)) != FromLE(ItemOf(b.tlvs, 121)) then v == TerminalDiffers("reason")
    else if ItemOf(a.tlvs, 122) != ItemOf(b.tlvs, 122) then v == TerminalDiffers("final_state_sha256")
    else if a.boundary != b.boundary then v == TerminalDiffers("final_boundary")
    else if FromLE(ItemOf(a.tlvs, 120)) != FromLE(ItemOf(b.tlvs, 120)) then v == TerminalDiffers("record_count")
    else !v.TerminalDiffers?
  }

  lemma SameTerminalIs(a: Record, b: Record)
    ensures SameTerminal(a, b) <==> TerminalVerdict(a, b, Same)
  {
    hide ItemOf, FromLE;
  }

  // The digests of the first n records agree.
  ghost predicate SameUpTo(a: Trace, b: Trace, n: nat)
    requires n <= |a.records| && n <= |b.records|
  {
    forall i :: 0 <= i < n ==> Semantic(a.records[i]) == Semantic(b.records[i])
  }

  // The verdict names the first divergence: header, then records in order, then their number, then the
  // terminal. A difference of the final digests alone is impossible, as the terminal's is one of them.
  ghost predicate FirstDivergence(a: Trace, b: Trace, v: Verdict)
    requires a.records != [] && b.records != []
  {
    && HeaderVerdict(a.header, b.header, v)
    && (v.HeaderDiffers? <==> Identity(a.header) != Identity(b.header))
    && (Identity(a.header) == Identity(b.header) ==>
          match v
          case RecordDiffers(i) =>
            && i < |a.records| && i < |b.records| && SameUpTo(a, b, i)
            && Semantic(a.records[i]) != Semantic(b.records[i])
          case CountDiffers =>
            |a.records| != |b.records| && (SameUpTo(a, b, if |a.records| < |b.records| then |a.records| else |b.records|))
          case TerminalDiffers(_) =>
            && |a.records| == |b.records| && SameUpTo(a, b, |a.records|)
            && !SameTerminal(Last(a), Last(b)) && TerminalVerdict(Last(a), Last(b), v)
          case Same => SameDigests(a, b)
          case _ => false)
  }

  /** Looks for the first divergence of two parsed traces. */
  method Compare(left: Trace, right: Trace) returns (v: Verdict)
    requires left.records != [] && right.records != []
    ensures FirstDivergence(left, right, v)
    ensures v == Same <==> SameDigests(left, right)
  {
    hide Semantic, SameTerminal, ItemOf, FromLE, Identity;
    IdentityIs(left.header, right.header);
    v := CompareHeaders(left.header, right.header);
    if v != Same {
      return;
    }
    var index := 0;
    while index < |left.records| && index < |right.records|
      invariant index <= |left.records| && index <= |right.records|
      invariant SameUpTo(left, right, index)
    {
      if Semantic(left.records[index]) != Semantic(right.records[index]) {
        return RecordDiffers(index);
      }
      index := index + 1;
    }
    if |left.records| != |right.records| {
      return CountDiffers;
    }
    if Semantic(Last(left)) != Semantic(Last(right)) {
      return DigestDiffers;
    }
    SameTerminalIs(Last(left), Last(right));
    v := CompareTerminals(Last(left), Last(right));
  }

  method CompareHeaders(g: Header, h: Header) returns (v: Verdict)
    ensures HeaderVerdict(g, h, v) && (v == Same || v.HeaderDiffers?)
  {
    if g.firstBoundary != h.firstBoundary { return HeaderDiffers("first_boundary"); }
    if g.profile != h.profile { return HeaderDiffers("profile_sha256"); }
    if g.artifacts != h.artifacts { return HeaderDiffers("artifact_set_sha256"); }
    if g.state != h.state { return HeaderDiffers("initial_state_sha256"); }
    if g.schedule != h.schedule { return HeaderDiffers("input_schedule_sha256"); }
    if g.selectorMask != h.selectorMask { return HeaderDiffers("selector_mask"); }
    if g.eventMask != h.eventMask { return HeaderDiffers("event_mask"); }
    return Same;
  }

  method CompareTerminals(a: Record, b: Record) returns (v: Verdict)
    ensures TerminalVerdict(a, b, v) && (v == Same || v.TerminalDiffers?)
  {
    hide ItemOf, FromLE;
    if FromLE(ItemOf(a.tlvs, REASON)) != FromLE(ItemOf(b.tlvs, REASON)) { return TerminalDiffers("reason"); }
    if ItemOf(a.tlvs, FINAL_STATE) != ItemOf(b.tlvs, FINAL_STATE) { return TerminalDiffers("final_state_sha256"); }
    if a.boundary != b.boundary { return TerminalDiffers("final_boundary"); }
    if FromLE(ItemOf(a.tlvs, FINAL_COUNT)) != FromLE(ItemOf(b.tlvs, FINAL_COUNT)) { return TerminalDiffers("record_count"); }
    return Same;
  }

  // Equal in everything but extension items and the header's record count.
  ghost predicate LogicallyEqual(a: Trace, b: Trace) {
    Identity(a.header) == Identity(b.header) && AllSameKnown(a.records, b.records)
  }

  // Two different strings that the digests of records i were computed from hash alike.
  ghost predicate CollisionAt(H: Hash, a: Trace, b: Trace, i: nat)
    requires i < |a.records| && i < |b.records|
  {
    var x := Preimage(PreviousAt(a.header, a.records, i), a.records[i]);
    var y := Preimage(PreviousAt(b.header, b.records, i), b.records[i]);
    x != y && H(x) == H(y)
  }

  // Logical equality, said field by field: the seven identities of the header, and for each record its envelope
  // and its items below type 2000.
  lemma LogicallyEqualIs(a: Trace, b: Trace)
    requires forall i :: 0 <= i < |a.records| ==> Ordered(a.records[i].tlvs, 0)
    requires forall i :: 0 <= i < |b.records| ==> Ordered(b.records[i].tlvs, 0)
    ensures LogicallyEqual(a, b) <==>
              && SameIdentity(a.header, b.header) && |a.records| == |b.records|
              && forall i :: 0 <= i < |a.records| ==> AlikeFields(a.records[i], b.records[i])
  {
    IdentityIs(a.header, b.header);
    hide SameKnown, AlikeFields, Identity, Ordered;
    forall i | 0 <= i < |a.records| && i < |b.records|
      ensures SameKnown(a.records[i], b.records[i]) <==> AlikeFields(a.records[i], b.records[i])
    {
      AlikeIs(a.records[i], b.records[i]);
    }
  }

  ghost predicate AlikeFields(a: Record, b: Record) {
    && a.kind == b.kind && a.flags == b.flags && a.sequence == b.sequence && a.boundary == b.boundary && a.cycle == b.cycle
    && a.selectorMask == b.selectorMask && a.eventClass == b.eventClass
    && forall x: Tlv :: x.typ < 2000 ==> (x in a.tlvs <==> x in b.tlvs)
  }

  lemma AlikeIs(a: Record, b: Record)
    requires Ordered(a.tlvs, 0) && Ordered(b.tlvs, 0)
    ensures SameKnown(a, b) <==> AlikeFields(a, b)
  {
    hide Ordered;
    forall x: Tlv
      ensures x in Known(a.tlvs) <==> x in a.tlvs && x.typ < 2000
      ensures x in Known(b.tlvs) <==> x in b.tlvs && x.typ < 2000
    {
      KeepMembers(a.tlvs, IsKnown, x);
      KeepMembers(b.tlvs, IsKnown, x);
    }
    if AlikeFields(a, b) {
      KnownFromMembers(a.tlvs, b.tlvs);
    }
    hide Known;
  }

  // ----- Equal content gives equal digests -----

  lemma EqualContentSameDigests(a: Trace, b: Trace)
    requires LogicallyEqual(a, b)
    ensures SameDigests(a, b)
  {
    forall i | 0 <= i < |a.records|
      ensures Semantic(a.records[i]) == Semantic(b.records[i])
      ensures a.records[i].boundary == b.records[i].boundary
      ensures forall typ :: 0 <= typ < EXTENSION ==> ItemOf(a.records[i].tlvs, typ) == ItemOf(b.records[i].tlvs, typ)
    {
      assert SameKnown(a.records[i], b.records[i]);
      ViewsOfKnown(a.records[i], b.records[i]);
    }
    hide SameKnown, ItemOf, Semantic;
  }

  // ----- Equal digests give equal content, or a collision -----

  // An ordered list is determined by its members.
  lemma {:induction false} OrderedByMembers(a: seq<Tlv>, b: seq<Tlv>, last: nat)
    requires Ordered(a, last) && Ordered(b, last)
    requires forall x :: x in a <==> x in b
    ensures a == b
    decreases |a|
  {
    if a != [] {
      assert a[0] in b;
    }
    if b != [] {
      assert b[0] in a;
    }
    if a != [] && b != [] {
      FirstIsLeast(a, last, b[0]);
      FirstIsLeast(b, last, a[0]);
      forall x ensures x in a[1..] <==> x in b[1..] {
        RestIsAbove(a, last, x);
        RestIsAbove(b, last, x);
      }
      OrderedByMembers(a[1..], b[1..], a[0].typ);
      assert a == [a[0]] + a[1..] && b == [b[0]] + b[1..];
    }
  }

  lemma FirstIsLeast(a: seq<Tlv>, last: nat, x: Tlv)
    requires a != [] && Ordered(a, last) && x in a
    ensures x == a[0] || a[0].typ < x.typ
  {
    var i :| 0 <= i < |a| && a[i] == x;
    if i > 0 {
      OrderedDistinct(a, last, 0, i);
    }
  }

  lemma RestIsAbove(a: seq<Tlv>, last: nat, x: Tlv)
    requires a != [] && Ordered(a, last)
    ensures x in a[1..] <==> x in a && x.typ > a[0].typ
  {
    if x in a[1..] {
      var i :| 0 <= i < |a[1..]| && a[1..][i] == x;
      OrderedDistinct(a, last, 0, i + 1);
      assert a[i + 1] == x;
    }
    if x in a && x != a[0] {
      var i :| 0 <= i < |a| && a[i] == x;
      assert a[1..][i - 1] == x;
    }
  }

  // In an ordered list the only item of a type is the one Item finds.
  lemma MemberIsItem(tlvs: seq<Tlv>, x: Tlv)
    requires x in tlvs && Item(tlvs, x.typ).Some?
    ensures x == Tlv(x.typ, true, Item(tlvs, x.typ).value)
  {
    KeepMembers(tlvs, OfType(x.typ), x);
  }

  lemma ItemIsMember(tlvs: seq<Tlv>, typ: nat)
    requires Item(tlvs, typ).Some?
    ensures Tlv(typ, true, Item(tlvs, typ).value) in tlvs
  {
    var found := Keep(tlvs, OfType(typ));
    KeepMembers(tlvs, OfType(typ), found[0]);
  }

  lemma KnownFromMembers(a: seq<Tlv>, b: seq<Tlv>)
    requires Ordered(a, 0) && Ordered(b, 0)
    requires forall x: Tlv :: IsKnown(x) ==> (x in a <==> x in b)
    ensures Known(a) == Known(b)
  {
    KeepOrdered(a, IsKnown, 0);
    KeepOrdered(b, IsKnown, 0);
    forall x ensures x in Known(a) <==> x in Known(b) {
      KeepMembers(a, IsKnown, x);
      KeepMembers(b, IsKnown, x);
    }
    OrderedByMembers(Known(a), Known(b), 0);
  }

  // The digest's items and the digest itself make up the known items.
  lemma KnownFromDigest(a: seq<Tlv>, b: seq<Tlv>)
    requires Ordered(a, 0) && Ordered(b, 0) && SemanticTlvs(a) == SemanticTlvs(b)
    requires Item(a, SEMANTIC).Some? && Item(a, SEMANTIC) == Item(b, SEMANTIC)
    ensures Known(a) == Known(b)
  {
    forall x: Tlv | IsKnown(x) ensures x in a <==> x in b {
      KeepMembers(a, InDigest, x);
      KeepMembers(b, InDigest, x);
      if x.typ == SEMANTIC {
        if x in a { MemberIsItem(a, x); ItemIsMember(b, SEMANTIC); }
        if x in b { MemberIsItem(b, x); ItemIsMember(a, SEMANTIC); }
      }
    }
    KnownFromMembers(a, b);
  }

  lemma PreimageParts(p: seq<Byte>, q: seq<Byte>, a: Record, b: Record)
    requires |p| == |q| == 32 && Preimage(p, a) == Preimage(q, b)
    ensures p == q && Join(Envelope(a)) == Join(Envelope(b))
    ensures EncodeTlvs(SemanticTlvs(a.tlvs)) == EncodeTlvs(SemanticTlvs(b.tlvs))
  {
    EnvelopeLength(a);
    EnvelopeLength(b);
    hide Envelope, Join, EncodeTlvs, SemanticTlvs;
    var domain := Ascii("CDRGREC1\0");
    PartsOf(domain, p, Join(Envelope(a)), EncodeTlvs(SemanticTlvs(a.tlvs)));
    PartsOf(domain, q, Join(Envelope(b)), EncodeTlvs(SemanticTlvs(b.tlvs)));
  }

  lemma PartsOf(d: seq<Byte>, p: seq<Byte>, e: seq<Byte>, t: seq<Byte>)
    requires |p| == 32 && |e| == 32
    ensures var s := d + p + e + t;
            s[|d|..|d| + 32] == p && s[|d| + 32..|d| + 64] == e && s[|d| + 64..] == t
  {}

  function EnvelopeWidths(): (w: seq<nat>)
    ensures |w| == 6 && Total(w) == 32
  {
    [2, 2, 8, 8, 8, 4]
  }

  lemma EnvelopeLength(r: Record)
    ensures |Join(Envelope(r))| == 32 && Widths(Envelope(r)) == EnvelopeWidths()
  {
    assert Widths(Envelope(r)) == EnvelopeWidths();
    JoinLength(Envelope(r));
  }

  lemma EnvelopeInjective(a: Record, b: Record)
    requires ValidRecord(a) && ValidRecord(b) && Join(Envelope(a)) == Join(Envelope(b))
    ensures a.kind == b.kind && a.flags == b.flags && a.boundary == b.boundary && a.cycle == b.cycle
    ensures a.selectorMask == b.selectorMask && a.eventClass == b.eventClass
  {
    hide Envelope, Join, Split, LE, FromLE, Pow256;
    EnvelopeLength(a);
    EnvelopeLength(b);
    SplitJoin(Envelope(a), EnvelopeWidths());
    SplitJoin(Envelope(b), EnvelopeWidths());
    Pow256Values();
    EnvelopeReads(a);
    EnvelopeReads(b);
  }

  lemma EnvelopeReads(r: Record)
    requires ValidRecord(r)
    ensures var e := Envelope(r);
            && |e| == 6 && FromLE(e[0]) == r.kind && FromLE(e[1]) == r.flags && FromLE(e[2]) == r.boundary
            && FromLE(e[3]) == r.cycle && FromLE(e[4]) == r.selectorMask && FromLE(e[5]) == r.eventClass
  {
    hide LE, FromLE, Pow256, EncodeTlvs, Ordered;
    Pow256Values();
    FromLEOfLE(r.kind, 2);
    FromLEOfLE(r.flags, 2);
    FromLEOfLE(r.boundary, 8);
    FromLEOfLE(r.cycle, 8);
    FromLEOfLE(r.selectorMask, 8);
    FromLEOfLE(r.eventClass, 4);
  }

  // Records with the same preimage and digest agree in all that is logical.
  lemma SamePreimageSameKnown(p: seq<Byte>, q: seq<Byte>, a: Record, b: Record)
    requires ValidRecord(a) && ValidRecord(b) && a.sequence == b.sequence
    requires |p| == |q| == 32 && Preimage(p, a) == Preimage(q, b)
    requires Item(a.tlvs, SEMANTIC).Some? && Item(a.tlvs, SEMANTIC) == Item(b.tlvs, SEMANTIC)
    ensures SameKnown(a, b)
  {
    PreimageParts(p, q, a, b);
    EnvelopeInjective(a, b);
    KeepOrdered(a.tlvs, InDigest, 0);
    KeepOrdered(b.tlvs, InDigest, 0);
    EncodeTlvsInjective(SemanticTlvs(a.tlvs), SemanticTlvs(b.tlvs));
    KnownFromDigest(a.tlvs, b.tlvs);
    hide Preimage, Known, SemanticTlvs, EncodeTlvs, Envelope, Join;
  }

  // ----- The comparison theorem -----

  // What acceptance says about one record of a trace.
  lemma FitsSays(H: Hash, header: Header, records: seq<Record>, i: nat)
    requires i < |records| && RecordFits(H, header, records, i)
    ensures var r, p := records[i], PreviousAt(header, records, i);
            && r.sequence == i && HasItem(r.tlvs, SEMANTIC, 32) && HasItem(r.tlvs, PREVIOUS, 32) && ItemOf(r.tlvs, PREVIOUS) == p
            && HasItem(r.tlvs, STATE, 32)
            && (r.kind != KIND_TERMINAL ==> Semantic(r) == RecordSemantic(H, p, r))
            && (r.kind == KIND_TERMINAL ==>
                  && TerminalRule(r, p, i, FinalAt(records, i)) && i > 0 && r.cycle == records[i - 1].cycle)
            && (forall x :: x in r.tlvs && x.typ < EXTENSION ==> AllowedType(r, x.typ))
  {
    hide InitialRule, BoundaryRule, EventRule, TerminalRule, EventFits, HasItem, ItemOf, Preimage, AllowedType;
  }

  lemma GrammarSays(H: Hash, t: Trace, i: nat)
    requires Grammar(H, t.header, t.records) && i < |t.records|
    ensures RecordFits(H, t.header, t.records, i)
    ensures t.records[i].kind == KIND_TERMINAL <==> i == |t.records| - 1
  {
    hide RecordRule, EventFits;
    assert RecordFits(H, t.header, t.records, |t.records| - 1);
  }

  // The items of a terminal record, read off one by one.
  lemma TerminalItems(r: Record, s: Record, previous: seq<Byte>, index: nat, f: Option<Final>, g: Option<Final>)
    requires ValidRecord(r) && ValidRecord(s) && r.kind == s.kind == KIND_TERMINAL
    requires TerminalRule(r, previous, index, f) && TerminalRule(s, previous, index, g)
    requires HasItem(r.tlvs, PREVIOUS, 32) && ItemOf(r.tlvs, PREVIOUS) == previous
    requires HasItem(s.tlvs, PREVIOUS, 32) && ItemOf(s.tlvs, PREVIOUS) == previous
    requires forall x :: x in r.tlvs && x.typ < EXTENSION ==> AllowedType(r, x.typ)
    requires forall x :: x in s.tlvs && x.typ < EXTENSION ==> AllowedType(s, x.typ)
    requires SameTerminal(r, s)
    ensures Known(r.tlvs) == Known(s.tlvs)
  {
    hide Item, FromLE, Keep;
    SameNumber(ItemOf(r.tlvs, FINAL_COUNT), ItemOf(s.tlvs, FINAL_COUNT));
    SameNumber(ItemOf(r.tlvs, REASON), ItemOf(s.tlvs, REASON));
    forall x: Tlv | IsKnown(x) ensures x in r.tlvs <==> x in s.tlvs {
      if x in r.tlvs { MemberIsItem(r.tlvs, x); ItemIsMember(s.tlvs, x.typ); }
      if x in s.tlvs { MemberIsItem(s.tlvs, x); ItemIsMember(r.tlvs, x.typ); }
    }
    KnownFromMembers(r.tlvs, s.tlvs);
  }

  lemma SameNumber(a: seq<Byte>, b: seq<Byte>)
    requires |a| == |b| && FromLE(a) == FromLE(b)
    ensures a == b
  {
    LEOfFromLE(a);
    LEOfFromLE(b);
  }

  lemma DigestsAt(H: Hash, a: Trace, b: Trace, i: nat)
    requires Printable(a.records) && Printable(b.records) && SameDigests(a, b)
    requires Grammar(H, a.header, a.records) && Grammar(H, b.header, b.records)
    requires |a.header.seed| == |b.header.seed| == 32
    requires i < |a.records| - 1
    ensures SameKnown(a.records[i], b.records[i]) || CollisionAt(H, a, b, i)
  {
    hide Grammar, RecordFits, Preimage, TerminalRule, Keep, AllowedType, FinalAt, Item, SameKnown, SameTerminal,
      ValidRecord;
    GrammarSays(H, a, i);
    GrammarSays(H, b, i);
    FitsSays(H, a.header, a.records, i);
    FitsSays(H, b.header, b.records, i);
    if i > 0 {
      GrammarSays(H, a, i - 1);
      GrammarSays(H, b, i - 1);
      FitsSays(H, a.header, a.records, i - 1);
      FitsSays(H, b.header, b.records, i - 1);
    }
    var p, q := PreviousAt(a.header, a.records, i), PreviousAt(b.header, b.records, i);
    if Preimage(p, a.records[i]) == Preimage(q, b.records[i]) {
      SamePreimageSameKnown(p, q, a.records[i], b.records[i]);
    }
  }

  lemma AtLeastTwo(H: Hash, t: Trace)
    requires Grammar(H, t.header, t.records)
    ensures |t.records| >= 2
  {
    hide RecordRule, EventFits;
    assert RecordFits(H, t.header, t.records, 0);
  }

  // What two terminal records that are compared have in common.
  ghost predicate TerminalFacts(r: Record, s: Record, previous: seq<Byte>, index: nat, f: Option<Final>, g: Option<Final>) {
    && ValidRecord(r) && ValidRecord(s) && r.kind == s.kind == KIND_TERMINAL && r.sequence == s.sequence
    && TerminalRule(r, previous, index, f) && TerminalRule(s, previous, index, g)
    && HasItem(r.tlvs, PREVIOUS, 32) && ItemOf(r.tlvs, PREVIOUS) == previous
    && HasItem(s.tlvs, PREVIOUS, 32) && ItemOf(s.tlvs, PREVIOUS) == previous
    && (forall x :: x in r.tlvs && x.typ < EXTENSION ==> AllowedType(r, x.typ))
    && (forall x :: x in s.tlvs && x.typ < EXTENSION ==> AllowedType(s, x.typ))
    && SameTerminal(r, s) && r.cycle == s.cycle
  }

  lemma TerminalSameKnown(r: Record, s: Record, previous: seq<Byte>, index: nat, f: Option<Final>, g: Option<Final>)
    requires TerminalFacts(r, s, previous, index, f, g)
    ensures SameKnown(r, s)
  {
    hide Known, TerminalRule, ItemOf, HasItem, ValidRecord, SameTerminal, AllowedType;
    TerminalItems(r, s, previous, index, f, g);
    TerminalEnvelope(r, s, previous, index, f, g);
  }

  lemma TerminalEnvelope(r: Record, s: Record, previous: seq<Byte>, index: nat, f: Option<Final>, g: Option<Final>)
    requires TerminalRule(r, previous, index, f) && TerminalRule(s, previous, index, g) && SameTerminal(r, s)
    ensures r.flags == s.flags && r.selectorMask == s.selectorMask && r.eventClass == s.eventClass && r.boundary == s.boundary
  {}

  lemma TerminalAgrees(H: Hash, a: Trace, b: Trace)
    requires Printable(a.records) && Printable(b.records) && SameDigests(a, b)
    requires Grammar(H, a.header, a.records) && Grammar(H, b.header, b.records)
    requires |a.records| >= 2 && SameKnown(a.records[|a.records| - 2], b.records[|b.records| - 2])
    ensures SameKnown(Last(a), Last(b))
  {
    hide Grammar, RecordFits, Preimage, AllowedType, FinalAt, ItemOf, Known, SameTerminal, Semantic, ValidRecord,
      HasItem, TerminalRule, RecordSemantic, Admissible;
    var n := |a.records| - 1;
    var r, s := a.records[n], b.records[n];
    assert ValidRecord(r) && ValidRecord(s);
    assert Semantic(a.records[n - 1]) == Semantic(b.records[n - 1]);
    GrammarSays(H, a, n);
    GrammarSays(H, b, n);
    FitsSays(H, a.header, a.records, n);
    FitsSays(H, b.header, b.records, n);
    assert TerminalFacts(r, s, PreviousAt(a.header, a.records, n), n, FinalAt(a.records, n), FinalAt(b.records, n));
    hide TerminalFacts;
    TerminalSameKnown(r, s, PreviousAt(a.header, a.records, n), n, FinalAt(a.records, n), FinalAt(b.records, n));
  }

  // Accepted traces that compare as the same are logically equal, or some record's digest is a
  // collision of the hash function, both of whose inputs the traces spell out.
  lemma SameDigestsEqualContent(H: Hash, a: Trace, b: Trace)
    requires Printable(a.records) && Printable(b.records) && SameDigests(a, b)
    requires Grammar(H, a.header, a.records) && Grammar(H, b.header, b.records)
    requires |a.header.seed| == |b.header.seed| == 32
    ensures LogicallyEqual(a, b) || exists i :: 0 <= i < |a.records| - 1 && CollisionAt(H, a, b, i)
  {
    hide Grammar, SameKnown, CollisionAt, Printable, SameDigests;
    var n := |a.records| - 1;
    AtLeastTwo(H, a);
    SameLengths(a, b);
    if forall i :: 0 <= i < n ==> !CollisionAt(H, a, b, i) {
      forall i | 0 <= i < n ensures SameKnown(a.records[i], b.records[i]) {
        DigestsAt(H, a, b, i);
      }
      TerminalAgrees(H, a, b);
    }
  }

  lemma SameLengths(a: Trace, b: Trace)
    requires SameDigests(a, b)
    ensures |a.records| == |b.records| && Identity(a.header) == Identity(b.header)
  {}

  // For two accepted byte strings.
  lemma ComparisonIsSound(H: Hash, left: seq<Byte>, right: seq<Byte>, e: Expected)
    requires ParseTrace(H, left, e).Ok? && ParseTrace(H, right, e).Ok?
    ensures var a, b := ParseTrace(H, left, e).value, ParseTrace(H, right, e).value;
            && (LogicallyEqual(a, b) ==> SameDigests(a, b))
            && (SameDigests(a, b) ==>
                  LogicallyEqual(a, b) || exists i :: 0 <= i < |a.records| - 1 && CollisionAt(H, a, b, i))
  {
    hide ParseTrace, Grammar, SameDigests, LogicallyEqual, CollisionAt, PrintTrace, Meets;
    var a, b := ParseTrace(H, left, e).value, ParseTrace(H, right, e).value;
    PrintParsedTrace(H, left, e);
    PrintParsedTrace(H, right, e);
    PrintableOf(H, a, left);
    PrintableOf(H, b, right);
    if LogicallyEqual(a, b) {
      EqualContentSameDigests(a, b);
    }
    if SameDigests(a, b) {
      SameDigestsEqualContent(H, a, b);
    }
  }

  /** Parses both byte strings, then compares. */
  method CompareBytes(H: Hash, left: seq<Byte>, right: seq<Byte>, e: Expected) returns (v: Verdict)
    ensures v == Rejected <==> ParseTrace(H, left, e).Err? || ParseTrace(H, right, e).Err?
    ensures v == Same <==>
            && ParseTrace(H, left, e).Ok? && ParseTrace(H, right, e).Ok?
            && SameDigests(ParseTrace(H, left, e).value, ParseTrace(H, right, e).value)
    ensures v != Rejected ==>
              var a, b := ParseTrace(H, left, e).value, ParseTrace(H, right, e).value;
              a.records != [] && b.records != [] && FirstDivergence(a, b, v)
  {
    hide ParseTrace, SameDigests;
    var a := Parse(H, left, e);
    var b := Parse(H, right, e);
    if a.Err? || b.Err? {
      return Rejected;
    }
    NotEmpty(H, left, e);
    NotEmpty(H, right, e);
    v := Compare(a.value, b.value);
  }

  lemma NotEmpty(H: Hash, data: seq<Byte>, e: Expected)
    requires ParseTrace(H, data, e).Ok?
    ensures ParseTrace(H, data, e).value.records != []
  {
    hide ParseTrace, PrintTrace, Meets;
    PrintParsedTrace(H, data, e);
  }
}
