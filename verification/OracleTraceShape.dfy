/** What every accepted native-oracle trace looks like, and whole traces as byte strings. */
module OracleTraceShape {
  import opened Bytes
  import opened RecordFraming
  import opened OracleTraceCodec
  import opened OracleTraceParser

  // ----- The shape of an accepted trace -----

  function BoundaryCount(records: seq<Record>, i: nat): nat
    requires i <= |records|
  {
    if i == 0 then 0 else BoundaryCount(records, i - 1) + if records[i - 1].kind == KIND_BOUNDARY then 1 else 0
  }

  // All mutations that boundaries before position i announce.
  function MutationCount(records: seq<Record>, i: nat): nat
    requires i <= |records|
  {
    if i == 0 then 0 else
    MutationCount(records, i - 1) + if records[i - 1].kind == KIND_BOUNDARY then Mutations(records[i - 1]) else 0
  }

  lemma FitsBoundary(H: Hash, header: Header, records: seq<Record>, i: nat)
    requires Grammar(H, header, records) && i < |records| && records[i].kind == KIND_BOUNDARY
    ensures BoundaryFits(H, records, i) && RequiredTlvs(records[i])
  {
    hide BoundaryFits, RequiredTlvs, IdentityRule, IsS0;
    assert RecordFits(H, header.uuid, records, i);
  }

  lemma OrdinalAfter(H: Hash, header: Header, records: seq<Record>, i: nat)
    requires Grammar(H, header, records) && i < |records| && records[i].kind == KIND_BOUNDARY
    ensures var b := LastBoundary(records, i);
            && (b < 0 ==> Ordinal(records[i]) == 0 && FirstMutation(records[i]) == 0 && !Has(records[i], 5))
            && (b >= 0 ==>
                  && Ordinal(records[i]) == Ordinal(records[b]) + 1 == Number(records[i], 5) + 1
                  && FirstMutation(records[i]) == FirstMutation(records[b]) + Mutations(records[b]))
  {
    hide Ordinal, FirstMutation, Mutations, Has, Number, Flag, ValueOf, Semantic, CommonBoundaryRule, HaltedAt,
      RequiredTlvs, Grammar;
    FitsBoundary(H, header, records, i);
  }

  // Up to the latest boundary, ordinals count the boundaries and mutation ranges follow one another.
  lemma {:induction false} CountsAt(H: Hash, header: Header, records: seq<Record>, i: nat)
    requires Grammar(H, header, records) && i <= |records|
    ensures var b := LastBoundary(records, i);
            && BoundaryCount(records, i) == (if b < 0 then 0 else Ordinal(records[b]) + 1)
            && MutationCount(records, i) == (if b < 0 then 0 else FirstMutation(records[b]) + Mutations(records[b]))
    decreases i
  {
    hide Grammar, Ordinal, FirstMutation, Mutations, Has, Number;
    if i > 0 {
      CountsAt(H, header, records, i - 1);
      if records[i - 1].kind == KIND_BOUNDARY {
        OrdinalAfter(H, header, records, i - 1);
      }
    }
  }

  // Boundaries are numbered 0, 1, 2, ... and S(n > 0) closes clock slot n - 1; their mutation
  // ranges tile an interval from 0 without gap or overlap.
  lemma BoundariesAreConsecutive(H: Hash, header: Header, records: seq<Record>, i: nat)
    requires Grammar(H, header, records) && i < |records| && records[i].kind == KIND_BOUNDARY
    ensures Ordinal(records[i]) == BoundaryCount(records, i)
    ensures FirstMutation(records[i]) == MutationCount(records, i)
    ensures if Ordinal(records[i]) == 0 then !Has(records[i], 5) else Number(records[i], 5) == Ordinal(records[i]) - 1
  {
    hide Grammar, Ordinal, FirstMutation, Mutations, Has, Number;
    CountsAt(H, header, records, i);
    OrdinalAfter(H, header, records, i);
  }

  // Nothing but the terminal follows a halting boundary.
  lemma HaltIsFollowedByTerminal(H: Hash, header: Header, records: seq<Record>, i: nat)
    requires Grammar(H, header, records) && AllKinds(records)
    requires i < |records| && records[i].kind == KIND_BOUNDARY && Flag(records[i], HALT)
    ensures i + 2 == |records| && records[i + 1].kind == KIND_TERMINAL
  {
    hide RequiredTlvs, IdentityRule, IsS0, Flag, TerminalFits, LaterRule, OpeningRule, CommonBoundaryRule;
    assert LastBoundary(records, i + 1) == i;
    assert RecordFits(H, header.uuid, records, |records| - 1);
    assert i + 1 < |records|;
    assert RecordFits(H, header.uuid, records, i + 1);
  }

  // A trace that ends complete carries no external event, and says truly whether it halted.
  lemma CompleteTraces(H: Hash, header: Header, records: seq<Record>)
    requires Grammar(H, header, records)
    requires Number(records[|records| - 1], 4) == COMPLETE
    ensures forall j :: 0 <= j < |records| ==> records[j].kind != KIND_EVENT
    ensures HaltedAt(records, |records| - 1) <==> Number(records[|records| - 1], 5) == REASON_HALT
  {
    hide RequiredTlvs, IdentityRule, IsS0, HaltedAt, Number, BoundaryFits;
    assert RecordFits(H, header.uuid, records, |records| - 1);
  }

  // ----- Byte strings -----

  datatype Trace = Trace(header: Header, records: seq<Record>)

  function ParseRecords(data: seq<Byte>): Result<seq<Record>>
    decreases |data|
  {
    if data == [] then Ok([]) else
    var (r, n) :- ParseRecord(data);
    var rest :- ParseRecords(data[n..]);
    Ok([r] + rest)
  }

  // The identity bundle and profile a caller may insist on.
  datatype Expected = Expected(bundle: Option<seq<Byte>>, profile: Option<seq<Byte>>)

  predicate Meets(r: Record, e: Expected) {
    e.bundle in {None, Some(ValueOf(r, 100))} && e.profile in {None, Some(ValueOf(r, 101))}
  }

  function ParseTrace(H: Hash, data: seq<Byte>, e: Expected): Result<Trace> {
    if |data| < HEADER_SIZE then Err else
    var header :- ParseHeader(data[..HEADER_SIZE]);
    var records :- ParseRecords(data[HEADER_SIZE..]);
    :- Need(Accepted(H, header, records) && records != [] && Meets(records[0], e));
    Ok(Trace(header, records))
  }

  function RecordsBytes(records: seq<Record>): seq<Byte> {
    if records == [] then [] else RecordBytes(records[0]) + RecordsBytes(records[1..])
  }

  predicate Printable(records: seq<Record>) {
    forall i :: 0 <= i < |records| ==> ValidRecord(records[i])
  }

  function PrintTrace(t: Trace): Result<seq<Byte>> {
    var header :- EncodeHeader(t.header);
    :- Need(Printable(t.records));
    Ok(header + RecordsBytes(t.records))
  }

  lemma {:induction false} ParsePrintedRecords(records: seq<Record>)
    requires Printable(records)
    ensures ParseRecords(RecordsBytes(records)) == Ok(records)
    decreases |records|
  {
    hide ParseRecord, RecordBytes, ValidRecord, AllKinds;
    if records != [] {
      var bytes, rest := RecordBytes(records[0]), RecordsBytes(records[1..]);
      ParseEncodedRecord(records[0], rest);
      assert (bytes + rest)[|bytes|..] == rest;
      ParsePrintedRecords(records[1..]);
      assert records == [records[0]] + records[1..];
      assert bytes + rest != [];
    }
  }

  lemma {:induction false} PrintParsedRecords(data: seq<Byte>)
    requires ParseRecords(data).Ok?
    ensures Printable(ParseRecords(data).value) && RecordsBytes(ParseRecords(data).value) == data
    decreases |data|
  {
    hide ParseRecord, RecordBytes, ValidRecord, AllKinds;
    if data != [] {
      var (r, n) := ParseRecord(data).value;
      EncodeParsedRecord(data);
      PrintParsedRecords(data[n..]);
      assert data == data[..n] + data[n..];
      assert ParseRecords(data).value[1..] == ParseRecords(data[n..]).value;
    }
  }

  lemma PrintableKinds(records: seq<Record>)
    requires Printable(records)
    ensures AllKinds(records)
  {}

  const ANY: Expected := Expected(None, None)

  // A printed trace that meets the grammar is parsed back; one that does not is refused.
  lemma ParsePrintedTrace(H: Hash, t: Trace)
    requires PrintTrace(t).Ok?
    ensures ParseTrace(H, PrintTrace(t).value, ANY) == if Grammar(H, t.header, t.records) then Ok(t) else Err
  {
    hide ParseHeader, Accepted, Grammar, RecordsBytes, ParseRecords, Printable, ValidHeader, AllKinds;
    ParseEncodedHeader(t.header);
    ParsePrintedRecords(t.records);
    PrintableKinds(t.records);
    ParserDecidesGrammar(H, t.header, t.records);
    GrammarNotEmpty(H, t.header, t.records);
    var front, data := EncodeHeader(t.header).value, PrintTrace(t).value;
    assert data[..HEADER_SIZE] == front && data[HEADER_SIZE..] == RecordsBytes(t.records);
  }

  lemma GrammarNotEmpty(H: Hash, header: Header, records: seq<Record>)
    ensures Grammar(H, header, records) ==> records != []
  {}

  // An accepted byte string is the printed form of what was parsed, and meets the grammar.
  lemma PrintParsedTrace(H: Hash, data: seq<Byte>, e: Expected)
    requires ParseTrace(H, data, e).Ok?
    ensures var t := ParseTrace(H, data, e).value;
            PrintTrace(t) == Ok(data) && ValidHeader(t.header) && Grammar(H, t.header, t.records) && Printable(t.records)
  {
    hide ParseHeader, EncodeHeader, Accepted, Grammar, RecordsBytes, ParseRecords, Printable, ValidHeader, Meets,
      AllKinds;
    var t := ParseTrace(H, data, e).value;
    EncodeParsedHeader(data[..HEADER_SIZE]);
    PrintParsedRecords(data[HEADER_SIZE..]);
    PrintableKinds(t.records);
    ParserDecidesGrammar(H, t.header, t.records);
    assert data == data[..HEADER_SIZE] + data[HEADER_SIZE..];
  }

  // ----- The file chain -----

  function HeaderLink(h: Header): seq<Byte> { Ascii("CDRTRC1-HDR\0") + Join(HeaderFields(h)) }

  function RecordBody(r: Record): (b: seq<Byte>)
    ensures RecordBytes(r) == Sealed(b)
  {
    var f := RecordFrame(r);
    Join(f.fields) + f.payload + Padding(Total(RecordLayout().widths), |f.payload|)
  }

  function RecordLink(previous: Digest, r: Record): seq<Byte> { Ascii("CDRTRC1-REC\0") + previous + RecordBody(r) }

  // The outer chain after the first i records.
  function Chain(H: Hash, t: Trace, i: nat): Digest
    requires i <= |t.records|
  {
    if i == 0 then H(HeaderLink(t.header)) else H(RecordLink(Chain(H, t, i - 1), t.records[i - 1]))
  }

  // What chain step i hashes.
  function LinkInput(H: Hash, t: Trace, i: nat): seq<Byte>
    requires i <= |t.records|
  {
    if i == 0 then HeaderLink(t.header) else RecordLink(Chain(H, t, i - 1), t.records[i - 1])
  }

  // Two different inputs, of a step of one chain and a step of the other, that hash alike.
  ghost predicate ChainCollision(H: Hash, a: Trace, b: Trace) {
    exists i, j :: 0 <= i <= |a.records| && 0 <= j <= |b.records| && LinkInput(H, a, i) != LinkInput(H, b, j)
                   && H(LinkInput(H, a, i)) == H(LinkInput(H, b, j))
  }

  lemma ChainIsHash(H: Hash, t: Trace, i: nat)
    requires i <= |t.records|
    ensures Chain(H, t, i) == H(LinkInput(H, t, i))
  {
    hide HeaderLink, RecordLink;
  }

  lemma LinkParts(p: Digest, q: Digest, r: Record, s: Record)
    requires RecordLink(p, r) == RecordLink(q, s)
    ensures p == q && RecordBytes(r) == RecordBytes(s)
  {
    hide RecordBody, RecordBytes;
    var d := Ascii("CDRTRC1-REC\0");
    assert RecordLink(p, r)[|d|..|d| + 32] == p && RecordLink(p, r)[|d| + 32..] == RecordBody(r);
    assert RecordLink(q, s)[|d|..|d| + 32] == q && RecordLink(q, s)[|d| + 32..] == RecordBody(s);
  }

  // A header's link input never is a record's.
  lemma LinksApart(h: Header, p: Digest, r: Record)
    ensures HeaderLink(h) != RecordLink(p, r)
  {
    hide RecordBody, HeaderFields, Join, Ascii;
    TagsApart();
    assert HeaderLink(h)[8] == Ascii("CDRTRC1-HDR\0")[8] && RecordLink(p, r)[8] == Ascii("CDRTRC1-REC\0")[8];
  }

  lemma TagsApart()
    ensures |Ascii("CDRTRC1-HDR\0")| == |Ascii("CDRTRC1-REC\0")| == 12
    ensures Ascii("CDRTRC1-HDR\0")[8] != Ascii("CDRTRC1-REC\0")[8]
  {}

  lemma SameBytesSameRecord(r: Record, s: Record)
    requires ValidRecord(r) && ValidRecord(s) && RecordBytes(r) == RecordBytes(s)
    ensures r == s
  {
    hide RecordBytes, ValidRecord, ParseRecord;
    ParseEncodedRecord(r, []);
    ParseEncodedRecord(s, []);
  }

  lemma SameLinkSameHeader(g: Header, h: Header)
    requires ValidHeader(g) && ValidHeader(h) && HeaderLink(g) == HeaderLink(h)
    ensures g == h
  {
    hide HeaderFields, Join, ValidHeader;
    var d := Ascii("CDRTRC1-HDR\0");
    assert HeaderLink(g)[|d|..] == Join(HeaderFields(g)) && HeaderLink(h)[|d|..] == Join(HeaderFields(h));
    ParseEncodedHeader(g);
    ParseEncodedHeader(h);
  }

  // Equal chain values, at whatever steps, come from equally many equal records under equal headers.
  lemma {:induction false} ChainBindsPrefix(H: Hash, a: Trace, i: nat, b: Trace, j: nat)
    requires Printable(a.records) && Printable(b.records) && ValidHeader(a.header) && ValidHeader(b.header)
    requires i <= |a.records| && j <= |b.records|
    requires Chain(H, a, i) == Chain(H, b, j) && !ChainCollision(H, a, b)
    ensures i == j && a.header == b.header && a.records[..i] == b.records[..j]
    decreases i
  {
    hide Chain, RecordLink, HeaderLink, ValidHeader, ValidRecord, RecordBytes;
    ChainIsHash(H, a, i);
    ChainIsHash(H, b, j);
    assert LinkInput(H, a, i) == LinkInput(H, b, j);
    if i > 0 && j > 0 {
      var r, s := a.records[i - 1], b.records[j - 1];
      LinkParts(Chain(H, a, i - 1), Chain(H, b, j - 1), r, s);
      assert ValidRecord(r) && ValidRecord(s);
      SameBytesSameRecord(r, s);
      ChainBindsPrefix(H, a, i - 1, b, j - 1);
      assert a.records[..i] == a.records[..i - 1] + [r] && b.records[..j] == b.records[..j - 1] + [s];
    } else if i > 0 {
      LinksApart(b.header, Chain(H, a, i - 1), a.records[i - 1]);
    } else if j > 0 {
      LinksApart(a.header, Chain(H, b, j - 1), b.records[j - 1]);
    } else {
      SameLinkSameHeader(a.header, b.header);
    }
  }

  // Two accepted byte strings with the same final chain hash are the same, or some two steps of their
  // chains are a collision of the hash function that both spell out.
  lemma FinalChainBindsTheFile(H: Hash, left: seq<Byte>, right: seq<Byte>, d: Expected, e: Expected)
    requires ParseTrace(H, left, d).Ok? && ParseTrace(H, right, e).Ok?
    ensures var a, b := ParseTrace(H, left, d).value, ParseTrace(H, right, e).value;
            Chain(H, a, |a.records|) == Chain(H, b, |b.records|) ==> left == right || ChainCollision(H, a, b)
  {
    hide ParseTrace, PrintTrace, Grammar, ValidHeader, Printable, ChainCollision, Chain, Meets;
    var a, b := ParseTrace(H, left, d).value, ParseTrace(H, right, e).value;
    PrintParsedTrace(H, left, d);
    PrintParsedTrace(H, right, e);
    if Chain(H, a, |a.records|) == Chain(H, b, |b.records|) && !ChainCollision(H, a, b) {
      ChainBindsPrefix(H, a, |a.records|, b, |b.records|);
      assert a.records[..|a.records|] == a.records && b.records[..|b.records|] == b.records;
    }
  }
}
