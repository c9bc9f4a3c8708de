/** Whole general traces as byte strings: parsing, printing and rebuilding them. */
module GeneralTraceBytes {
  import opened Bytes
  import opened TlvFraming
  import opened GeneralTraceCodec
  import opened GeneralTraceParser

  datatype Trace = Trace(header: Header, records: seq<Record>)

  // The identities a caller may insist on.
  datatype Expected = Expected(
    profile: Option<seq<Byte>>, artifacts: Option<seq<Byte>>, state: Option<seq<Byte>>, schedule: Option<seq<Byte>>)

  predicate Meets(h: Header, e: Expected) {
    && e.profile in {None, Some(h.profile)} && e.artifacts in {None, Some(h.artifacts)}
    && e.state in {None, Some(h.state)} && e.schedule in {None, Some(h.schedule)}
  }

  function ParseRecords(data: seq<Byte>): Result<seq<Record>>
    decreases |data|
  {
    if data == [] then Ok([]) else
    var (r, n) :- ParseRecord(data);
    var rest :- ParseRecords(data[n..]);
    Ok([r] + rest)
  }

  function ParseTrace(H: Hash, data: seq<Byte>, e: Expected): Result<Trace> {
    if |data| < HEADER_SIZE then Err else
    var header :- ParseHeader(H, data[..HEADER_SIZE]);
    :- Need(Meets(header, e));
    var records :- ParseRecords(data[HEADER_SIZE..]);
    :- Need(Accepted(H, header, records));
    Ok(Trace(header, records))
  }

  // ----- The loop -----

  lemma {:induction false} RunOfPrefix(H: Hash, header: Header, a: seq<Record>, b: seq<Record>, n: nat)
    requires n <= |a|
    ensures Run(H, header, a + b, n) == Run(H, header, a, n)
  {
    hide Step;
    if n > 0 {
      RunOfPrefix(H, header, a, b, n - 1);
    }
  }

  lemma {:induction false} RunStaysErr(H: Hash, header: Header, records: seq<Record>, m: nat, n: nat)
    requires m <= n <= |records| && Run(H, header, records, m).Err?
    ensures Run(H, header, records, n).Err?
    decreases n - m
  {
    hide Step;
    if m < n {
      RunStaysErr(H, header, records, m, n - 1);
    }
  }

  // Once a record is refused, whatever follows is refused.
  lemma RefusedForGood(H: Hash, header: Header, s: State, records: seq<Record>, r: Record, rest: seq<Record>)
    requires Run(H, header, records, |records|) == Ok(s) && Step(H, header, s, r).Err?
    ensures !Accepted(H, header, records + ([r] + rest))
  {
    hide Step;
    var n := |records|;
    assert records + ([r] + rest) == (records + [r]) + rest;
    RunOfPrefix(H, header, records, [r] + rest, n);
    assert (records + ([r] + rest))[n] == r;
    RunStaysErr(H, header, records + ([r] + rest), n + 1, n + 1 + |rest|);
  }

  lemma RunOneMore(H: Hash, header: Header, s: State, records: seq<Record>, r: Record)
    requires Run(H, header, records, |records|) == Ok(s)
    ensures Run(H, header, records + [r], |records| + 1) == Step(H, header, s, r)
  {
    hide Step;
    RunOfPrefix(H, header, records, [r], |records|);
  }

  function Prepend(a: seq<Record>, b: Result<seq<Record>>): Result<seq<Record>> {
    match b case Ok(rest) => Ok(a + rest) case Err => Err
  }

  lemma PrependNothing(a: seq<Record>, b: Result<seq<Record>>)
    ensures Prepend([], b) == b && Prepend(a, Ok([])) == Ok(a)
  {
    if b.Ok? {
      assert [] + b.value == b.value;
    }
    assert a + [] == a;
  }

  lemma ParseRecordsStep(data: seq<Byte>, records: seq<Record>)
    requires data != [] && ParseRecord(data).Ok?
    ensures var (r, n) := ParseRecord(data).value;
            Prepend(records, ParseRecords(data)) == Prepend(records + [r], ParseRecords(data[n..]))
  {
    hide ParseRecord;
    var (r, n) := ParseRecord(data).value;
    if ParseRecords(data[n..]).Ok? {
      assert records + ([r] + ParseRecords(data[n..]).value) == records + [r] + ParseRecords(data[n..]).value;
    }
  }

  /** Reads the header, then one record after another, keeping the running state up to date. */
  method Parse(H: Hash, data: seq<Byte>, e: Expected) returns (result: Result<Trace>)
    ensures result == ParseTrace(H, data, e)
  {
    hide ParseHeader, ParseRecord, Step, Finished, Start, Meets;
    if |data| < HEADER_SIZE {
      return Err;
    }
    var parsed := ParseHeader(H, data[..HEADER_SIZE]);
    if parsed.Err? {
      return Err;
    }
    var header := parsed.value;
    if !Meets(header, e) {
      return Err;
    }
    var position := HEADER_SIZE;
    var records: seq<Record> := [];
    var state := Start(header);
    PrependNothing([], ParseRecords(data[position..]));
    while position < |data|
      invariant HEADER_SIZE <= position <= |data|
      invariant Run(H, header, records, |records|) == Ok(state)
      invariant ParseRecords(data[HEADER_SIZE..]) == Prepend(records, ParseRecords(data[position..]))
    {
      var item := ParseRecord(data[position..]);
      if item.Err? {
        return Err;
      }
      var (record, size) := item.value;
      ParseRecordsStep(data[position..], records);
      assert data[position..][size..] == data[position + size..];
      var next := Step(H, header, state, record);
      if next.Err? {
        ghost var rest := ParseRecords(data[position + size..]);
        if rest.Ok? {
          RefusedForGood(H, header, state, records, record, rest.value);
          assert records + [record] + rest.value == records + ([record] + rest.value);
        }
        return Err;
      }
      RunOneMore(H, header, state, records, record);
      records, state, position := records + [record], next.value, position + size;
    }
    assert data[position..] == [];
    PrependNothing(records, Ok([]));
    if !Finished(header, state) {
      return Err;
    }
    return Ok(Trace(header, records));
  }

  // ----- Printing whole traces -----

  function RecordsBytes(records: seq<Record>): seq<Byte> {
    if records == [] then [] else RecordBytes(records[0]) + RecordsBytes(records[1..])
  }

  predicate Printable(records: seq<Record>) {
    forall i :: 0 <= i < |records| ==> ValidRecord(records[i]) && Admissible(records[i].tlvs)
  }

  lemma {:induction false} ParsePrintedRecords(records: seq<Record>)
    requires Printable(records)
    ensures ParseRecords(RecordsBytes(records)) == Ok(records)
    decreases |records|
  {
    hide ParseRecord, RecordBytes, ValidRecord, Admissible;
    if records != [] {
      var bytes, rest := RecordBytes(records[0]), RecordsBytes(records[1..]);
      ParseEncodedRecord(records[0], rest);
      assert (bytes + rest)[|bytes|..] == rest;
      ParsePrintedRecords(records[1..]);
      assert records == [records[0]] + records[1..];
      assert bytes + rest != [];
    }
  }

  lemma {:induction false} PrintParsedRecords(data: seq<Byte>)
    requires ParseRecords(data).Ok?
    ensures Printable(ParseRecords(data).value) && RecordsBytes(ParseRecords(data).value) == data
    decreases |data|
  {
    hide ParseRecord, RecordBytes, ValidRecord, Admissible;
    if data != [] {
      var (r, n) := ParseRecord(data).value;
      EncodeParsedRecord(data);
      PrintParsedRecords(data[n..]);
      assert data == data[..n] + data[n..];
      assert ParseRecords(data).value[1..] == ParseRecords(data[n..]).value;
    }
  }

  function PrintTrace(H: Hash, t: Trace): Result<seq<Byte>> {
    var header :- EncodeHeader(H, t.header);
    :- Need(Printable(t.records));
    Ok(header + RecordsBytes(t.records))
  }

  const ANY: Expected := Expected(None, None, None, None)

  lemma EncodedHeaderLength(H: Hash, h: Header)
    requires EncodeHeader(H, h).Ok?
    ensures |EncodeHeader(H, h).value| == HEADER_SIZE
  {
    hide EncodeHeader;
    ParseEncodedHeader(H, h);
  }

  // A printed trace that meets the grammar is parsed back, and nothing else prints to it.
  lemma ParsePrintedTrace(H: Hash, t: Trace)
    requires PrintTrace(H, t).Ok? && t.header.seed == SemanticSeed(H, t.header)
    ensures ParseTrace(H, PrintTrace(H, t).value, ANY) == if Grammar(H, t.header, t.records) then Ok(t) else Err
  {
    hide ParseHeader, EncodeHeader, SemanticSeed, Accepted, Grammar, RecordsBytes, ParseRecords, Printable;
    EncodedHeaderLength(H, t.header);
    ParseEncodedHeader(H, t.header);
    ParsePrintedRecords(t.records);
    ParserDecidesGrammar(H, t.header, t.records);
    var front, data := EncodeHeader(H, t.header).value, PrintTrace(H, t).value;
    assert data[..HEADER_SIZE] == front && data[HEADER_SIZE..] == RecordsBytes(t.records);
    assert t.header.(seed := SemanticSeed(H, t.header)) == t.header;
  }

  // An accepted byte string is the printed form of what was parsed, and meets the grammar.
  lemma PrintParsedTrace(H: Hash, data: seq<Byte>, e: Expected)
    requires ParseTrace(H, data, e).Ok?
    ensures var t := ParseTrace(H, data, e).value;
            && PrintTrace(H, t) == Ok(data) && ValidHeader(H, t.header)
            && Grammar(H, t.header, t.records) && Meets(t.header, e)
  {
    hide ParseHeader, EncodeHeader, SemanticSeed, Accepted, Grammar, RecordsBytes, ParseRecords, Printable,
      ValidHeader, Meets;
    var t := ParseTrace(H, data, e).value;
    EncodeParsedHeader(H, data[..HEADER_SIZE]);
    PrintParsedRecords(data[HEADER_SIZE..]);
    ParserDecidesGrammar(H, t.header, t.records);
    assert data == data[..HEADER_SIZE] + data[HEADER_SIZE..];
  }
}
