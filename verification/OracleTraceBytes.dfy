/** The parse loop of native-oracle traces, which keeps running state and the file chain. */
module OracleTraceBytes {
  import opened Bytes
  import opened RecordFraming
  import opened TlvFraming
  import opened OracleTraceCodec
  import opened OracleTraceParser
  import opened OracleTraceShape

  lemma {:induction false} RunOfPrefix(H: Hash, uuid: seq<Byte>, a: seq<Record>, b: seq<Record>, n: nat)
    requires n <= |a|
    ensures Run(H, uuid, a + b, n) == Run(H, uuid, a, n)
  {
    hide Step;
    if n > 0 {
      RunOfPrefix(H, uuid, a, b, n - 1);
    }
  }

  lemma {:induction false} RunStaysErr(H: Hash, uuid: seq<Byte>, records: seq<Record>, m: nat, n: nat)
    requires m <= n <= |records| && Run(H, uuid, records, m).Err?
    ensures Run(H, uuid, records, n).Err?
    decreases n - m
  {
    hide Step;
    if m < n {
      RunStaysErr(H, uuid, records, m, n - 1);
    }
  }

  // Once a record is refused, whatever follows is refused.
  lemma RefusedForGood(H: Hash, header: Header, s: State, records: seq<Record>, r: Record, rest: seq<Record>)
    requires Run(H, header.uuid, records, |records|) == Ok(s) && Step(H, header.uuid, s, r).Err?
    ensures !Accepted(H, header, records + ([r] + rest))
  {
    hide Step, Finished;
    var n := |records|;
    assert records + ([r] + rest) == (records + [r]) + rest;
    RunOfPrefix(H, header.uuid, records, [r] + rest, n);
    assert (records + ([r] + rest))[n] == r;
    RunStaysErr(H, header.uuid, records + ([r] + rest), n + 1, n + 1 + |rest|);
  }

  lemma RunOneMore(H: Hash, uuid: seq<Byte>, s: State, records: seq<Record>, r: Record)
    requires Run(H, uuid, records, |records|) == Ok(s)
    ensures Run(H, uuid, records + [r], |records| + 1) == Step(H, uuid, s, r)
  {
    hide Step;
    RunOfPrefix(H, uuid, records, [r], |records|);
  }

  function Prepend(a: seq<Record>, b: Result<seq<Record>>): (r: Result<seq<Record>>)
    ensures a == [] ==> r == b
  {
    match b
    case Ok(rest) =>
      assert a == [] ==> a + rest == rest;
      Ok(a + rest)
    case Err => Err
  }

  lemma ParseRecordsStep(data: seq<Byte>, records: seq<Record>)
    requires data != [] && ParseRecord(data).Ok?
    ensures var (r, n) := ParseRecord(data).value;
            Prepend(records, ParseRecords(data)) == Prepend(records + [r], ParseRecords(data[n..]))
  {
    hide ParseRecord;
    var (r, n) := ParseRecord(data).value;
    if ParseRecords(data[n..]).Ok? {
      assert records + ([r] + ParseRecords(data[n..]).value) == records + [r] + ParseRecords(data[n..]).value;
    }
  }

  lemma NothingLeft(records: seq<Record>, data: seq<Byte>)
    requires data == []
    ensures Prepend(records, ParseRecords(data)) == Ok(records)
  {
    assert records + [] == records;
  }

  // The chain over the bytes of a record, less its checksum.
  lemma ChainOneMore(H: Hash, header: Header, records: seq<Record>, data: seq<Byte>)
    requires ParseRecord(data).Ok?
    ensures var (r, n) := ParseRecord(data).value;
            && n >= 4
            && Chain(H, Trace(header, records + [r]), |records| + 1)
               == H(Ascii("CDRTRC1-REC\0") + Chain(H, Trace(header, records), |records|) + data[..n - 4])
  {
    hide ParseRecord, Ascii, HeaderLink, RecordBody, RecordBytes;
    var (r, n) := ParseRecord(data).value;
    EncodeParsedRecord(data);
    assert RecordBytes(r) == Sealed(RecordBody(r));
    assert data[..n][..n - 4] == data[..n - 4] == RecordBody(r);
    ChainOfPrefix(H, header, records, [r], |records|);
    assert (records + [r])[|records|] == r;
  }

  lemma {:induction false} ChainOfPrefix(H: Hash, header: Header, a: seq<Record>, b: seq<Record>, n: nat)
    requires n <= |a|
    ensures Chain(H, Trace(header, a + b), n) == Chain(H, Trace(header, a), n)
    decreases n
  {
    hide HeaderLink, RecordLink;
    if n > 0 {
      ChainOfPrefix(H, header, a, b, n - 1);
      assert (a + b)[n - 1] == a[n - 1];
    }
  }

  lemma ChainStart(H: Hash, data: seq<Byte>)
    requires ParseHeader(data).Ok?
    ensures |data| == HEADER_SIZE
    ensures Chain(H, Trace(ParseHeader(data).value, []), 0) == H(Ascii("CDRTRC1-HDR\0") + data[..60])
  {
    hide Ascii, HeaderFields, Join, ValidHeader, ReadHeader, Split, HeaderWidths;
    EncodeParsedHeader(data);
    var body := Join(HeaderFields(ParseHeader(data).value));
    assert data == Sealed(body);
  }

  /** Reads the header, then one record after another, keeping the running state and the chain. */
  method Parse(H: Hash, data: seq<Byte>, e: Expected) returns (result: Result<(Trace, Digest)>)
    ensures match ParseTrace(H, data, e)
            case Ok(t) => result == Ok((t, Chain(H, t, |t.records|)))
            case Err => result == Err
  {
    hide ParseHeader, ParseRecord, ParseRecords, Step, Finished, Meets, Run, Chain, Ascii, Prepend;
    if |data| < HEADER_SIZE {
      return Err;
    }
    var parsed := ParseHeader(data[..HEADER_SIZE]);
    if parsed.Err? {
      return Err;
    }
    var header := parsed.value;
    ChainStart(H, data[..HEADER_SIZE]);
    var position := HEADER_SIZE;
    var predecessor := H(Ascii("CDRTRC1-HDR\0") + data[..HEADER_SIZE][..60]);
    var records: seq<Record> := [];
    var state := START;
    EmptyRun(H, header.uuid);
    while position < |data|
      invariant HEADER_SIZE <= position <= |data|
      invariant Run(H, header.uuid, records, |records|) == Ok(state)
      invariant ParseRecords(data[HEADER_SIZE..]) == Prepend(records, ParseRecords(data[position..]))
      invariant predecessor == Chain(H, Trace(header, records), |records|)
    {
      var item := ParseRecord(data[position..]);
      if item.Err? {
        NotParsed(data[position..], records);
        return Err;
      }
      var (record, size) := item.value;
      ParseRecordsStep(data[position..], records);
      assert data[position..][size..] == data[position + size..];
      var next := Step(H, header.uuid, state, record);
      if next.Err? {
        StillRefused(H, header, state, records, record, ParseRecords(data[position + size..]));
        return Err;
      }
      RunOneMore(H, header.uuid, state, records, record);
      ChainOneMore(H, header, records, data[position..]);
      predecessor := H(Ascii("CDRTRC1-REC\0") + predecessor + data[position..][..size - 4]);
      state, records, position := next.value, records + [record], position + size;
    }
    NothingLeft(records, data[position..]);
    if !Finished(header, state) || records == [] || !Meets(records[0], e) {
      return Err;
    }
    return Ok((Trace(header, records), predecessor));
  }

  lemma NotParsed(data: seq<Byte>, records: seq<Record>)
    requires data != [] && ParseRecord(data).Err?
    ensures Prepend(records, ParseRecords(data)) == Err
  {
    hide ParseRecord;
  }

  lemma StillRefused(H: Hash, header: Header, s: State, records: seq<Record>, r: Record, rest: Result<seq<Record>>)
    requires Run(H, header.uuid, records, |records|) == Ok(s) && Step(H, header.uuid, s, r).Err?
    ensures var all := Prepend(records + [r], rest); all.Ok? ==> !Accepted(H, header, all.value)
  {
    hide Step, Run, Accepted;
    if rest.Ok? {
      RefusedForGood(H, header, s, records, r, rest.value);
      assert records + ([r] + rest.value) == records + [r] + rest.value;
    }
  }
}
