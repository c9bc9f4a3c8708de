/** CDRM5TR1 transcripts as byte strings. */
module SchedulerBytes {
  import opened Bytes
  import opened SchedulerEvents
  import opened SchedulerTranscript

  const HEADER_BYTES: nat := 16
  const RECORD_BYTES: nat := 120
  const MAX_RECORDS: nat := 256

  // ----- Packed numbers -----

  function Unpack(data: seq<Byte>, widths: seq<nat>): (v: seq<nat>)
    requires |data| == Total(widths)
    ensures |v| == |widths|
  {
    var f := Split(data, widths);
    seq(|widths|, i requires 0 <= i < |widths| => FromLE(f[i]))
  }

  function Pieces(values: seq<nat>, widths: seq<nat>): (f: seq<seq<Byte>>)
    requires |values| == |widths|
    ensures Widths(f) == widths
  {
    seq(|widths|, i requires 0 <= i < |widths| => LE(values[i], widths[i]))
  }

  function Pack(values: seq<nat>, widths: seq<nat>): seq<Byte>
    requires |values| == |widths|
  {
    Join(Pieces(values, widths))
  }

  lemma PackUnpacked(data: seq<Byte>, widths: seq<nat>)
    requires |data| == Total(widths)
    ensures Pack(Unpack(data, widths), widths) == data
  {
    hide LE, FromLE, Join, Split, Total;
    var f, v := Split(data, widths), Unpack(data, widths);
    forall i | 0 <= i < |widths|
      ensures LE(v[i], widths[i]) == f[i]
    {
      assert |f[i]| == Widths(f)[i];
      LEOfFromLE(f[i]);
    }
    assert Pieces(v, widths) == f;
    JoinSplit(data, widths);
  }

  // ----- One record -----

  function EventWidths(): (w: seq<nat>)
    ensures |w| == 27 && Total(w) == RECORD_BYTES
    ensures forall i :: 0 <= i < 27 ==> w[i] == if i < 3 then 8 else 4
  {
    var w: seq<nat> := [8, 8, 8];
    assert Total(w) == 24;
    Fours(24);
    TotalSum(w, seq(24, _ => 4));
    w + seq(24, _ => 4)
  }

  lemma {:induction false} Fours(n: nat)
    ensures Total(seq(n, _ => 4)) == 4 * n
  {
    if n > 0 {
      Fours(n - 1);
      assert seq(n, _ => 4 as nat)[1..] == seq(n - 1, _ => 4 as nat);
    }
  }

  // The before and after fields of the record alternate.
  function EventOf(v: seq<nat>): Event
    requires |v| == 27
  {
    Event(v[0], v[1], v[2], v[3], v[4], v[5], v[6],
          Device(v[7], v[9], v[11], v[13], v[15], v[17], v[19], v[21], v[23], v[25]),
          Device(v[8], v[10], v[12], v[14], v[16], v[18], v[20], v[22], v[24], v[26]))
  }

  function ValuesOf(e: Event): (v: seq<nat>)
    ensures |v| == 27 && EventOf(v) == e
  {
    var b, a := e.before, e.after;
    [e.due, e.generation, e.insertion, e.kind, e.order, e.flags, e.value,
     b.interrupt, a.interrupt, b.iobCsr, a.iobCsr, b.interruptControl, a.interruptControl,
     b.locationCounter, a.locationCounter, b.tvMode, a.tvMode, b.sixtyCycle, a.sixtyCycle,
     b.usecClock, a.usecClock, b.usecPhase, a.usecPhase, b.scancode, a.scancode, b.fifoCount, a.fifoCount]
  }

  lemma ValuesOfEvent(v: seq<nat>)
    requires |v| == 27
    ensures ValuesOf(EventOf(v)) == v
  {}

  // ----- The file -----

  predicate HeaderOk(data: seq<Byte>) {
    && |data| >= HEADER_BYTES && data[..8] == Ascii("CDRM5TR1") && FromLE(data[8..12]) == 4
    && FromLE(data[12..16]) <= MAX_RECORDS && |data| == HEADER_BYTES + FromLE(data[12..16]) * RECORD_BYTES
  }

  function RecordAt(data: seq<Byte>, i: nat): seq<Byte>
    requires HEADER_BYTES + (i + 1) * RECORD_BYTES <= |data|
  {
    data[HEADER_BYTES + i * RECORD_BYTES..HEADER_BYTES + (i + 1) * RECORD_BYTES]
  }

  function EventAt(data: seq<Byte>, i: nat): Event
    requires HEADER_BYTES + (i + 1) * RECORD_BYTES <= |data|
  {
    EventOf(Unpack(RecordAt(data, i), EventWidths()))
  }

  function Events(data: seq<Byte>): seq<Event>
    requires HeaderOk(data)
  {
    seq(FromLE(data[12..16]), i requires 0 <= i < FromLE(data[12..16]) => EventAt(data, i))
  }

  lemma EventsCounted(data: seq<Byte>)
    requires HeaderOk(data)
    ensures |data| >= 16 && HEADER_BYTES + FromLE(data[12..16]) * RECORD_BYTES == |data| && |Events(data)| == FromLE(data[12..16])
    ensures forall i :: 0 <= i < |Events(data)| ==> Events(data)[i] == EventAt(data, i)
  {
    hide FromLE, EventAt;
  }

  // Accepts exactly the transcripts.
  method Parse(data: seq<Byte>) returns (r: Result<seq<Event>>)
    ensures r.Ok? <==> HeaderOk(data) && IsTranscript(Events(data))
    ensures r.Ok? ==> r.value == Events(data)
  {
    NothingIsTranscript();
    hide HeaderOk, Events, IsTranscript, EventRule, Fits, Insertions, KeyboardTicks, Bit, EventAt, FromLE;
    if !HeaderOk(data) {
      return Err;
    }
    EventsCounted(data);
    ghost var es := Events(data);
    var count := FromLE(data[12..16]);
    var generation, sequences, keyboardDue := None, {}, {};
    var result: seq<Event> := [];
    for index := 0 to count
      invariant result == es[..index] && IsTranscript(result)
      invariant generation == Generation(result) && sequences == Insertions(result) && keyboardDue == KeyboardTicks(result)
    {
      var e := EventAt(data, index);
      OneMore(result, e);
      SetsGrow(result, e);
      var valid;
      valid, sequences, keyboardDue := ValidateEvent(e, Previous(result), generation, sequences, keyboardDue);
      assert es[..index + 1] == result + [e];
      if !valid {
        if IsTranscript(es) {
          TranscriptPrefix(es, index + 1);
        }
        return Err;
      }
      generation := Some(e.generation);
      result := result + [e];
    }
    assert es[..count] == es;
    return Ok(result);
  }

  // ----- Nothing in the file goes unread -----

  lemma SameEventSameRecord(a: seq<Byte>, b: seq<Byte>, i: nat)
    requires HEADER_BYTES + (i + 1) * RECORD_BYTES <= |a| && HEADER_BYTES + (i + 1) * RECORD_BYTES <= |b|
    requires EventAt(a, i) == EventAt(b, i)
    ensures RecordAt(a, i) == RecordAt(b, i)
  {
    hide ValuesOf, EventOf, Unpack, Pack;
    PackUnpacked(RecordAt(a, i), EventWidths());
    PackUnpacked(RecordAt(b, i), EventWidths());
    ValuesOfEvent(Unpack(RecordAt(a, i), EventWidths()));
    ValuesOfEvent(Unpack(RecordAt(b, i), EventWidths()));
  }

  lemma SameNumberSameBytes(a: seq<Byte>, b: seq<Byte>)
    requires |a| == |b| && FromLE(a) == FromLE(b)
    ensures a == b
  {
    LEOfFromLE(a);
    LEOfFromLE(b);
  }

  lemma SameRecordsSameBytes(a: seq<Byte>, b: seq<Byte>, n: nat)
    requires |a| == |b| == HEADER_BYTES + n * RECORD_BYTES
    requires forall i :: 0 <= i < n ==> RecordAt(a, i) == RecordAt(b, i)
    ensures a[HEADER_BYTES..] == b[HEADER_BYTES..]
  {
    forall k | HEADER_BYTES <= k < |a|
      ensures a[k] == b[k]
    {
      var i, r := (k - HEADER_BYTES) / RECORD_BYTES, (k - HEADER_BYTES) % RECORD_BYTES;
      assert RecordAt(a, i)[r] == RecordAt(b, i)[r];
    }
  }

  // Two well-headed files with the same events are the same file.
  lemma SameEventsSameFile(a: seq<Byte>, b: seq<Byte>)
    requires HeaderOk(a) && HeaderOk(b) && Events(a) == Events(b)
    ensures a == b
  {
    hide FromLE, EventAt, RecordAt;
    EventsCounted(a);
    EventsCounted(b);
    var n := |Events(a)|;
    forall i | 0 <= i < n
      ensures RecordAt(a, i) == RecordAt(b, i)
    {
      assert EventAt(a, i) == Events(a)[i] == Events(b)[i] == EventAt(b, i);
      SameEventSameRecord(a, b, i);
    }
    SameRecordsSameBytes(a, b, n);
    SameNumberSameBytes(a[8..12], b[8..12]);
    SameNumberSameBytes(a[12..16], b[12..16]);
    assert a == a[..8] + a[8..12] + a[12..16] + a[16..];
    assert b == b[..8] + b[8..12] + b[12..16] + b[16..];
  }
}
