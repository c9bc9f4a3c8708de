/** The upstream normalizer: a second, separately written decoder of native-oracle traces. */
module UpstreamNormalizer {
  import opened Bytes
  import opened RecordFraming
  import opened TlvFraming
  import opened UpstreamReader
  import opened OracleTraceParser
  import Codec = OracleTraceCodec

  // One line of the normalized output.
  datatype Line = Line(
    ordinal: nat, cycle: nat, slot: Option<nat>, first: nat, count: nat, flags: nat,
    state: seq<Byte>, mutation: seq<Byte>, semantic: seq<Byte>)

  // The loop's variables; terminal holds a status and a reason.
  datatype Progress = Progress(
    sequence: nat, previousCycle: nat, mutationNext: nat, boundaries: nat, terminal: Option<(nat, nat)>,
    finalSemantic: seq<Byte>, lines: seq<Line>)

  const BEGIN: Progress := Progress(0, 0, 0, 0, None, [], [])

  // ----- One record -----

  function Field(d: Dictionary, typ: nat, width: nat): (r: Result<seq<Byte>>)
    ensures r.Ok? ==> |r.value| == width
  {
    if typ in d && d[typ].0 && |d[typ].1| == width then Ok(d[typ].1) else Err
  }

  function IdentityField(d: Dictionary, typ: nat): seq<Byte> { if typ in d then d[typ].1 else [] }

  predicate BindsIdentity(H: Hash, uuid: seq<Byte>, d: Dictionary) {
    var bundle := IdentityField(d, 100);
    var components := seq(8, i requires 0 <= i < 8 => IdentityField(d, 101 + i));
    var derived := H(Ascii("CDRIDENT1\0") + Join(components));
    && |bundle| == 32 && (forall i :: 0 <= i < 8 ==> |components[i]| == 32)
    && bundle == derived && uuid == derived[..16]
  }

  function Slot(d: Dictionary, ordinal: nat): Result<Option<nat>> {
    if ordinal == 0 then Ok(None) else
    var slot :- Field(d, 5, 8);
    Ok(Some(FromLE(slot)))
  }

  // The fields of a boundary, each critical and of its width.
  function ReadLine(H: Hash, cycle: nat, payload: seq<Byte>, d: Dictionary): Result<(Line, seq<Byte>)> {
    var predecessor :- Field(d, 1, 32);
    var state :- Field(d, 2, 32);
    var mutation :- Field(d, 3, 32);
    var ordinal :- Field(d, 4, 8);
    var first :- Field(d, 6, 8);
    var count :- Field(d, 7, 8);
    var flags :- Field(d, 8, 4);
    var slot :- Slot(d, FromLE(ordinal));
    var semantic := H(Ascii("CDRBOUND1\0") + payload);
    Ok((Line(FromLE(ordinal), cycle, slot, FromLE(first), FromLE(count), FromLE(flags), state, mutation, semantic),
        predecessor))
  }

  predicate OpeningLine(H: Hash, uuid: seq<Byte>, line: Line, predecessor: seq<Byte>, d: Dictionary) {
    line.cycle == 0 && line.flags == 1 && predecessor == Zeros(32) && BindsIdentity(H, uuid, d)
  }

  predicate LaterLine(line: Line, predecessor: seq<Byte>, finalSemantic: seq<Byte>) {
    && line.slot == Some(line.ordinal - 1) && line.cycle == line.ordinal && predecessor == finalSemantic
    && Bit(line.flags, EXECUTED) != Bit(line.flags, INHIBITED)
  }

  predicate LineRule(H: Hash, uuid: seq<Byte>, s: Progress, line: Line, predecessor: seq<Byte>, d: Dictionary) {
    && line.ordinal == s.boundaries && line.first == s.mutationNext
    && (if line.ordinal == 0 then OpeningLine(H, uuid, line, predecessor, d)
        else LaterLine(line, predecessor, s.finalSemantic))
    && (line.count == 0 ==> line.mutation == EmptyMutation(H))
  }

  function Append(s: Progress, line: Line): Progress {
    s.(mutationNext := s.mutationNext + line.count, boundaries := s.boundaries + 1,
       finalSemantic := line.semantic, lines := s.lines + [line])
  }

  function TakeBoundary(H: Hash, uuid: seq<Byte>, s: Progress, cycle: nat, payload: seq<Byte>, d: Dictionary): Result<Progress> {
    var (line, predecessor) :- ReadLine(H, cycle, payload, d);
    :- Need(LineRule(H, uuid, s, line, predecessor, d));
    Ok(Append(s, line))
  }

  // Only the terminal that ends an exact run of expectedSlots slots will do.
  function TakeTerminal(slots: nat, s: Progress, d: Dictionary): Result<Progress> {
    var status :- Field(d, 4, 4);
    var reason :- Field(d, 5, 4);
    var count :- Field(d, 1, 8);
    var boundary :- Field(d, 2, 8);
    var hash :- Field(d, 3, 32);
    :- Need(s.sequence == slots + 1 && FromLE(count) == slots + 2 && FromLE(boundary) == slots);
    :- Need(hash == s.finalSemantic && FromLE(status) == COMPLETE && FromLE(reason) == REASON_LIMIT);
    Ok(s.(terminal := Some((FromLE(status), FromLE(reason)))))
  }

  function Take(H: Hash, uuid: seq<Byte>, slots: nat, s: Progress, raw: Raw, d: Dictionary): Result<Progress> {
    var t :-
      if raw.kind == Codec.KIND_BOUNDARY then TakeBoundary(H, uuid, s, raw.cycle, raw.payload, d)
      else if raw.kind == Codec.KIND_TERMINAL then TakeTerminal(slots, s, d)
      else Err;
    Ok(t.(sequence := s.sequence + 1, previousCycle := raw.cycle))
  }

  // ----- The whole trace -----

  function Consume(H: Hash, uuid: seq<Byte>, slots: nat, s: Progress, data: seq<Byte>): Result<Progress>
    decreases |data|
  {
    if data == [] then Ok(s) else
    var (raw, n) :- ReadRaw(data, s.sequence, s.previousCycle);
    var d :- IndexedResult(ParseTlvs(raw.payload, 0));
    var t :- Take(H, uuid, slots, s, raw, d);
    Consume(H, uuid, slots, t, data[n..])
  }

  function ReadUuid(data: seq<Byte>, slots: nat): Result<seq<Byte>> {
    if |data| < 64 then Err else
    var f := Split(data[..60], Codec.HeaderWidths());
    :- Need(f[0] == Ascii("CDRTRC1\0") && FromLE(f[1]) == 1 && FromLE(f[2]) == 64 && FromLE(f[3]) == 0);
    :- Need(f[6] == Zeros(20) && SealIntact(data[..64]) && FromLE(f[4]) == slots + 2);
    Ok(f[5])
  }

  predicate Exact(slots: nat, s: Progress) {
    s.boundaries == slots + 1 && s.terminal == Some((COMPLETE, REASON_LIMIT))
  }

  // The lines the normalizer writes for a trace of exactly this many slots.
  function Normalized(H: Hash, data: seq<Byte>, slots: nat): Result<seq<Line>> {
    var uuid :- ReadUuid(data, slots);
    var s :- Consume(H, uuid, slots, BEGIN, data[64..]);
    :- Need(Exact(slots, s));
    Ok(s.lines)
  }

  method Normalize(H: Hash, data: seq<Byte>, slots: nat) returns (r: Result<seq<Line>>)
    ensures r == Normalized(H, data, slots)
  {
    hide Take, ReadRaw, ParseTlvs, ReadUuid, Indexed;
    var header := ReadUuid(data, slots);
    if header.Err? {
      return Err;
    }
    UuidNeedsHeader(data, slots);
    var uuid := header.value;
    var source, s := data[64..], BEGIN;
    while source != []
      invariant Consume(H, uuid, slots, BEGIN, data[64..]) == Consume(H, uuid, slots, s, source)
      decreases |source|
    {
      var next := ReadRaw(source, s.sequence, s.previousCycle);
      if next.Err? {
        return Err;
      }
      var (raw, n) := next.value;
      var items := ParseDictionary(raw.payload);
      if items.Err? {
        return Err;
      }
      var taken := Take(H, uuid, slots, s, raw, items.value);
      if taken.Err? {
        return Err;
      }
      s, source := taken.value, source[n..];
    }
    if !Exact(slots, s) {
      return Err;
    }
    return Ok(s.lines);
  }

  lemma UuidNeedsHeader(data: seq<Byte>, slots: nat)
    requires ReadUuid(data, slots).Ok?
    ensures |data| >= 64
  {}
}
