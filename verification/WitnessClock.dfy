/** The witness's guest clock: deadlines, how many fall due, and where they stand in the captured rows. */
module WitnessClock {
  import opened Bytes

  // The guest boundary of the n-th 60 Hz tick: the ceiling of n * 1,000,000 / 60.
  function ClockDue(n: nat): nat { (n * 1_000_000 + 59) / 60 }

  // How many ticks a boundary is worth.
  function TicksBy(boundary: nat): nat { boundary * 60 / 1_000_000 }

  // A tick is due by a boundary exactly when its number is at most the boundary's worth of ticks, so the
  // expected count is the number of ticks due.
  lemma DueByIff(n: nat, boundary: nat)
    ensures ClockDue(n) <= boundary <==> n <= TicksBy(boundary)
  {
  }

  lemma ClockDueIncreases(m: nat, n: nat)
    requires m < n
    ensures ClockDue(m) < ClockDue(n)
  {}

  // The test for a tick at a deadline.
  predicate Coincident(due: nat) { TicksBy(due) > 0 && ClockDue(TicksBy(due)) == due }

  // It finds a tick exactly when there is one, and finds the only one.
  lemma CoincidentIffTick(due: nat)
    ensures Coincident(due) <==> exists n :: n > 0 && ClockDue(n) == due
    ensures forall n :: n > 0 && ClockDue(n) == due ==> n == TicksBy(due)
  {
    forall n: nat | n > 0 && ClockDue(n) == due
      ensures n == TicksBy(due)
    {
      DueByIff(n, due);
      if n < TicksBy(due) {
        ClockDueIncreases(n, TicksBy(due));
        DueByIff(TicksBy(due), due);
      }
    }
  }

  // ----- Rows of a capture -----

  datatype Kind = Clock | Event | Write | Boundary | Settled

  // A row's boundary is its deadline, its boundary or its ordinal, as its kind has it. The colour flag and
  // the policy are those of clock rows.
  datatype Row = Row(kind: Kind, boundary: nat, ordinal: nat, colour: nat, policy: string)

  const POLICY: string := "ceil(n*1000000/60)"

  function RowPriority(k: Kind): nat {
    match k
    case Clock => 0
    case Event => 1
    case Write => 2
    case Boundary => 3
    case Settled => 4
  }

  predicate NotAfter(a: Row, b: Row) {
    a.boundary < b.boundary || (a.boundary == b.boundary && RowPriority(a.kind) <= RowPriority(b.kind))
  }

  ghost predicate Chronological(rows: seq<Row>) { forall i, j :: 0 <= i < j < |rows| ==> NotAfter(rows[i], rows[j]) }

  // Boundaries have 64 bits.
  predicate BoundariesFit(rows: seq<Row>) { forall i :: 0 <= i < |rows| ==> rows[i].boundary < U64 }

  // Comparing neighbours is comparing all pairs.
  method ScanChronology(rows: seq<Row>) returns (ok: bool)
    ensures ok <==> BoundariesFit(rows) && Chronological(rows)
  {
    var priorEffective: int, priorPriority: int := -1, -1;
    for index := 0 to |rows|
      invariant BoundariesFit(rows[..index]) && Chronological(rows[..index])
      invariant index == 0 ==> priorEffective == -1
      invariant index > 0 ==> priorEffective == rows[index - 1].boundary && priorPriority == RowPriority(rows[index - 1].kind)
    {
      var effective, priority := rows[index].boundary, RowPriority(rows[index].kind);
      if effective >= U64 {
        return false;
      }
      if effective < priorEffective || (effective == priorEffective && priority < priorPriority) {
        assert !NotAfter(rows[index - 1], rows[index]);
        return false;
      }
      forall i | 0 <= i < index
        ensures NotAfter(rows[i], rows[index])
      {
        assert i < index - 1 ==> NotAfter(rows[..index][i], rows[..index][index - 1]);
      }
      priorEffective, priorPriority := effective, priority;
    }
    assert rows[..|rows|] == rows;
    return true;
  }

  // The rows of one kind, in order.
  function OfKind(rows: seq<Row>, k: Kind): seq<Row> {
    if rows == [] then [] else
    var last := rows[|rows| - 1];
    OfKind(rows[..|rows| - 1], k) + if last.kind == k then [last] else []
  }

  method Select(rows: seq<Row>, k: Kind) returns (r: seq<Row>)
    ensures r == OfKind(rows, k)
  {
    r := [];
    for i := 0 to |rows|
      invariant r == OfKind(rows[..i], k)
    {
      assert rows[..i + 1][..i] == rows[..i];
      if rows[i].kind == k {
        r := r + [rows[i]];
      }
    }
    assert rows[..|rows|] == rows;
  }

  function Clocks(rows: seq<Row>): seq<Row> { OfKind(rows, Clock) }

  // Tick n at its deadline, within the fields' ranges, under the one policy.
  predicate ClockRow(r: Row, n: nat) {
    && r.ordinal == n && r.boundary == ClockDue(n) && r.colour <= 1 && r.policy == POLICY
    && 1 <= r.ordinal < U64 && 1 <= r.boundary < U64
  }

  // The clock rows are ticks 1 to count at their deadlines.
  predicate ClocksComplete(rows: seq<Row>, horizon: nat) {
    var clocks := Clocks(rows);
    && |clocks| == TicksBy(horizon) && clocks != []
    && forall i :: 0 <= i < |clocks| ==> ClockRow(clocks[i], i + 1)
  }

  method CheckClocks(rows: seq<Row>, horizon: nat) returns (ok: bool)
    ensures ok <==> ClocksComplete(rows, horizon)
  {
    var clocks := Select(rows, Clock);
    if |clocks| != horizon * 60 / 1_000_000 || horizon * 60 / 1_000_000 == 0 {
      return false;
    }
    for index := 1 to |clocks| + 1
      invariant forall i :: 0 <= i < index - 1 ==> ClockRow(clocks[i], i + 1)
    {
      var clock := clocks[index - 1];
      if clock.ordinal != index || clock.boundary != ClockDue(index) || clock.colour !in {0, 1} || clock.policy != POLICY {
        return false;
      }
      if !(1 <= clock.ordinal < U64) || !(1 <= clock.boundary < U64) {
        return false;
      }
    }
    return true;
  }

  // The dictionary of clock positions.
  function Positions(rows: seq<Row>): map<nat, nat> {
    if rows == [] then map[] else
    var n := |rows| - 1;
    if rows[n].kind == Clock then Positions(rows[..n])[rows[n].ordinal := n] else Positions(rows[..n])
  }

  // The check that a tick due with a key event was dispatched before it.
  predicate TickFirst(rows: seq<Row>, p: nat)
    requires p < |rows|
  {
    var ordinal := TicksBy(rows[p].boundary);
    rows[p].kind == Event && Coincident(rows[p].boundary) ==> ordinal in Positions(rows) && Positions(rows)[ordinal] <= p
  }

  method CheckCoincidence(rows: seq<Row>) returns (ok: bool)
    ensures ok <==> forall p :: 0 <= p < |rows| ==> TickFirst(rows, p)
  {
    var positions: map<nat, nat> := map[];
    for position := 0 to |rows|
      invariant positions == Positions(rows[..position])
    {
      assert rows[..position + 1][..position] == rows[..position];
      if rows[position].kind == Clock {
        positions := positions[rows[position].ordinal := position];
      }
    }
    assert rows[..|rows|] == rows;
    for position := 0 to |rows|
      invariant forall p :: 0 <= p < position ==> TickFirst(rows, p)
    {
      if rows[position].kind == Event {
        var ordinal := TicksBy(rows[position].boundary);
        var found := if ordinal in positions then positions[ordinal] else |rows|;
        if ordinal > 0 && ClockDue(ordinal) == rows[position].boundary && found > position {
          assert !TickFirst(rows, position);
          return false;
        }
      }
    }
    return true;
  }

  // ----- The chronology scan already does the coincidence check's work -----

  lemma {:induction false} RowOf(rows: seq<Row>, k: Kind, i: nat) returns (p: nat)
    requires i < |OfKind(rows, k)|
    ensures p < |rows| && rows[p] == OfKind(rows, k)[i] && rows[p].kind == k
    decreases |rows|
  {
    var n := |rows| - 1;
    if i < |OfKind(rows[..n], k)| {
      p := RowOf(rows[..n], k, i);
    } else {
      p := n;
    }
  }

  lemma {:induction false} PositionHolds(rows: seq<Row>, ordinal: nat)
    ensures ordinal in Positions(rows) <==> exists p :: 0 <= p < |rows| && rows[p].kind == Clock && rows[p].ordinal == ordinal
    ensures ordinal in Positions(rows) ==>
              var p := Positions(rows)[ordinal];
              p < |rows| && rows[p].kind == Clock && rows[p].ordinal == ordinal
    decreases |rows|
  {
    if rows != [] {
      var n := |rows| - 1;
      PositionHolds(rows[..n], ordinal);
      if p :| 0 <= p < |rows| && rows[p].kind == Clock && rows[p].ordinal == ordinal {
        assert p < n ==> rows[..n][p] == rows[p];
      }
    }
  }

  lemma {:induction false} RowListed(rows: seq<Row>, p: nat) returns (i: nat)
    requires p < |rows|
    ensures i < |OfKind(rows, rows[p].kind)| && OfKind(rows, rows[p].kind)[i] == rows[p]
    decreases |rows|
  {
    var n := |rows| - 1;
    if p < n {
      i := RowListed(rows[..n], p);
    } else {
      i := |OfKind(rows[..n], rows[p].kind)|;
    }
  }

  // Among chronological rows with complete clocks, the coincidence check refuses exactly those captures
  // in which a key falls on a tick beyond the horizon; up to the horizon it can never fail.
  lemma CoincidenceOnlyBeyondHorizon(rows: seq<Row>, horizon: nat, p: nat)
    requires Chronological(rows) && ClocksComplete(rows, horizon) && p < |rows|
    ensures TickFirst(rows, p) <==> rows[p].kind == Event && Coincident(rows[p].boundary) ==> rows[p].boundary <= horizon
  {
    var e := rows[p];
    if e.kind == Event && Coincident(e.boundary) {
      var n := TicksBy(e.boundary);
      DueByIff(n, horizon);
      PositionHolds(rows, n);
      if e.boundary <= horizon {
        var q := RowOf(rows, Clock, n - 1);
        var c := Positions(rows)[n];
        var i := RowListed(rows, c);
      } else if n in Positions(rows) {
        var i := RowListed(rows, Positions(rows)[n]);
      }
    }
  }

  // ----- The same, by kind and number -----

  // What may stand behind a row of kind k at the same boundary.
  predicate MayFollow(k: Kind, l: Kind) {
    match k
    case Clock => true
    case Event => l != Clock
    case Write => l == Write || l == Boundary || l == Settled
    case Boundary => l == Boundary || l == Settled
    case Settled => l == Settled
  }

  lemma NotAfterIs(a: Row, b: Row)
    ensures NotAfter(a, b) <==> a.boundary < b.boundary || (a.boundary == b.boundary && MayFollow(a.kind, b.kind))
  {}

  // A tick is due at the first boundary not before its number of sixtieths of 1,000,000.
  lemma ClockDueIs(n: nat)
    ensures 1_000_000 * n <= 60 * ClockDue(n) < 1_000_000 * n + 60
    ensures 1_000_000 * TicksBy(n) <= 60 * n < 1_000_000 * (TicksBy(n) + 1)
  {}

  lemma ClockRowIs(r: Row, n: nat)
    ensures ClockRow(r, n) <==>
              && r.ordinal == n && n >= 1 && n <= 18_446_744_073_709_551_615 && r.boundary == ClockDue(n)
              && r.boundary <= 18_446_744_073_709_551_615 && (r.colour == 0 || r.colour == 1) && r.policy == "ceil(n*1000000/60)"
  {}

  // ----- No accepted capture reaches the failing case -----

  const CLEANUP_HOLD: nat := 1_000_000
  const SUFFIX: nat := 64

  // The event rows are the scheduled ones: deadline by deadline.
  predicate EventsConsumed(rows: seq<Row>, dues: seq<nat>) {
    var events := OfKind(rows, Event);
    |events| == |dues| && forall i :: 0 <= i < |events| ==> events[i].boundary == dues[i]
  }

  const FORM_B_HOLD: nat := 20_000_000
  const C_TIMEOUT: nat := 100_000_000

  // Rows from and before to lie strictly between two boundaries.
  predicate Between(rows: seq<Row>, from: nat, to: nat, after: nat, before: nat)
    requires to <= |rows|
  {
    forall i :: from <= i < to ==> after < rows[i].boundary < before
  }

  // Three triples of writes, each in order and strictly after the one before it.
  predicate WritesInOrder(w: seq<Row>)
    requires |w| == 9
  {
    && w[0].boundary <= w[1].boundary <= w[2].boundary < w[3].boundary <= w[4].boundary
    && w[4].boundary <= w[5].boundary < w[6].boundary <= w[7].boundary <= w[8].boundary
  }

  // Where events, writes and boundaries stand to each other: the first pre events belong before boundary A.
  predicate PointsInOrder(rows: seq<Row>, dues: seq<nat>, pre: nat)
    requires 0 < pre < |dues|
  {
    var writes, boundaries, settled := OfKind(rows, Write), OfKind(rows, Boundary), OfKind(rows, Settled);
    && |writes| == 9 && WritesInOrder(writes) && |settled| == 1 && |boundaries| == 3 + SUFFIX
    && var a, b, c := boundaries[0].boundary, boundaries[1].boundary, boundaries[2].boundary;
    && a < b < c && dues[pre - 1] < a < dues[pre] && dues[pre] == dues[pre - 1] + FORM_B_HOLD
    && Between(writes, 0, 3, dues[pre - 1], a) && Between(writes, 3, 6, dues[|dues| - 1], b) && Between(writes, 6, 9, b, c)
    && writes[8].boundary <= writes[5].boundary + C_TIMEOUT
    && settled[0].boundary == c + CLEANUP_HOLD
    && forall i :: 3 <= i < |boundaries| ==> boundaries[i].boundary == settled[0].boundary + i - 2
  }

  lemma WritesInOrderIs(w: seq<Row>)
    requires |w| == 9
    ensures WritesInOrder(w) <==>
              && (forall i, j :: 0 <= i < j < 9 ==> w[i].boundary <= w[j].boundary)
              && w[2].boundary < w[3].boundary && w[5].boundary < w[6].boundary
  {}

  // The holds are 20 million boundaries before form B and 1 million after C; C is waited for 100 million; 64
  // boundaries follow. The three triples of writes lie before A, B and C, and behind what caused them.
  lemma PointsAre(rows: seq<Row>, dues: seq<nat>, pre: nat)
    requires 0 < pre < |dues|
    ensures PointsInOrder(rows, dues, pre) <==>
              var w, b, s := OfKind(rows, Write), OfKind(rows, Boundary), OfKind(rows, Settled);
              && |w| == 9 && |b| == 67 && |s| == 1 && WritesInOrder(w)
              && dues[pre - 1] < b[0].boundary < dues[pre] == dues[pre - 1] + 20_000_000
              && b[0].boundary < b[1].boundary < b[2].boundary && s[0].boundary == b[2].boundary + 1_000_000
              && (forall i :: 0 <= i < 3 ==> w[i].boundary > dues[pre - 1] && b[0].boundary > w[i].boundary)
              && (forall i :: 3 <= i < 6 ==> w[i].boundary > dues[|dues| - 1] && b[1].boundary > w[i].boundary)
              && (forall i :: 6 <= i < 9 ==> w[i].boundary > b[1].boundary && b[2].boundary > w[i].boundary)
              && w[8].boundary <= w[5].boundary + 100_000_000
              && forall i :: 3 <= i < 67 ==> b[i].boundary == s[0].boundary + i - 2
  {
    hide OfKind, WritesInOrder;
  }

  // In order of boundaries, rows of one kind are too.
  lemma {:induction false} KindInOrder(rows: seq<Row>, k: Kind, i: nat, j: nat)
    requires Chronological(rows) && i <= j < |OfKind(rows, k)|
    ensures OfKind(rows, k)[i].boundary <= OfKind(rows, k)[j].boundary
    decreases |rows|
  {
    var n := |rows| - 1;
    var before := OfKind(rows[..n], k);
    if j < |before| {
      KindInOrder(rows[..n], k, i, j);
    } else if i < j {
      var p := RowOf(rows[..n], k, i);
      assert NotAfter(rows[p], rows[n]);
    }
  }

  lemma EventsEndEarly(rows: seq<Row>, dues: seq<nat>, p: nat)
    requires Chronological(rows) && EventsConsumed(rows, dues) && p < |rows| && rows[p].kind == Event
    ensures dues != [] && rows[p].boundary <= dues[|dues| - 1]
  {
    var i := RowListed(rows, p);
    KindInOrder(rows, Event, i, |dues| - 1);
  }

  // Every row of a capture that passed the checks before passes the coincidence check: the last event is due
  // before boundary B, hence before the horizon.
  lemma CoincidenceNeverFails(rows: seq<Row>, dues: seq<nat>, pre: nat, p: nat)
    requires Chronological(rows) && EventsConsumed(rows, dues) && 0 < pre < |dues| && PointsInOrder(rows, dues, pre)
    requires ClocksComplete(rows, OfKind(rows, Settled)[0].boundary + SUFFIX) && p < |rows|
    ensures TickFirst(rows, p)
  {
    hide ClocksComplete, TickFirst, Coincident, Chronological, WritesInOrder;
    CoincidenceOnlyBeyondHorizon(rows, OfKind(rows, Settled)[0].boundary + SUFFIX, p);
    if rows[p].kind == Event {
      EventsEndEarly(rows, dues, p);
      assert dues[|dues| - 1] < OfKind(rows, Write)[3].boundary;
    }
  }

  // What the checks up to the clocks accept.
  ghost predicate CaptureInOrder(rows: seq<Row>, dues: seq<nat>, pre: nat)
    requires 0 < pre < |dues|
  {
    && BoundariesFit(rows) && Chronological(rows) && EventsConsumed(rows, dues) && PointsInOrder(rows, dues, pre)
    && ClocksComplete(rows, OfKind(rows, Settled)[0].boundary + SUFFIX)
  }

  method CheckEvents(rows: seq<Row>, dues: seq<nat>) returns (ok: bool)
    ensures ok <==> EventsConsumed(rows, dues)
  {
    var events := Select(rows, Event);
    if |events| != |dues| {
      return false;
    }
    for index := 0 to |events|
      invariant forall i :: 0 <= i < index ==> events[i].boundary == dues[i]
    {
      if events[index].boundary != dues[index] {
        return false;
      }
    }
    return true;
  }

  method CheckPoints(rows: seq<Row>, dues: seq<nat>, pre: nat) returns (ok: bool, horizon: nat)
    requires 0 < pre < |dues|
    ensures ok <==> PointsInOrder(rows, dues, pre)
    ensures ok ==> horizon == OfKind(rows, Settled)[0].boundary + SUFFIX
  {
    horizon := 0;
    var writes := Select(rows, Write);
    if |writes| != 9 || !WritesInOrder(writes) {
      return false, horizon;
    }
    var settled := Select(rows, Settled);
    var boundaries := Select(rows, Boundary);
    if |settled| != 1 || |boundaries| != 3 + SUFFIX {
      return false, horizon;
    }
    var a, b, c := boundaries[0].boundary, boundaries[1].boundary, boundaries[2].boundary;
    var lastA, firstB, lastB := dues[pre - 1], dues[pre], dues[|dues| - 1];
    if !(a < b < c) || !(lastA < a < firstB) || firstB != lastA + FORM_B_HOLD {
      return false, horizon;
    }
    if !Between(writes, 0, 3, lastA, a) || !Between(writes, 3, 6, lastB, b) || !Between(writes, 6, 9, b, c) {
      return false, horizon;
    }
    if writes[8].boundary > writes[5].boundary + C_TIMEOUT || settled[0].boundary != c + CLEANUP_HOLD {
      return false, horizon;
    }
    for index := 3 to |boundaries|
      invariant forall i :: 3 <= i < index ==> boundaries[i].boundary == settled[0].boundary + i - 2
    {
      if boundaries[index].boundary != settled[0].boundary + index - 2 {
        return false, horizon;
      }
    }
    return true, settled[0].boundary + SUFFIX;
  }

  // All these checks in the program's order, with the coincidence check at the end: it refuses nothing more.
  method CheckOrder(rows: seq<Row>, dues: seq<nat>, pre: nat) returns (ok: bool)
    requires 0 < pre < |dues|
    ensures ok <==> CaptureInOrder(rows, dues, pre)
  {
    hide Chronological, BoundariesFit, TickFirst, ClocksComplete, EventsConsumed, PointsInOrder;
    ok := ScanChronology(rows);
    if !ok {
      return;
    }
    ok := CheckEvents(rows, dues);
    if !ok {
      return;
    }
    var horizon;
    ok, horizon := CheckPoints(rows, dues, pre);
    if !ok {
      return;
    }
    ok := CheckClocks(rows, horizon);
    if !ok {
      return;
    }
    forall p | 0 <= p < |rows|
      ensures TickFirst(rows, p)
    {
      CoincidenceNeverFails(rows, dues, pre, p);
    }
    ok := CheckCoincidence(rows);
  }

  // ----- The clock transcript -----

  function Entry(n: nat): (e: seq<Byte>)
    ensures |e| == 16
  {
    LE(n, 8) + LE(ClockDue(n), 8)
  }

  function Entries(count: nat): (e: seq<Byte>)
    ensures |e| == 16 * count
  {
    if count == 0 then [] else Entries(count - 1) + Entry(count)
  }

  // Name, padding, count, then every tick with its deadline.
  function TranscriptBytes(count: nat): seq<Byte> { Ascii("CDRM6CLK1") + Zeros(3) + LE(count, 4) + Entries(count) }

  // Tick n stands at byte 16 n, with its deadline behind it.
  lemma {:induction false} EntryAt(count: nat, n: nat)
    requires 1 <= n <= count
    ensures var t := TranscriptBytes(count);
            && |t| == 16 + 16 * count && t[16 * n..16 * n + 8] == LE(n, 8) && t[16 * n + 8..16 * n + 16] == LE(ClockDue(n), 8)
            && t[..12] == [67, 68, 82, 77, 54, 67, 76, 75, 49, 0, 0, 0] && t[12..16] == LE(count, 4)
  {
    hide LE, ClockDue;
    assert Ascii("CDRM6CLK1") == [67, 68, 82, 77, 54, 67, 76, 75, 49];
    EntriesAt(count, n);
    var t, e := TranscriptBytes(count), Entries(count);
    assert t[16..] == e;
    assert t[16 * n..16 * n + 8] == e[16 * n - 16..16 * n - 8] && t[16 * n + 8..16 * n + 16] == e[16 * n - 8..16 * n];
  }

  lemma {:induction false} EntriesAt(count: nat, n: nat)
    requires 1 <= n <= count
    ensures Entries(count)[16 * n - 16..16 * n - 8] == LE(n, 8) && Entries(count)[16 * n - 8..16 * n] == LE(ClockDue(n), 8)
    decreases count
  {
    hide LE, ClockDue;
    if n < count {
      EntriesAt(count - 1, n);
    }
  }

  // Stores bytes at an offset of a buffer.
  method Store(a: array<Byte>, at: nat, bytes: seq<Byte>)
    requires at + |bytes| <= a.Length
    modifies a
    ensures a[..] == old(a[..at]) + bytes + old(a[at + |bytes|..])
  {
    for i := 0 to |bytes|
      invariant a[at..at + i] == bytes[..i]
      invariant a[..at] == old(a[..at]) && a[at + i..] == old(a[at + i..])
    {
      a[at + i] := bytes[i];
      assert a[at..at + i + 1] == a[at..at + i] + [a[at + i]];
    }
    assert a[..] == a[..at] + a[at..at + |bytes|] + a[at + |bytes|..];
  }

  lemma StoreInZeros(front: seq<Byte>, n: nat, bytes: seq<Byte>)
    requires |bytes| <= n
    ensures var s := front + Zeros(n);
            s[..|front|] + bytes + s[|front| + |bytes|..] == (front + bytes) + Zeros(n - |bytes|)
  {}

  // Stores bytes behind what has been written, where the buffer is still zero.
  method Append(a: array<Byte>, ghost front: seq<Byte>, at: nat, bytes: seq<Byte>)
    requires at == |front| && at + |bytes| <= a.Length && a[..] == front + Zeros(a.Length - at)
    modifies a
    ensures a[..] == (front + bytes) + Zeros(a.Length - at - |bytes|)
  {
    StoreInZeros(front, a.Length - at, bytes);
    hide Zeros;
    ghost var s := a[..];
    assert a[..at] == s[..at] && a[at + |bytes|..] == s[at + |bytes|..];
    Store(a, at, bytes);
  }

  // The count has to fit its four bytes.
  method ClockTranscript(count: nat) returns (r: Result<array<Byte>>)
    ensures r.Ok? <==> count < U32
    ensures r.Ok? ==> fresh(r.value) && r.value[..] == TranscriptBytes(count)
  {
    hide LE, Ascii, ClockDue, Zeros;
    if count >= U32 {
      return Err;
    }
    var a := new Byte[16 + count * 16](_ => 0);
    ghost var name, front := Ascii("CDRM6CLK1"), Ascii("CDRM6CLK1") + Zeros(3) + LE(count, 4);
    AllZero(a[..]);
    Append(a, [], 0, Ascii("CDRM6CLK1"));
    ZerosSplit([] + name, name, 3, 4 + count * 16);
    Append(a, name + Zeros(3), 12, LE(count, 4));
    assert front + Entries(0) == front;
    for ordinal := 1 to count + 1
      invariant a[..] == (front + Entries(ordinal - 1)) + Zeros((count - ordinal + 1) * 16)
    {
      var offset := 16 + (ordinal - 1) * 16;
      ghost var before := front + Entries(ordinal - 1);
      Append(a, before, offset, LE(ordinal, 8));
      Append(a, before + LE(ordinal, 8), offset + 8, LE(ClockDue(ordinal), 8));
      EntryAppends(front, ordinal);
    }
    NoZeros(a[..], front + Entries(count));
    return Ok(a);
  }

  lemma EntryAppends(front: seq<Byte>, n: nat)
    requires n > 0
    ensures front + Entries(n - 1) + LE(n, 8) + LE(ClockDue(n), 8) == front + Entries(n)
  {
    hide LE, ClockDue;
  }

  lemma AllZero(s: seq<Byte>)
    requires forall i :: 0 <= i < |s| ==> s[i] == 0
    ensures s == [] + Zeros(|s|)
  {}

  lemma ZerosSplit(front: seq<Byte>, same: seq<Byte>, n: nat, m: nat)
    requires front == same
    ensures |Zeros(n)| == n && front + Zeros(n + m) == (same + Zeros(n)) + Zeros(m)
  {}

  lemma NoZeros(s: seq<Byte>, front: seq<Byte>)
    requires s == front + Zeros(0)
    ensures s == front
  {}
}
