/** The scheduler transcript said again from the format: kinds by number, registers bit by bit, fields by offset. */
module SchedulerReference {
  import opened Bytes
  import opened SchedulerEvents
  import opened SchedulerTranscript
  import opened SchedulerBytes

  // ----- Order -----

  // Kind 2 is a clock, 3 a key, 1 a sequence break; they go in this order.
  predicate EarlierKind(k: nat, l: nat) { (k == 2 && l != 2) || (k == 3 && l == 1) }

  lemma BeforeIs(e: Event, f: Event)
    requires e.kind in {1, 2, 3} && f.kind in {1, 2, 3}
    ensures Before(e, f) <==>
              e.due < f.due || (e.due == f.due && (EarlierKind(e.kind, f.kind) || (e.kind == f.kind && e.insertion < f.insertion)))
  {}

  // Among events due together no clock follows a key or a sequence break, and no key a sequence break.
  lemma KindsInOrder(es: seq<Event>, i: nat, j: nat)
    requires IsTranscript(es) && i < j < |es| && es[i].due == es[j].due
    ensures es[i].kind in {1, 2, 3} && es[j].kind in {1, 2, 3}
    ensures (es[j].kind == 2 ==> es[i].kind == 2) && (es[j].kind == 3 ==> es[i].kind == 2)
  {
    hide TransitionOk, Placed, InDomain;
    assert EventRule(es[i]) && EventRule(es[j]) && Apart(es[i], es[j]);
  }

  // ----- Registers -----

  // b with one bit set.
  ghost predicate SetsBit(b: nat, a: nat, bit: nat) { forall j: nat :: Bit(a, j) <==> j == bit || Bit(b, j) }

  lemma SetBitIs(b: nat, a: nat, bit: nat)
    ensures a == SetBit(b, bit) <==> SetsBit(b, a, bit)
  {
    hide Bit, SetBit;
    forall j: nat
      ensures Bit(SetBit(b, bit), j) <==> j == bit || Bit(b, j)
    {
      BitOfSet(b, bit, j);
    }
    if SetsBit(b, a, bit) {
      BitsDetermine(a, SetBit(b, bit));
    }
  }

  // Bits 26 to 29 of the location counter are those of the control register with its bit 26 set.
  ghost predicate Located(control: nat, b: nat, a: nat) {
    forall j: nat :: Bit(a, j) <==> if 26 <= j < 30 then j == 26 || Bit(control, j) else Bit(b, j)
  }

  lemma LocatedIs(control: nat, b: nat, a: nat)
    ensures a == Merge(b, SetBit(control, SEQUENCE_BREAK_FLAG), 26, 4) <==> Located(control, b, a)
  {
    hide Bit, SetBit, Merge;
    var s := SetBit(control, SEQUENCE_BREAK_FLAG);
    forall j: nat
      ensures Bit(Merge(b, s, 26, 4), j) <==> if 26 <= j < 30 then j == 26 || Bit(control, j) else Bit(b, j)
    {
      BitOfMerge(b, s, 26, 4, j);
      BitOfSet(control, SEQUENCE_BREAK_FLAG, j);
    }
    if Located(control, b, a) {
      BitsDetermine(a, Merge(b, s, 26, 4));
    }
  }

  // Bit 15 set and the vector, octal 260, put into bits 2 to 9.
  ghost predicate PostedBits(b: nat, a: nat) {
    forall j: nat :: Bit(a, j) <==> j == 15 || (if 2 <= j < 10 then j in {4, 5, 7} else Bit(b, j))
  }

  lemma {:induction false} NoHighBits(n: nat, i: nat, j: nat)
    requires (i == 0 && n == 0) || (i > 0 && Shifted(n, i) == 0)
    requires j >= i
    ensures !Bit(n, j)
    decreases i, j
  {
    if i > 0 {
      NoHighBits(n / 2, i - 1, j - 1);
    } else if j > 0 {
      NoHighBits(n / 2, 0, j - 1);
    }
  }

  function Shifted(n: nat, i: nat): nat { if i == 0 then n else Shifted(n / 2, i - 1) }

  lemma VectorBits(j: nat)
    ensures Bit(UNIBUS_VECTOR, j) <==> j in {4, 5, 7}
  {
    if j >= 8 {
      assert Shifted(UNIBUS_VECTOR, 8) == 0;
      NoHighBits(UNIBUS_VECTOR, 8, j);
    } else {
      assert Bit(176, 4) && Bit(176, 5) && Bit(176, 7);
      assert !Bit(176, 0) && !Bit(176, 1) && !Bit(176, 2) && !Bit(176, 3) && !Bit(176, 6);
    }
  }

  lemma PostedIs(b: nat, a: nat)
    ensures a == Posted(b) <==> if Bit(b, 10) then PostedBits(b, a) else a == b
  {
    hide Bit, SetBit, Merge;
    var m := Merge(b, UNIBUS_VECTOR, 2, 8);
    var s := SetBit(m, UNIBUS_PENDING);
    forall j: nat
      ensures Bit(s, j) <==> j == 15 || (if 2 <= j < 10 then j in {4, 5, 7} else Bit(b, j))
    {
      BitOfSet(m, UNIBUS_PENDING, j);
      BitOfMerge(b, UNIBUS_VECTOR, 2, 8, j);
      VectorBits(j);
    }
    if PostedBits(b, a) {
      BitsDetermine(a, s);
    }
  }

  // ----- One event -----

  predicate SameTv(b: Device, a: Device) { a.tvMode == b.tvMode && a.sixtyCycle == b.sixtyCycle }

  predicate SameTime(b: Device, a: Device) { a.usecClock == b.usecClock && a.usecPhase == b.usecPhase }

  predicate SameControl(b: Device, a: Device) { a.interruptControl == b.interruptControl && a.locationCounter == b.locationCounter }

  predicate SameKeys(b: Device, a: Device) { a.scancode == b.scancode && a.fifoCount == b.fifoCount }

  ghost predicate SequenceBreakReads(b: Device, a: Device) {
    && SetsBit(b.interruptControl, a.interruptControl, 26) && Located(b.interruptControl, b.locationCounter, a.locationCounter)
    && a.interrupt == b.interrupt && a.iobCsr == b.iobCsr && SameTv(b, a) && SameTime(b, a) && SameKeys(b, a)
  }

  // One sixtieth of a second is 16,666 and two thirds microseconds, the thirds kept as sixtieths.
  ghost predicate ClockReads(b: Device, a: Device) {
    && a.usecPhase < 60
    && (exists carried: nat ::
          60 * carried + a.usecPhase == b.usecPhase + 1_000_000 && a.usecClock == (b.usecClock + carried) % 4_294_967_296)
    && a.sixtyCycle == (b.sixtyCycle + 1) % 65_536
    && (if Bit(b.tvMode, 3) then SetsBit(b.tvMode, a.tvMode, 4) && SetsBit(b.interrupt, a.interrupt, 14)
        else a.tvMode == b.tvMode && a.interrupt == b.interrupt)
    && SameControl(b, a) && a.iobCsr == b.iobCsr && SameKeys(b, a)
  }

  ghost predicate KeyReads(value: nat, b: Device, a: Device) {
    && SameControl(b, a) && SameTv(b, a) && SameTime(b, a)
    && if Bit(b.iobCsr, 5) then
         a.iobCsr == b.iobCsr && a.interrupt == b.interrupt && a.scancode == b.scancode && a.fifoCount == b.fifoCount + 1
       else
         && a.scancode == 65_536 + value && a.fifoCount == b.fifoCount
         && if Bit(b.iobCsr, 2) then
              && SetsBit(b.iobCsr, a.iobCsr, 5)
              && if Bit(b.interrupt, 10) then PostedBits(b.interrupt, a.interrupt) else a.interrupt == b.interrupt
            else a.iobCsr == b.iobCsr && a.interrupt == b.interrupt
  }

  // Registers within their widths; bit 4 of the IOB register is unused.
  predicate DomainReads(d: Device) {
    && d.interrupt <= 65_535 && (d.iobCsr <= 15 || 32 <= d.iobCsr <= 47) && d.sixtyCycle <= 65_535 && d.usecPhase <= 59
    && d.scancode <= 131_071 && d.fifoCount <= 10
  }

  ghost predicate EventReads(e: Event) {
    && e.generation > 0 && e.flags == 0 && DomainReads(e.before) && DomainReads(e.after)
    && match e.kind {
         case 1 => e.value == 0 && SequenceBreakReads(e.before, e.after)
         case 2 => e.value == 1 && ClockReads(e.before, e.after)
         case 3 => e.value <= 65_535 && KeyReads(e.value, e.before, e.after)
         case _ => false
       }
  }

  lemma DomainIs(d: Device)
    ensures InDomain(d) <==> DomainReads(d)
  {
    hide Bit;
    LowBits(d.iobCsr);
  }

  lemma SequenceBreakIs(b: Device, a: Device)
    ensures SequenceBreakOk(b, a) <==> SequenceBreakReads(b, a)
  {
    SetBitIs(b.interruptControl, a.interruptControl, SEQUENCE_BREAK_FLAG);
    LocatedIs(b.interruptControl, b.locationCounter, a.locationCounter);
    hide Bit, SetBit, Merge, SetsBit, Located;
  }

  lemma ClockIs(b: Device, a: Device)
    ensures ClockOk(b, a) <==> ClockReads(b, a)
  {
    SetBitIs(b.tvMode, a.tvMode, TV_PENDING);
    SetBitIs(b.interrupt, a.interrupt, XBUS_PENDING);
    hide Bit, SetBit, SetsBit;
    var phase := b.usecPhase + TICK;
    assert 60 * (phase / 60) + phase % 60 == phase;
  }

  lemma KeyIs(value: nat, b: Device, a: Device)
    requires value <= 65_535
    ensures KeyboardOk(value, b, a) <==> KeyReads(value, b, a)
  {
    SetBitIs(b.iobCsr, a.iobCsr, CSR_READY);
    PostedIs(b.interrupt, a.interrupt);
    ShownCode(value);
    hide Bit, SetBit, SetsBit, Posted, PostedBits;
  }

  lemma {:induction false} AboveWidth(n: nat, width: nat)
    requires Shifted(n, width) == 0
    ensures SetBit(n, width) == n + Pow2(width)
    decreases width
  {
    if width > 0 {
      AboveWidth(n / 2, width - 1);
    }
  }

  lemma {:induction false} NothingAbove(n: nat, width: nat)
    requires n < Pow2(width)
    ensures Shifted(n, width) == 0
    decreases width
  {
    if width > 0 {
      NothingAbove(n / 2, width - 1);
    }
  }

  lemma ShownCode(value: nat)
    requires value <= 65_535
    ensures SetBit(value, 16) == 65_536 + value
  {
    assert Pow2(4) == 16 && Pow2(8) == 256 && Pow2(12) == 4096;
    assert Pow2(16) == 65_536;
    NothingAbove(value, 16);
    AboveWidth(value, 16);
  }

  // The checks on one event are exactly these.
  lemma EventRuleIs(e: Event)
    ensures EventRule(e) <==> EventReads(e)
  {
    DomainIs(e.before);
    DomainIs(e.after);
    SequenceBreakIs(e.before, e.after);
    ClockIs(e.before, e.after);
    if e.value <= 65_535 {
      KeyIs(e.value, e.before, e.after);
    }
    hide InDomain, DomainReads, SequenceBreakOk, SequenceBreakReads, ClockOk, ClockReads, KeyboardOk, KeyReads;
  }

  // ----- Bytes -----

  lemma {:induction false} EventOffsets(i: nat)
    requires i <= 27
    ensures Total(EventWidths()[..i]) == if i <= 3 then 8 * i else 12 + 4 * i
  {
    if i > 0 {
      EventOffsets(i - 1);
      var w := EventWidths();
      TotalNext(w, i - 1);
    }
  }

  // Number i of record k: 64 bits each for the first three, then 32 bits each.
  function NumberAt(data: seq<Byte>, k: nat, i: nat): nat
    requires 16 + 120 * (k + 1) <= |data| && i < 27
  {
    var o := 16 + 120 * k + if i <= 3 then 8 * i else 12 + 4 * i;
    FromLE(data[o..o + if i < 3 then 8 else 4])
  }

  lemma NumbersAreFields(data: seq<Byte>, k: nat, i: nat)
    requires 16 + 120 * (k + 1) <= |data| && i < 27
    ensures Unpack(RecordAt(data, k), EventWidths())[i] == NumberAt(data, k, i)
  {
    hide FromLE, Split, Total;
    var record, o := RecordAt(data, k), if i <= 3 then 8 * i else 12 + 4 * i;
    EventOffsets(i);
    SplitPiece(record, EventWidths(), i);
    var n := if i < 3 then 8 else 4;
    assert record == data[16 + 120 * k..16 + 120 * k + 120];
    SliceOfSlice(data, 16 + 120 * k, 120, o, n);
  }

  // Due tick, generation and insertion number; kind, order, flags, value; then each register before and after.
  lemma EventFields(data: seq<Byte>, k: nat)
    requires 16 + 120 * (k + 1) <= |data|
    ensures var e, n := EventAt(data, k), (i: nat) requires i < 27 => NumberAt(data, k, i);
            && e.due == n(0) && e.generation == n(1) && e.insertion == n(2)
            && e.kind == n(3) && e.order == n(4) && e.flags == n(5) && e.value == n(6)
            && e.before == Device(n(7), n(9), n(11), n(13), n(15), n(17), n(19), n(21), n(23), n(25))
            && e.after == Device(n(8), n(10), n(12), n(14), n(16), n(18), n(20), n(22), n(24), n(26))
  {
    hide Unpack, NumberAt, EventWidths;
    forall i | 0 <= i < 27
      ensures Unpack(RecordAt(data, k), EventWidths())[i] == NumberAt(data, k, i)
    {
      NumbersAreFields(data, k, i);
    }
  }

  // A file is a header of 16 bytes that counts at most 256 records of 120 bytes.
  lemma FileIs(data: seq<Byte>)
    ensures HeaderOk(data) <==>
              && |data| >= 16 && data[..8] == [67, 68, 82, 77, 53, 84, 82, 49]
              && data[8..12] == [4, 0, 0, 0] && FromLE(data[12..16]) <= 256 && |data| == 16 + 120 * FromLE(data[12..16])
  {
    assert Ascii("CDRM5TR1") == [67, 68, 82, 77, 53, 84, 82, 49];
    if |data| >= 16 {
      FromLEOfFew(data[8..12]);
      FromLEOfFew([4, 0, 0, 0]);
      if FromLE(data[8..12]) == 4 {
        LEOfFromLE(data[8..12]);
        LEOfFromLE([4, 0, 0, 0]);
      }
    }
  }
}
