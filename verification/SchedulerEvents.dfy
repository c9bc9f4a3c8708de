/** Events of the CDRM5TR1 scheduler transcript and what each may do to the machine state. */
module SchedulerEvents {
  import opened Bytes

  // ----- Bits of a register -----

  // The value r | (1 << i).
  function SetBit(r: nat, i: nat): nat { if i == 0 then r - r % 2 + 1 else r % 2 + 2 * SetBit(r / 2, i - 1) }

  // r with the bits low..low + width taken from s.
  function Merge(r: nat, s: nat, low: nat, width: nat): nat
    decreases low, width
  {
    if low > 0 then r % 2 + 2 * Merge(r / 2, s / 2, low - 1, width)
    else if width > 0 then s % 2 + 2 * Merge(r / 2, s / 2, 0, width - 1)
    else r
  }

  lemma {:induction false} BitOfSet(r: nat, i: nat, j: nat)
    ensures Bit(SetBit(r, i), j) <==> j == i || Bit(r, j)
  {
    if i > 0 && j > 0 {
      BitOfSet(r / 2, i - 1, j - 1);
    }
  }

  lemma {:induction false} BitOfMerge(r: nat, s: nat, low: nat, width: nat, j: nat)
    ensures Bit(Merge(r, s, low, width), j) <==> if low <= j < low + width then Bit(s, j) else Bit(r, j)
    decreases low, width
  {
    if low > 0 && j > 0 {
      BitOfMerge(r / 2, s / 2, low - 1, width, j - 1);
    } else if low == 0 && width > 0 && j > 0 {
      BitOfMerge(r / 2, s / 2, 0, width - 1, j - 1);
    }
  }

  // ----- State -----

  datatype Device = Device(
    interrupt: nat, iobCsr: nat, interruptControl: nat, locationCounter: nat, tvMode: nat,
    sixtyCycle: nat, usecClock: nat, usecPhase: nat, scancode: nat, fifoCount: nat)

  datatype Event = Event(
    due: nat, generation: nat, insertion: nat, kind: nat, order: nat, flags: nat, value: nat,
    before: Device, after: Device)

  const SEQUENCE_BREAK: nat := 1
  const CLOCK: nat := 2
  const KEYBOARD: nat := 3

  // Bit numbers.
  const SEQUENCE_BREAK_FLAG: nat := 26
  const TV_ENABLE: nat := 3
  const TV_PENDING: nat := 4
  const XBUS_PENDING: nat := 14
  const UNIBUS_ENABLE: nat := 10
  const UNIBUS_PENDING: nat := 15
  const CSR_INTERRUPT: nat := 2
  const CSR_READY: nat := 5

  const UNIBUS_VECTOR: nat := 176  // 0o260, inside the bits 2..10 that 0o1774 covers

  const TICK: nat := 1_000_000  // sixtieths of a microsecond in one 60 Hz period

  // ----- The checks on one event's transition -----

  predicate SequenceBreakOk(b: Device, a: Device) {
    && a.interruptControl == SetBit(b.interruptControl, SEQUENCE_BREAK_FLAG)
    && a.locationCounter == Merge(b.locationCounter, SetBit(b.interruptControl, SEQUENCE_BREAK_FLAG), 26, 4)
    && a.interrupt == b.interrupt && a.iobCsr == b.iobCsr && a.tvMode == b.tvMode && a.sixtyCycle == b.sixtyCycle
    && a.usecClock == b.usecClock && a.usecPhase == b.usecPhase && a.scancode == b.scancode && a.fifoCount == b.fifoCount
  }

  predicate ClockOk(b: Device, a: Device) {
    var phase := b.usecPhase + TICK;
    && a.usecClock == (b.usecClock + phase / 60) % U32 && a.usecPhase == phase % 60
    && a.sixtyCycle == (b.sixtyCycle + 1) % U16
    && (if Bit(b.tvMode, TV_ENABLE)
        then a.tvMode == SetBit(b.tvMode, TV_PENDING) && a.interrupt == SetBit(b.interrupt, XBUS_PENDING)
        else a.tvMode == b.tvMode && a.interrupt == b.interrupt)
    && a.interruptControl == b.interruptControl && a.locationCounter == b.locationCounter && a.iobCsr == b.iobCsr
    && a.scancode == b.scancode && a.fifoCount == b.fifoCount
  }

  function Posted(interrupt: nat): nat {
    if Bit(interrupt, UNIBUS_ENABLE) then SetBit(Merge(interrupt, UNIBUS_VECTOR, 2, 8), UNIBUS_PENDING) else interrupt
  }

  // The key goes to the visible register when that is free and to the queue behind it when not.
  predicate KeyboardOk(value: nat, b: Device, a: Device) {
    && a.interruptControl == b.interruptControl && a.locationCounter == b.locationCounter && a.tvMode == b.tvMode
    && a.sixtyCycle == b.sixtyCycle && a.usecClock == b.usecClock && a.usecPhase == b.usecPhase
    && if Bit(b.iobCsr, CSR_READY) then
         && a.iobCsr == b.iobCsr && a.scancode == b.scancode && a.fifoCount == b.fifoCount + 1 && a.interrupt == b.interrupt
       else
         && a.scancode == SetBit(value, 16) && a.fifoCount == b.fifoCount
         && (if Bit(b.iobCsr, CSR_INTERRUPT)
             then a.iobCsr == SetBit(b.iobCsr, CSR_READY) && a.interrupt == Posted(b.interrupt)
             else a.iobCsr == b.iobCsr && a.interrupt == b.interrupt)
  }

  predicate TransitionOk(e: Event) {
    if e.kind == SEQUENCE_BREAK then SequenceBreakOk(e.before, e.after)
    else if e.kind == CLOCK then ClockOk(e.before, e.after)
    else KeyboardOk(e.value, e.before, e.after)
  }

  // ----- The machine's own step -----

  function Advance(kind: nat, value: nat, d: Device): Device {
    if kind == SEQUENCE_BREAK then
      var control := SetBit(d.interruptControl, SEQUENCE_BREAK_FLAG);
      d.(interruptControl := control, locationCounter := Merge(d.locationCounter, control, 26, 4))
    else if kind == CLOCK then
      var ticked := d.(
        usecClock := (d.usecClock + (d.usecPhase + TICK) / 60) % U32, usecPhase := (d.usecPhase + TICK) % 60,
        sixtyCycle := (d.sixtyCycle + 1) % U16);
      if !Bit(d.tvMode, TV_ENABLE) then ticked else
      ticked.(tvMode := SetBit(d.tvMode, TV_PENDING), interrupt := SetBit(d.interrupt, XBUS_PENDING))
    else if Bit(d.iobCsr, CSR_READY) then d.(fifoCount := d.fifoCount + 1)
    else
      var shown := d.(scancode := SetBit(value, 16));
      if !Bit(d.iobCsr, CSR_INTERRUPT) then shown else
      shown.(iobCsr := SetBit(d.iobCsr, CSR_READY), interrupt := Posted(d.interrupt))
  }

  // The field-by-field checks leave exactly one state after each event.
  lemma TransitionIsStep(e: Event)
    ensures TransitionOk(e) <==> e.after == Advance(e.kind, e.value, e.before)
  {
    hide SetBit, Merge, Bit, Posted;
  }
}
