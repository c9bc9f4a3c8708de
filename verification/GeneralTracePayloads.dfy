/** The payload schemas of general traces said again byte by byte. */
module GeneralTracePayloads {
  import opened Bytes
  import opened GeneralTraceRules

  // ----- Words and long words -----

  // The word at o is at most n, which fits its first byte.
  predicate SmallWord(p: seq<Byte>, o: nat, n: nat)
    requires o + 4 <= |p|
  {
    p[o] <= n && p[o + 1] == 0 && p[o + 2] == 0 && p[o + 3] == 0
  }

  predicate NoBytes(p: seq<Byte>, from: nat, to: nat)
    requires to <= |p|
  {
    forall i :: from <= i < to ==> p[i] == 0
  }

  lemma WordBytes(p: seq<Byte>, i: nat)
    requires 4 * i + 4 <= |p|
    ensures U32At(p, i) == p[4 * i] as int + 256 * p[4 * i + 1] as int + 65536 * p[4 * i + 2] as int
                           + 16777216 * p[4 * i + 3] as int
  {
    FromLEOfFew(p[4 * i..4 * i + 4]);
  }

  lemma SmallWordIs(p: seq<Byte>, i: nat, n: nat)
    requires 4 * i + 4 <= |p| && n < 256
    ensures U32At(p, i) <= n <==> SmallWord(p, 4 * i, n)
    ensures SmallWord(p, 4 * i, n) ==> U32At(p, i) == p[4 * i]
  {
    WordBytes(p, i);
  }

  lemma LongBytes(p: seq<Byte>, o: nat)
    requires o + 8 <= |p|
    ensures U64At(p, o) == p[o] as int + 256 * p[o + 1] as int + 65536 * p[o + 2] as int + 16777216 * p[o + 3] as int
                           + 4294967296 * (p[o + 4] as int + 256 * p[o + 5] as int + 65536 * p[o + 6] as int
                                           + 16777216 * p[o + 7] as int)
  {
    var s := p[o..o + 8];
    FromLEOfEight(s);
    FromLEOfFew(s[..4]);
    FromLEOfFew(s[4..]);
  }

  lemma LongZero(p: seq<Byte>, o: nat)
    requires o + 8 <= |p|
    ensures U64At(p, o) == 0 <==> NoBytes(p, o, o + 8)
  {
    LongBytes(p, o);
  }

  // ----- Interrupts -----

  // Two 16-bit words; the level has bits 2 to 9 of the second; pending says whether it has bit 14 or 15.
  predicate InterruptReads(p: seq<Byte>)
    requires |p| == 16
  {
    && p[2] == 0 && p[3] == 0 && p[6] == 0 && p[7] == 0
    && p[8] == p[4] - p[4] % 4 && p[9] == p[5] % 4 && p[10] == 0 && p[11] == 0
    && p[12] == (if p[5] >= 64 then 1 else 0) && p[13] == 0 && p[14] == 0 && p[15] == 0
  }

  lemma InterruptIs(p: seq<Byte>)
    requires |p| == 16
    ensures ValidInterrupt(p) <==> InterruptReads(p)
  {
    hide U32At;
    WordBytes(p, 0);
    WordBytes(p, 1);
    WordBytes(p, 2);
    WordBytes(p, 3);
    InterruptLevel(p[4], p[5]);
    LevelBytes(p[8], p[9], p[10], p[11], p[4], p[5]);
  }

  lemma LevelBytes(w: Byte, x: Byte, y: Byte, z: Byte, a: Byte, b: Byte)
    ensures w as int + 256 * x as int + 65536 * y as int + 16777216 * z as int == (a - a % 4) as int + 256 * (b % 4) as int
            <==> w == a - a % 4 && x == b % 4 && y == 0 && z == 0
  {}

  lemma InterruptLevel(a: Byte, b: Byte)
    ensures var after := a as int + 256 * b as int;
            (after / 4 % 256) * 4 == (a - a % 4) as int + 256 * (b % 4) as int
  {
    var x := a as int + 256 * b as int;
    assert x / 4 == a / 4 + 64 * b;
    assert a / 4 + 64 * b == (a / 4 + 64 * (b % 4)) + 256 * (b / 4);
  }

  // ----- Transactions -----

  // Octal 1, 10 and 40 are the error bits.
  predicate BusErrorReads(p: seq<Byte>, o: nat)
    requires o + 4 <= |p|
  {
    SmallWord(p, o, 255) && p[o] % 8 <= 1 && p[o] / 8 in {0, 1, 4, 5}
  }

  lemma BusErrorIs(p: seq<Byte>, i: nat)
    requires 4 * i + 4 <= |p|
    ensures ValidBusError(U32At(p, i)) <==> BusErrorReads(p, 4 * i)
  {
    hide U32At, ValidBusError;
    SmallWordIs(p, i, 255);
    BusErrorOctal(U32At(p, i));
  }

  lemma BusErrorOctal(n: nat)
    ensures ValidBusError(n) <==> n <= 255 && n % 8 <= 1 && n / 8 in {0, 1, 4, 5}
  {}

  // Direction, address space, a 22-bit address, request, result, status, interrupt words, bus errors.
  predicate TransactionReads(v: seq<Byte>)
    requires |v| == 44
  {
    && SmallWord(v, 0, 1) && SmallWord(v, 4, 1) && v[4] == 1
    && v[10] <= 63 && NoBytes(v, 11, 16)
    && (v[0] == 0 ==> NoBytes(v, 16, 20)) && (v[0] == 1 ==> NoBytes(v, 20, 24))
    && SmallWord(v, 24, 13) && (v[24] == 0 || v[24] == 13)
    && v[30] == 0 && v[31] == 0 && v[34] == 0 && v[35] == 0
    && BusErrorReads(v, 36) && BusErrorReads(v, 40)
  }

  lemma WordZero(p: seq<Byte>, i: nat)
    requires 4 * i + 4 <= |p|
    ensures U32At(p, i) == 0 <==> NoBytes(p, 4 * i, 4 * i + 4)
  {
    WordBytes(p, i);
  }

  lemma HalfWord(p: seq<Byte>, i: nat)
    requires 4 * i + 4 <= |p|
    ensures U32At(p, i) <= 0xffff <==> p[4 * i + 2] == 0 && p[4 * i + 3] == 0
  {
    WordBytes(p, i);
  }

  lemma AddressIs(p: seq<Byte>)
    requires |p| >= 16
    ensures U64At(p, 8) <= 4194303 <==> p[10] <= 63 && NoBytes(p, 11, 16)
  {
    LongBytes(p, 8);
    hide U64At;
  }

  lemma TransactionIs(v: seq<Byte>)
    requires |v| == 44
    ensures ValidTransaction(v) <==> TransactionReads(v)
  {
    hide U32At, U64At, ValidBusError, BusErrorReads, NoBytes;
    SmallWordIs(v, 0, 1);
    SmallWordIs(v, 1, 1);
    AddressIs(v);
    WordZero(v, 4);
    WordZero(v, 5);
    SmallWordIs(v, 6, 13);
    HalfWord(v, 7);
    HalfWord(v, 8);
    BusErrorIs(v, 9);
    BusErrorIs(v, 10);
  }

  // A count, then that many transactions.
  predicate TransactionsRead(p: seq<Byte>) {
    && |p| >= 4 && |p| == 4 + 44 * FromLE(p[..4])
    && forall i :: 0 <= i < FromLE(p[..4]) ==> TransactionReads(Nth(p, i))
  }

  function Nth(p: seq<Byte>, i: nat): (v: seq<Byte>)
    requires 48 + 44 * i <= |p|
    ensures |v| == 44
  {
    p[4 + 44 * i..48 + 44 * i]
  }

  lemma NthIs(p: seq<Byte>, i: nat)
    requires 48 + 44 * i <= |p|
    ensures p[4 + 44 * i..4 + 44 * (i + 1)] == Nth(p, i)
    ensures ValidTransaction(Nth(p, i)) <==> TransactionReads(Nth(p, i))
  {
    assert 4 + 44 * (i + 1) == 48 + 44 * i;
    TransactionIs(Nth(p, i));
  }

  lemma TransactionsAre(p: seq<Byte>)
    ensures ValidTransactions(p) <==> TransactionsRead(p)
  {
    hide FromLE, ValidTransaction, TransactionReads, Nth;
    if |p| >= 4 {
      var n := (|p| - 4) / 44;
      assert p[4 * 0..4 * 0 + 4] == p[..4];
      assert U32At(p, 0) == FromLE(p[..4]);
      assert (|p| - 4) % 44 == 0 && FromLE(p[..4]) == n <==> |p| == 4 + 44 * FromLE(p[..4]);
      if ValidTransactions(p) {
        forall i | 0 <= i < n
          ensures TransactionReads(Nth(p, i))
        {
          NthIs(p, i);
        }
      }
      if TransactionsRead(p) {
        forall i | 0 <= i < n
          ensures ValidTransaction(p[4 + 44 * i..4 + 44 * (i + 1)])
        {
          NthIs(p, i);
        }
      }
    }
  }

  // ----- Selected values -----

  // Kind, address, content, validity: nothing at all, or an address the kind allows.
  predicate SourceReads(p: seq<Byte>)
    requires |p| == 16
  {
    && SmallWord(p, 12, 1)
    && if p[12] == 0 then NoBytes(p, 0, 12) else SmallWord(p, 0, 1) && SmallWord(p, 4, 31)
  }

  predicate DestinationReads(p: seq<Byte>)
    requires |p| == 16
  {
    && SmallWord(p, 12, 1)
    && if p[12] == 0 then NoBytes(p, 0, 12) else
       && SmallWord(p, 0, 2) && p[0] >= 1
       && if p[0] == 1 then p[5] <= 3 && p[6] == 0 && p[7] == 0 else SmallWord(p, 4, 31)
  }

  lemma SourceIs(p: seq<Byte>)
    requires |p| == 16
    ensures ValidOperand(p, {0, 1}, map[0 := 31, 1 := 31]) <==> SourceReads(p)
  {
    hide U32At;
    SmallWordIs(p, 3, 1);
    SmallWordIs(p, 0, 1);
    SmallWordIs(p, 1, 31);
    WordZero(p, 0);
    WordZero(p, 1);
    WordZero(p, 2);
    WordZero(p, 3);
  }

  lemma TenBits(p: seq<Byte>, i: nat)
    requires 4 * i + 4 <= |p|
    ensures U32At(p, i) <= 1023 <==> p[4 * i + 1] <= 3 && p[4 * i + 2] == 0 && p[4 * i + 3] == 0
  {
    WordBytes(p, i);
  }

  lemma DestinationIs(p: seq<Byte>)
    requires |p| == 16
    ensures ValidOperand(p, {1, 2}, map[1 := 1023, 2 := 31]) <==> DestinationReads(p)
  {
    hide U32At;
    SmallWordIs(p, 3, 1);
    SmallWordIs(p, 0, 2);
    SmallWordIs(p, 1, 31);
    TenBits(p, 1);
    WordZero(p, 0);
    WordZero(p, 1);
    WordZero(p, 2);
    WordZero(p, 3);
  }

  predicate FlagsRead(p: seq<Byte>)
    requires |p| == 16
  {
    SmallWord(p, 0, 1) && SmallWord(p, 4, 1) && SmallWord(p, 8, 1) && SmallWord(p, 12, 1)
  }

  lemma FlagsAre(p: seq<Byte>)
    requires |p| == 16
    ensures AllBoolean(p) <==> FlagsRead(p)
  {
    hide U32At;
    SmallWordIs(p, 0, 1);
    SmallWordIs(p, 1, 1);
    SmallWordIs(p, 2, 1);
    SmallWordIs(p, 3, 1);
    if FlagsRead(p) {
      forall i | 0 <= i < |p| / 4
        ensures U32At(p, i) <= 1
      {
        assert i == 0 || i == 1 || i == 2 || i == 3;
      }
    }
  }

  predicate FourteenBits(p: seq<Byte>, i: nat)
    requires 4 * i + 4 <= |p|
  {
    p[4 * i + 1] <= 63 && p[4 * i + 2] == 0 && p[4 * i + 3] == 0
  }

  // Micro-PC, decoded word, A source, M source, destination, Q, VMA, MD, macro-PC, fault, interrupt, transactions.
  predicate SelectorReads(t: nat, p: seq<Byte>) {
    match t
    case 1 => |p| == 32 && forall i :: 0 <= i < 8 ==> FourteenBits(p, i)
    case 2 => |p| == 16 && p[6] == 0 && p[7] == 0 && p[14] == 0 && p[15] == 0
    case 3 => |p| == 8 && p[1] <= 3 && p[2] == 0 && p[3] == 0
    case 4 => |p| == 16 && SourceReads(p)
    case 5 => |p| == 16 && DestinationReads(p)
    case 6 => |p| == 8
    case 7 => |p| == 8
    case 8 => |p| == 12 && SmallWord(p, 8, 1)
    case 9 => |p| == 8
    case 10 => |p| == 16 && FlagsRead(p)
    case 11 => |p| == 16 && InterruptReads(p)
    case 12 => TransactionsRead(p)
    case _ => false
  }

  lemma MicroPcIs(p: seq<Byte>, i: nat)
    requires 4 * i + 4 <= |p|
    ensures U32At(p, i) <= 0x3fff <==> FourteenBits(p, i)
  {
    WordBytes(p, i);
  }

  lemma DecodedIs(p: seq<Byte>, o: nat)
    requires o + 8 <= |p|
    ensures U64At(p, o) < 0x1_0000_0000_0000 <==> p[o + 6] == 0 && p[o + 7] == 0
  {
    LongBytes(p, o);
    hide U64At;
  }

  lemma SelectorIs(t: nat, p: seq<Byte>)
    requires 1 <= t <= 12
    ensures ValidSelector(t, p) <==> SelectorReads(t, p)
  {
    hide U32At, U64At, ValidOperand, SourceReads, DestinationReads, AllBoolean, FlagsRead, ValidInterrupt, InterruptReads,
      ValidTransactions, TransactionsRead, FourteenBits, SmallWord;
    TransactionsAre(p);
    if |p| == 32 {
      forall i | 0 <= i < 8
        ensures U32At(p, i) <= 0x3fff <==> FourteenBits(p, i)
      {
        MicroPcIs(p, i);
      }
    }
    if |p| == 16 {
      DecodedIs(p, 0);
      DecodedIs(p, 8);
      SourceIs(p);
      DestinationIs(p);
      FlagsAre(p);
      InterruptIs(p);
    }
    if |p| == 12 {
      SmallWordIs(p, 2, 1);
    }
    if |p| == 8 && t == 3 {
      TenBits(p, 0);
    }
  }

  // ----- Events -----

  predicate ClockReads(p: seq<Byte>) {
    |p| == 24 && FromLE(p[..8]) <= FromLE(p[8..16]) && SmallWord(p, 16, 1) && NoBytes(p, 20, 24)
  }

  predicate SomeByte(p: seq<Byte>, from: nat, to: nat)
    requires to <= |p|
  {
    !NoBytes(p, from, to)
  }

  // Request issue, completions, transactions, and the extended request issue.
  predicate DeviceReads(code: nat, p: seq<Byte>) {
    match code
    case 1 => |p| == 72 && SmallWord(p, 0, 5) && p[0] >= 1 && SmallWord(p, 4, 16) && SomeByte(p, 8, 16) && SomeByte(p, 16, 24)
    case 5 => TransactionsRead(p)
    case 6 =>
      && |p| == 112 && SmallWord(p, 0, 5) && p[0] >= 1 && SmallWord(p, 4, 16) && SomeByte(p, 8, 16) && SomeByte(p, 16, 24)
      && FromLE(p[72..80]) <= 1024
    case _ =>
      && 2 <= code <= 4 && |p| == 68 && SmallWord(p, 0, 5) && p[0] >= 1 && SmallWord(p, 4, 1) && SmallWord(p, 8, 16)
      && SomeByte(p, 12, 20) && SomeByte(p, 20, 28)
  }

  // Clock, interrupt, device, fault and halt events.
  predicate PayloadReads(eventClass: nat, code: nat, p: seq<Byte>) {
    match eventClass
    case 1 => code == 1 && ClockReads(p)
    case 2 => code == 1 && |p| == 16 && InterruptReads(p)
    case 4 => DeviceReads(code, p)
    case 8 => code == 1 && |p| == 16 && FlagsRead(p)
    case 16 => code == 1 && p == [16, 0, 0, 0]
    case _ => false
  }

  lemma LongSmall(p: seq<Byte>, o: nat)
    requires o + 8 <= |p|
    ensures U64At(p, o) <= 1 <==> SmallWord(p, o, 1) && NoBytes(p, o + 4, o + 8)
  {
    LongBytes(p, o);
    hide U64At;
  }

  lemma ClockIs(p: seq<Byte>)
    requires |p| == 24
    ensures U64At(p, 8) >= U64At(p, 0) && U64At(p, 16) <= 1 <==> ClockReads(p)
  {
    hide FromLE, SmallWord, NoBytes;
    LongSmall(p, 16);
    assert p[0..0 + 8] == p[..8];
  }

  lemma OperationIs(p: seq<Byte>)
    requires |p| >= 4
    ensures 1 <= U32At(p, 0) <= 5 <==> SmallWord(p, 0, 5) && p[0] >= 1
  {
    WordBytes(p, 0);
  }

  lemma DeviceIs(code: nat, p: seq<Byte>)
    ensures ValidDeviceEvent(code, p) <==> DeviceReads(code, p)
  {
    hide U32At, ValidTransactions, TransactionsRead, SmallWord, NoBytes, FromLE;
    TransactionsAre(p);
    if |p| >= 68 {
      OperationIs(p);
      SmallWordIs(p, 1, 16);
      SmallWordIs(p, 1, 1);
      SmallWordIs(p, 2, 16);
      LongZero(p, 8);
      LongZero(p, 16);
      LongZero(p, 12);
      LongZero(p, 20);
    }
  }

  lemma HaltIs(p: seq<Byte>)
    requires |p| == 4
    ensures U32At(p, 0) == 16 <==> p == [16, 0, 0, 0]
  {
    WordBytes(p, 0);
  }

  // The schemas are these, byte by byte.
  lemma PayloadIs(eventClass: nat, code: nat, p: seq<Byte>)
    ensures ValidEvent(eventClass, code, p) <==> PayloadReads(eventClass, code, p)
  {
    hide U32At, U64At, ValidDeviceEvent, DeviceReads, AllBoolean, FlagsRead, ValidInterrupt, InterruptReads, ClockReads;
    DeviceIs(code, p);
    if |p| == 24 {
      ClockIs(p);
    }
    if |p| == 16 {
      FlagsAre(p);
      InterruptIs(p);
    }
    if |p| == 4 {
      HaltIs(p);
    }
    if eventClass == 1 && ClockReads(p) {
      ClockLength(p);
    }
  }

  lemma ClockLength(p: seq<Byte>)
    requires ClockReads(p)
    ensures |p| == 24
  {}
}
