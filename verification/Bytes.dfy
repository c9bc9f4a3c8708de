/** Bytes and fixed-width fields, as struct.pack and struct.unpack lay them out. */
module Bytes {
  import opened Arithmetic

  type Byte = b: nat | b < 256

  datatype Option<+T> = None | Some(value: T)

  datatype Result<+T> = Ok(value: T) | Err {
    predicate IsFailure() { Err? }
    function PropagateFailure<U>(): Result<U>
      requires Err?
    {
      Err
    }
    function Extract(): T
      requires Ok?
    {
      value
    }
  }

  // The check-and-raise idiom.
  datatype Outcome = Pass | Fail {
    predicate IsFailure() { Fail? }
    function PropagateFailure<U>(): Result<U>
      requires Fail?
    {
      Err
    }
  }

  function Need(condition: bool): Outcome { if condition then Pass else Fail }

  // The bytes of an ASCII string.
  function Ascii(s: string): (b: seq<Byte>)
    ensures |b| == |s|
  {
    seq(|s|, i requires 0 <= i < |s| => s[i] as int % 256)
  }

  // The test n & (1 << i).
  predicate Bit(n: nat, i: nat) { if i == 0 then n % 2 == 1 else Bit(n / 2, i - 1) }

  function Zeros(n: nat): seq<Byte> { seq(n, _ => 0) }

  // ----- Hashes -----

  type Digest = d: seq<Byte> | |d| == 32 witness Zeros(32)

  // The trace formats take their hash function as a parameter: nothing depends on which one it is.
  type Hash = seq<Byte> -> Digest

  // ----- Little-endian numbers -----

  function Pow256(n: nat): (p: nat)
    ensures p > 0
  {
    if n == 0 then 1 else 256 * Pow256(n - 1)
  }

  function Pow2(n: nat): (p: nat)
    ensures p > 0
  {
    if n == 0 then 1 else 2 * Pow2(n - 1)
  }

  const U16: nat := 0x1_0000
  const U32: nat := 0x1_0000_0000
  const U64: nat := 0x1_0000_0000_0000_0000

  lemma Pow256Values()
    ensures Pow256(1) == 256 && Pow256(2) == U16 && Pow256(4) == U32 && Pow256(8) == U64
  {}

  function LE(n: nat, width: nat): (s: seq<Byte>)
    ensures |s| == width
  {
    if width == 0 then [] else [n % 256] + LE(n / 256, width - 1)
  }

  function FromLE(s: seq<Byte>): (n: nat)
    ensures n < Pow256(|s|)
  {
    if s == [] then 0 else s[0] + 256 * FromLE(s[1..])
  }

  lemma {:induction false} FromLEOfLE(n: nat, width: nat)
    requires n < Pow256(width)
    ensures FromLE(LE(n, width)) == n
  {
    if width > 0 {
      FromLEOfLE(n / 256, width - 1);
      assert LE(n, width)[1..] == LE(n / 256, width - 1);
    }
  }

  lemma {:induction false} LEOfFromLE(s: seq<Byte>)
    ensures LE(FromLE(s), |s|) == s
    decreases |s|
  {
    if s != [] {
      LEOfFromLE(s[1..]);
      DivModUnique(FromLE(s), 256, FromLE(s[1..]), s[0]);
    }
  }

  // ----- Structures of fixed-width fields -----

  function Join(fields: seq<seq<Byte>>): seq<Byte> {
    if fields == [] then [] else fields[0] + Join(fields[1..])
  }

  function Widths(fields: seq<seq<Byte>>): seq<nat> { seq(|fields|, i requires 0 <= i < |fields| => |fields[i]|) }

  function Total(widths: seq<nat>): nat { if widths == [] then 0 else widths[0] + Total(widths[1..]) }

  lemma {:induction false} TotalSum(a: seq<nat>, b: seq<nat>)
    ensures Total(a + b) == Total(a) + Total(b)
    decreases |a|
  {
    if a == [] {
      assert a + b == b;
    } else {
      assert (a + b)[1..] == a[1..] + b;
      TotalSum(a[1..], b);
    }
  }

  function Split(data: seq<Byte>, widths: seq<nat>): (fields: seq<seq<Byte>>)
    requires |data| == Total(widths)
    ensures |fields| == |widths| && Widths(fields) == widths
    decreases |widths|
  {
    if widths == [] then [] else
    assert |data| == widths[0] + Total(widths[1..]);
    [data[..widths[0]]] + Split(data[widths[0]..], widths[1..])
  }

  lemma {:induction false} JoinLength(fields: seq<seq<Byte>>)
    ensures |Join(fields)| == Total(Widths(fields))
    decreases |fields|
  {
    if fields != [] {
      JoinLength(fields[1..]);
      assert Widths(fields)[1..] == Widths(fields[1..]);
    }
  }

  lemma {:induction false} SplitJoin(fields: seq<seq<Byte>>, widths: seq<nat>)
    requires Widths(fields) == widths
    ensures |Join(fields)| == Total(widths) && Split(Join(fields), widths) == fields
    decreases |fields|
  {
    JoinLength(fields);
    if fields != [] {
      assert widths[1..] == Widths(fields[1..]);
      SplitJoin(fields[1..], widths[1..]);
      assert Join(fields)[..widths[0]] == fields[0] && Join(fields)[widths[0]..] == Join(fields[1..]);
      assert fields == [fields[0]] + fields[1..];
    }
  }

  lemma {:induction false} JoinSplit(data: seq<Byte>, widths: seq<nat>)
    requires |data| == Total(widths)
    ensures Join(Split(data, widths)) == data
    decreases |widths|
  {
    if widths != [] {
      assert |data| == widths[0] + Total(widths[1..]);
      JoinSplit(data[widths[0]..], widths[1..]);
    }
  }

  lemma TotalOfOne(n: nat)
    ensures Total([n]) == n
  {}

  lemma TotalOfNone()
    ensures Total([]) == 0
  {}

  lemma TotalNext(w: seq<nat>, i: nat)
    requires i < |w|
    ensures Total(w[..i + 1]) == Total(w[..i]) + w[i]
  {
    assert w[..i + 1] == w[..i] + [w[i]];
    TotalSum(w[..i], [w[i]]);
    TotalOfOne(w[i]);
  }

  // Where a field of a structure lies.
  lemma {:induction false} SplitPiece(data: seq<Byte>, widths: seq<nat>, i: nat)
    requires |data| == Total(widths) && i < |widths|
    ensures var o := Total(widths[..i]);
            o + widths[i] <= |data| && Split(data, widths)[i] == data[o..o + widths[i]]
    decreases i
  {
    hide Split, Total;
    SplitFirst(data, widths);
    if i > 0 {
      var first, rest := widths[0], data[widths[0]..];
      SplitPiece(rest, widths[1..], i - 1);
      assert widths[..i][1..] == widths[1..][..i - 1];
      TotalFirst(widths[..i]);
      var o := Total(widths[1..][..i - 1]);
      assert data[first..|data|] == rest;
      SliceOfSlice(data, first, |data| - first, o, widths[i]);
    } else {
      TotalOfNone();
      assert widths[..0] == [];
    }
  }

  lemma TotalFirst(widths: seq<nat>)
    requires widths != []
    ensures Total(widths) == widths[0] + Total(widths[1..])
  {}

  lemma SplitFirst(data: seq<Byte>, widths: seq<nat>)
    requires |data| == Total(widths) && widths != []
    ensures |data| == widths[0] + Total(widths[1..]) && widths[0] <= |data|
    ensures Split(data, widths) == [data[..widths[0]]] + Split(data[widths[0]..], widths[1..])
  {
    TotalFirst(widths);
  }

  lemma SliceOfSlice(data: seq<Byte>, start: nat, length: nat, o: nat, n: nat)
    requires start + length <= |data| && o + n <= length
    ensures data[start..start + length][o..o + n] == data[start + o..start + o + n]
  {
    var s, t := data[start..start + length][o..o + n], data[start + o..start + o + n];
    assert |s| == |t| == n;
    forall i | 0 <= i < n
      ensures s[i] == t[i]
    {
      assert data[start..start + length][o + i] == data[start + o + i];
    }
  }

  // Field i of a structure at the front of data.
  lemma FieldAt(data: seq<Byte>, widths: seq<nat>, i: nat, o: nat, n: nat)
    requires Total(widths) <= |data| && i < |widths| && Total(widths[..i]) == o && widths[i] == n
    ensures o + n <= Total(widths) && Split(data[..Total(widths)], widths)[i] == data[o..o + n]
  {
    hide Split, Total;
    SplitPiece(data[..Total(widths)], widths, i);
    SliceOfSlice(data, 0, Total(widths), o, n);
  }

  // The numbers that two and four bytes hold.
  lemma FromLEOfFew(s: seq<Byte>)
    ensures |s| == 2 ==> FromLE(s) == s[0] as int + 256 * s[1] as int
    ensures |s| == 4 ==> FromLE(s) == s[0] as int + 256 * s[1] as int + 65536 * s[2] as int + 16777216 * s[3] as int
  {}

  lemma FromLEOfEight(s: seq<Byte>)
    requires |s| == 8
    ensures FromLE(s) == FromLE(s[..4]) + 4294967296 * FromLE(s[4..])
  {
    FromLEOfFew(s[..4]);
    assert s[1..][1..] == s[2..] && s[2..][1..] == s[3..] && s[3..][1..] == s[4..];
    assert FromLE(s[1..]) == s[1] + 256 * FromLE(s[2..]) && FromLE(s[2..]) == s[2] + 256 * FromLE(s[3..]);
    assert FromLE(s[3..]) == s[3] + 256 * FromLE(s[4..]);
  }

  lemma ZerosAre(d: seq<Byte>, from: nat, to: nat)
    requires from <= to <= |d|
    ensures d[from..to] == Zeros(to - from) <==> forall i :: from <= i < to ==> d[i] == 0
  {
    assert forall i :: from <= i < to ==> d[from..to][i - from] == d[i];
  }

  // The lowest bits by division.
  lemma LowBits(n: nat)
    ensures (Bit(n, 0) <==> n % 2 == 1) && (Bit(n, 1) <==> n / 2 % 2 == 1) && (Bit(n, 2) <==> n / 4 % 2 == 1)
    ensures (Bit(n, 3) <==> n / 8 % 2 == 1) && (Bit(n, 4) <==> n / 16 % 2 == 1)
  {
    var a := n / 2;
    var b := a / 2;
    var c := b / 2;
    assert Bit(n, 1) == Bit(a, 0) && Bit(n, 2) == Bit(a, 1) == Bit(b, 0) && Bit(n, 3) == Bit(a, 2) == Bit(b, 1) == Bit(c, 0);
    assert Bit(n, 4) == Bit(a, 3) == Bit(b, 2) == Bit(c, 1) == Bit(c / 2, 0);
    assert b == n / 4 && c == n / 8 && c / 2 == n / 16;
  }

  // A number is its bits.
  lemma {:induction false} BitsDetermine(m: nat, n: nat)
    requires forall i: nat :: Bit(m, i) == Bit(n, i)
    ensures m == n
    decreases m + n
  {
    assert Bit(m, 0) == Bit(n, 0);
    if m > 0 || n > 0 {
      forall i: nat
        ensures Bit(m / 2, i) == Bit(n / 2, i)
      {
        assert Bit(m, i + 1) == Bit(n, i + 1);
      }
      BitsDetermine(m / 2, n / 2);
    }
  }
}
