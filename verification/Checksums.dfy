/**
 The CRC-32C of section 12.1 of RFC 3720 and the CRC-64 of Annex B of ECMA-182, table driven,
 with zero seed and no final inversion, and the merge of two checksums into that of the
 concatenation.  A register is the sequence of its bits in the order in which they are shifted
 out: lowest bit first for CRC-32C, highest bit first for CRC-64.
 */
module Checksums {
  import opened Arith

  type Bits = seq<bool>

  type Byte = x: nat | x < 256

  function Xor(a: Bits, b: Bits): (c: Bits)
    requires |a| == |b|
    ensures |c| == |a| && forall i :: 0 <= i < |a| ==> c[i] == (a[i] != b[i])
  {
    seq(|a|, i requires 0 <= i < |a| => a[i] != b[i])
  }

  function Zeros(n: nat): (z: Bits)
    ensures |z| == n && forall i :: 0 <= i < n ==> !z[i]
  {
    seq(n, i => false)
  }

  /** One bit: shift, and add the polynomial if the bit shifted out was set. */
  function Step(poly: Bits, x: Bits): (y: Bits)
    requires |poly| == |x| >= 1
    ensures |y| == |x| && forall i :: 0 <= i < |x| ==> y[i] == ((i + 1 < |x| && x[i + 1]) != (x[0] && poly[i]))
  {
    seq(|x|, i requires 0 <= i < |x| => (i + 1 < |x| && x[i + 1]) != (x[0] && poly[i]))
  }

  function Steps(poly: Bits, x: Bits, k: nat): (y: Bits)
    requires |poly| == |x| >= 1
    ensures |y| == |x|
  {
    if k == 0 then x else Step(poly, Steps(poly, x, k - 1))
  }

  lemma StepAdditive(poly: Bits, x: Bits, y: Bits)
    requires |poly| == |x| == |y| >= 1
    ensures Step(poly, Xor(x, y)) == Xor(Step(poly, x), Step(poly, y))
  {
  }

  lemma {:induction false} StepsAdditive(poly: Bits, x: Bits, y: Bits, k: nat)
    requires |poly| == |x| == |y| >= 1
    ensures Steps(poly, Xor(x, y), k) == Xor(Steps(poly, x, k), Steps(poly, y, k))
  {
    if k > 0 {
      StepsAdditive(poly, x, y, k - 1);
      StepAdditive(poly, Steps(poly, x, k - 1), Steps(poly, y, k - 1));
    }
  }

  function Shift(x: Bits, k: nat): (y: Bits)
    requires k <= |x|
    ensures |y| == |x|
  {
    x[k..] + Zeros(k)
  }

  /** Clear bits are shifted out without a trace. */
  lemma {:induction false} StepsShift(poly: Bits, x: Bits, k: nat)
    requires |poly| == |x| >= 1 && k <= |x| && forall i :: 0 <= i < k ==> !x[i]
    ensures Steps(poly, x, k) == Shift(x, k)
  {
    if k > 0 {
      StepsShift(poly, x, k - 1);
      var y := Shift(x, k - 1);
      assert y[0] == x[k - 1];
      assert Step(poly, y) == Shift(x, k);
    }
  }

  // ----- bytes

  /** The eight bits of a number, lowest first. */
  function LowFirst(v: nat, n: nat): (b: Bits)
    ensures |b| == n
  {
    if n == 0 then [] else [v % 2 == 1] + LowFirst(v / 2, n - 1)
  }

  function LowFirstValue(b: Bits): nat {
    if b == [] then 0 else (if b[0] then 1 else 0) + 2 * LowFirstValue(b[1..])
  }

  lemma {:induction false} LowFirstRoundTrip(b: Bits)
    ensures LowFirst(LowFirstValue(b), |b|) == b
  {
    if b != [] {
      LowFirstRoundTrip(b[1..]);
      var v := LowFirstValue(b[1..]);
      assert ((if b[0] then 1 else 0) + 2 * v) / 2 == v;
    }
  }

  lemma {:induction false} LowFirstBound(b: Bits)
    ensures LowFirstValue(b) < Pow2(|b|)
  {
    if b != [] {
      LowFirstBound(b[1..]);
    }
  }

  function Reverse(b: Bits): (r: Bits)
    ensures |r| == |b| && forall i :: 0 <= i < |b| ==> r[i] == b[|b| - 1 - i]
  {
    seq(|b|, i requires 0 <= i < |b| => b[|b| - 1 - i])
  }

  /** A checksum: register width, polynomial and bit order. */
  datatype Crc = Crc(width: nat, poly: Bits, highFirst: bool)

  predicate CrcOk(c: Crc) {
    c.width >= 8 && |c.poly| == c.width
  }

  function Crc32c(): (c: Crc)
    ensures CrcOk(c)
  {
    Crc(32, LowFirst(0x82f6_3b78, 32), false)
  }

  function Crc64(): (c: Crc)
    ensures CrcOk(c)
  {
    Crc(64, Reverse(LowFirst(0x42f0_e1eb_a9ea_3693, 64)), true)
  }

  /** A byte's bits in the checksum's order. */
  function ByteBits(c: Crc, v: nat): (b: Bits)
    ensures |b| == 8
  {
    if c.highFirst then Reverse(LowFirst(v, 8)) else LowFirst(v, 8)
  }

  function ByteValue(c: Crc, b: Bits): nat {
    LowFirstValue(if c.highFirst then Reverse(b) else b)
  }

  lemma ByteRoundTrip(c: Crc, b: Bits)
    requires |b| == 8
    ensures ByteValue(c, b) < 256 && ByteBits(c, ByteValue(c, b)) == b
  {
    var l := if c.highFirst then Reverse(b) else b;
    LowFirstRoundTrip(l);
    LowFirstBound(l);
    assert Pow2(8) == 2 * (2 * (2 * (2 * Pow2(4)))) && Pow2(4) == 16;
    assert c.highFirst ==> Reverse(Reverse(b)) == b;
  }

  /** A byte's bits at the head of an otherwise clear register. */
  function Head(c: Crc, b: Bits): (x: Bits)
    requires CrcOk(c) && |b| == 8
    ensures |x| == c.width
  {
    b + Zeros(c.width - 8)
  }

  /** One byte: mix it in and take eight steps. */
  function Update(c: Crc, crc: Bits, byte: nat): (x: Bits)
    requires CrcOk(c) && |crc| == c.width
    ensures |x| == c.width
  {
    Steps(c.poly, Xor(crc, Head(c, ByteBits(c, byte))), 8)
  }

  // ----- the table

  predicate TableOk(c: Crc, t: seq<Bits>)
    requires CrcOk(c)
  {
    |t| == 256 && forall i :: 0 <= i < 256 ==> t[i] == Steps(c.poly, Head(c, ByteBits(c, i)), 8)
  }

  method BuildTable(c: Crc) returns (t: seq<Bits>)
    requires CrcOk(c)
    ensures TableOk(c, t)
  {
    t := [];
    for i := 0 to 256
      invariant |t| == i && forall k :: 0 <= k < i ==> t[k] == Steps(c.poly, Head(c, ByteBits(c, k)), 8)
    {
      var crc := Head(c, ByteBits(c, i));
      for bit := 0 to 8
        invariant crc == Steps(c.poly, Head(c, ByteBits(c, i)), bit)
      {
        crc := Step(c.poly, crc);
      }
      t := t + [crc];
    }
  }

  /** A table look-up and a shift by eight are eight single steps. */
  lemma TableStep(c: Crc, t: seq<Bits>, crc: Bits, byte: nat)
    requires CrcOk(c) && TableOk(c, t) && |crc| == c.width
    ensures var x := Xor(crc, Head(c, ByteBits(c, byte)));
            var i := ByteValue(c, x[..8]);
            i < 256 && |t[i]| == c.width && Xor(t[i], Shift(crc, 8)) == Update(c, crc, byte)
  {
    var x := Xor(crc, Head(c, ByteBits(c, byte)));
    ByteRoundTrip(c, x[..8]);
    HeadAndTail(c, x);
    MixedTail(c, crc, ByteBits(c, byte));
  }

  /** Eight steps of a register: those of its first byte, and a shift of the rest. */
  lemma HeadAndTail(c: Crc, x: Bits)
    requires CrcOk(c) && |x| == c.width
    ensures Steps(c.poly, x, 8) == Xor(Steps(c.poly, Head(c, x[..8]), 8), Shift(x, 8))
  {
    SplitHead(c, x);
    StepsAdditive(c.poly, Head(c, x[..8]), Tail(x), 8);
    StepsShift(c.poly, Tail(x), 8);
  }

  /** All but the first byte of a register. */
  function Tail(x: Bits): (y: Bits)
    requires |x| >= 8
    ensures |y| == |x| && forall i :: 0 <= i < |x| ==> y[i] == (i >= 8 && x[i])
  {
    Zeros(8) + x[8..]
  }

  lemma SplitHead(c: Crc, x: Bits)
    requires CrcOk(c) && |x| == c.width
    ensures x == Xor(Head(c, x[..8]), Tail(x)) && Shift(Tail(x), 8) == Shift(x, 8)
  {
    var y := Xor(Head(c, x[..8]), Tail(x));
    assert forall i :: 0 <= i < |x| ==> y[i] == x[i];
    assert Tail(x)[8..] == x[8..];
  }

  /** Mixing in a byte does not touch the rest of the register. */
  lemma MixedTail(c: Crc, crc: Bits, b: Bits)
    requires CrcOk(c) && |crc| == c.width && |b| == 8
    ensures Shift(Xor(crc, Head(c, b)), 8) == Shift(crc, 8)
  {
    var x := Xor(crc, Head(c, b));
    assert x[8..] == crc[8..];
  }

  /** The register after the first `n` bytes. */
  function Fold(c: Crc, crc: Bits, data: seq<Byte>, n: nat): (x: Bits)
    requires CrcOk(c) && |crc| == c.width && n <= |data|
    ensures |x| == c.width
  {
    if n == 0 then crc else Update(c, Fold(c, crc, data, n - 1), data[n - 1])
  }

  method Compute(c: Crc, t: seq<Bits>, seed: Bits, data: seq<Byte>) returns (crc: Bits)
    requires CrcOk(c) && TableOk(c, t) && |seed| == c.width
    ensures |crc| == c.width && crc == Fold(c, seed, data, |data|)
  {
    crc := seed;
    for i := 0 to |data|
      invariant |crc| == c.width && crc == Fold(c, seed, data, i)
    {
      TableStep(c, t, crc, data[i]);
      var x := Xor(crc, Head(c, ByteBits(c, data[i])));
      crc := Xor(t[ByteValue(c, x[..8])], Shift(crc, 8));
    }
  }

  // ----- merging

  function ZeroBytes(n: nat): (z: seq<Byte>)
    ensures |z| == n && forall i :: 0 <= i < n ==> z[i] == 0
  {
    seq(n, i => 0)
  }

  lemma {:induction false} ZeroByteBits(n: nat)
    ensures LowFirst(0, n) == Zeros(n)
  {
    if n > 0 {
      ZeroByteBits(n - 1);
      assert [false] + Zeros(n - 1) == Zeros(n);
    }
  }

  /** A byte changes a sum as it changes the second summand and as a zero byte changes the first. */
  lemma UpdateLinear(c: Crc, x: Bits, y: Bits, byte: nat)
    requires CrcOk(c) && |x| == |y| == c.width
    ensures Update(c, Xor(x, y), byte) == Xor(Update(c, x, 0), Update(c, y, byte))
  {
    var b := Head(c, ByteBits(c, byte));
    ZeroByteBits(8);
    assert ByteBits(c, 0) == Zeros(8);
    assert Head(c, ByteBits(c, 0)) == Zeros(c.width);
    assert Xor(x, Zeros(c.width)) == x;
    assert Xor(Xor(x, y), b) == Xor(x, Xor(y, b));
    StepsAdditive(c.poly, x, Xor(y, b), 8);
  }

  lemma {:induction false} FoldLinear(c: Crc, x: Bits, y: Bits, data: seq<Byte>, n: nat)
    requires CrcOk(c) && |x| == |y| == c.width && n <= |data|
    ensures Fold(c, Xor(x, y), data, n) == Xor(Fold(c, x, ZeroBytes(|data|), n), Fold(c, y, data, n))
  {
    if n > 0 {
      FoldLinear(c, x, y, data, n - 1);
      UpdateLinear(c, Fold(c, x, ZeroBytes(|data|), n - 1), Fold(c, y, data, n - 1), data[n - 1]);
    }
  }

  lemma {:induction false} FoldSame(c: Crc, crc: Bits, a: seq<Byte>, b: seq<Byte>, n: nat)
    requires CrcOk(c) && |crc| == c.width && n <= |a| && n <= |b| && forall i :: 0 <= i < n ==> a[i] == b[i]
    ensures Fold(c, crc, a, n) == Fold(c, crc, b, n)
  {
    if n > 0 {
      FoldSame(c, crc, a, b, n - 1);
    }
  }

  lemma {:induction false} FoldConcat(c: Crc, crc: Bits, a: seq<Byte>, b: seq<Byte>, n: nat)
    requires CrcOk(c) && |crc| == c.width && n <= |b|
    ensures Fold(c, crc, a + b, |a| + n) == Fold(c, Fold(c, crc, a, |a|), b, n)
  {
    if n > 0 {
      FoldConcat(c, crc, a, b, n - 1);
      assert (a + b)[|a| + n - 1] == b[n - 1];
    } else {
      FoldSame(c, crc, a + b, a, |a|);
    }
  }

  lemma ZeroPortions(c: Crc, crc: Bits, m: nat, n: nat)
    requires CrcOk(c) && |crc| == c.width
    ensures Fold(c, Fold(c, crc, ZeroBytes(m), m), ZeroBytes(n), n) == Fold(c, crc, ZeroBytes(m + n), m + n)
  {
    assert ZeroBytes(m) + ZeroBytes(n) == ZeroBytes(m + n);
    FoldConcat(c, crc, ZeroBytes(m), ZeroBytes(n), n);
  }

  /** The mergeable checksum types. */
  datatype Kind = NoChecksum | Summed(crc: Crc)

  predicate KindOk(k: Kind) { k.Summed? ==> CrcOk(k.crc) }

  function Width(k: Kind): nat { if k.Summed? then k.crc.width else 64 }

  function Checksum(k: Kind, data: seq<Byte>): (x: Bits)
    requires KindOk(k)
    ensures |x| == Width(k)
  {
    match k {
      case NoChecksum => Zeros(64)
      case Summed(c) => Sum(c, data)
    }
  }

  /** Run a register over zero bytes, at most 4096 at a time. */
  method FeedZeroes(c: Crc, t: seq<Bits>, a: Bits, len: nat) returns (seed: Bits)
    requires CrcOk(c) && TableOk(c, t) && |a| == c.width
    ensures |seed| == c.width && seed == Fold(c, a, ZeroBytes(len), len)
  {
    seed := a;
    var left: nat := len;
    ghost var done: nat := 0;
    while left != 0
      invariant done + left == len && Fed(c, a, seed, done)
      decreases left
    {
      var n: nat := if left < 4096 then left else 4096;
      FedMore(c, a, seed, done, n);
      seed := Compute(c, t, seed, ZeroBytes(n));
      left, done := left - n, done + n;
    }
  }

  /** The register has been run over `n` zero bytes. */
  ghost predicate Fed(c: Crc, a: Bits, seed: Bits, n: nat) {
    CrcOk(c) && |a| == c.width == |seed| && seed == Fold(c, a, ZeroBytes(n), n)
  }

  lemma FedMore(c: Crc, a: Bits, seed: Bits, m: nat, n: nat)
    requires Fed(c, a, seed, m)
    ensures Fed(c, a, Fold(c, seed, ZeroBytes(n), n), m + n)
  {
    ZeroPortions(c, a, m, n);
  }

  /** Merging the checksums of two strings gives that of the one followed by the other. */
  method Merge(k: Kind, t: seq<Bits>, a: Bits, b: Bits, len: nat, ghost sa: seq<Byte>, ghost sb: seq<Byte>)
      returns (m: Bits)
    requires KindOk(k) && (k.Summed? ==> TableOk(k.crc, t))
    requires a == Checksum(k, sa) && b == Checksum(k, sb) && len == |sb|
    ensures m == Checksum(k, sa + sb)
  {
    match k {
      case NoChecksum =>
        m := Xor(if len != 0 then Zeros(64) else a, b);
      case Summed(c) =>
        var seed := FeedZeroes(c, t, a, len);
        MergeIsConcat(c, sa, sb);
        m := Xor(seed, b);
    }
  }

  const TypeNone: nat := 0
  const TypeCrc32c: nat := 5
  const TypeCrc64: nat := 6

  predicate Mergeable(kind: nat) { kind == TypeNone || kind == TypeCrc32c || kind == TypeCrc64 }

  /** What a mergeable checksum type of the on-disk format computes. */
  function KindOf(kind: nat): (k: Kind)
    requires Mergeable(kind)
    ensures KindOk(k)
  {
    if kind == TypeNone then NoChecksum
    else if kind == TypeCrc32c then Summed(Crc32c())
    else Summed(Crc64())
  }

  /** Merging by type number, for each of the three mergeable types, from the polynomials' own tables. */
  method MergeByType(kind: nat, a: Bits, b: Bits, len: nat, ghost sa: seq<Byte>, ghost sb: seq<Byte>) returns (m: Bits)
    requires Mergeable(kind) && a == Checksum(KindOf(kind), sa) && b == Checksum(KindOf(kind), sb) && len == |sb|
    ensures m == Checksum(KindOf(kind), sa + sb)
  {
    var k := KindOf(kind);
    var t := [];
    if k.Summed? {
      t := BuildTable(k.crc);
    }
    m := Merge(k, t, a, b, len, sa, sb);
  }

  lemma MergeIsConcat(c: Crc, sa: seq<Byte>, sb: seq<Byte>)
    requires CrcOk(c)
    ensures Xor(Fold(c, Sum(c, sa), ZeroBytes(|sb|), |sb|), Sum(c, sb)) == Sum(c, sa + sb)
  {
    MergeSum(c, Sum(c, sa), sb);
    FoldConcat(c, Zeros(c.width), sa, sb, |sb|);
  }

  function Sum(c: Crc, data: seq<Byte>): (x: Bits)
    requires CrcOk(c)
    ensures |x| == c.width
  {
    Fold(c, Zeros(c.width), data, |data|)
  }

  lemma MergeSum(c: Crc, a: Bits, data: seq<Byte>)
    requires CrcOk(c) && |a| == c.width
    ensures Xor(Fold(c, a, ZeroBytes(|data|), |data|), Sum(c, data)) == Fold(c, a, data, |data|)
  {
    XorZeros(a, c.width);
    FoldLinear(c, a, Zeros(c.width), data, |data|);
  }

  lemma XorZeros(a: Bits, n: nat)
    requires |a| == n
    ensures Xor(a, Zeros(n)) == a
  {
  }
}
