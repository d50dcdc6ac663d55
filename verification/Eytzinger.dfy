/**
 Eytzinger (breadth-first) numbering of a complete binary tree with `size` nodes, root 1.
 The shift-and-mask formulas are shown to be the in-order numbering: mutually inverse
 bijections whose next/prev walk it.  Shifts are multiplications and divisions by powers
 of two; setting or clearing a bit that is known to be clear or set is addition or
 subtraction.
 */
module Eytzinger {
  import opened Arith

  // ----- bit operations

  /** 31 - leading_zeros() */
  function Ilog2(n: nat): nat {
    if n < 2 then 0 else 1 + Ilog2(n / 2)
  }

  function TrailingZeros(n: nat): nat
    requires n > 0
  {
    if n % 2 == 1 then 0 else 1 + TrailingZeros(n / 2)
  }

  function TrailingOnes(n: nat): nat {
    if n % 2 == 0 then 0 else 1 + TrailingOnes(n / 2)
  }

  function RoundDownPow2(v: nat): nat {
    if v == 0 then 0 else Pow2(Ilog2(v))
  }

  // ----- the source's formulas

  function First(size: nat): nat { RoundDownPow2(size) }

  function Last(size: nat): int { RoundDownPow2(size + 1) - 1 }

  function NextIdx(i: nat, size: nat): nat
    requires 1 <= i <= size
  {
    if 2 * i + 1 <= size then
      Log2Monotone(2 * i + 1, size);
      var leaf := Shl(2 * i + 1, Ilog2(size) - Ilog2(2 * i + 1));
      if leaf > size then leaf / 2 else leaf
    else Shr(i, TrailingOnes(i) + 1)
  }

  function PrevIdx(i: nat, size: nat): nat
    requires 1 <= i <= size
  {
    if 2 * i <= size then
      Log2Monotone(2 * i, size);
      Log2Step(i);
      ShlOrder(0, 2 * i + 1, Ilog2(size) - Ilog2(2 * i + 1));
      var leaf := Shl(2 * i + 1, Ilog2(size) - Ilog2(2 * i + 1)) - 1;
      if leaf > size then leaf / 2 else leaf
    else Shr(i, TrailingZeros(i) + 1)
  }

  function Extra(size: nat): (e: nat)
    ensures size > 0 ==> e >= 2
  {
    if size != 0 then Log2Bounds(size); (size + 1 - RoundDownPow2(size)) * 2 else 0
  }

  function ToInorder(i: nat, size: nat): int
    requires 1 <= i <= size
  {
    Log2Monotone(i, size);
    Log2Bounds(i);
    var b := Ilog2(i);
    var r := Shl((i - Pow2(b)) * 2 + 1, Ilog2(size) - b);
    if r > Extra(size) then r - (r - Extra(size)) / 2 else r
  }

  function FromInorder(i: nat, size: nat): nat
    requires 1 <= i <= size
  {
    var r := if i > Extra(size) then i + (i - Extra(size)) else i;
    ExpandInRange(i, size);
    TrailingZerosBound(r, Ilog2(size));
    Shr(r, TrailingZeros(r) + 1) + Pow2(Ilog2(size) - TrailingZeros(r))
  }

  // ----- powers of two

  lemma {:induction false} Log2Bounds(n: nat)
    requires n > 0
    ensures Pow2(Ilog2(n)) <= n < 2 * Pow2(Ilog2(n))
  {
    if n >= 2 {
      Log2Bounds(n / 2);
    }
  }

  lemma {:induction false} Log2Unique(n: nat, b: nat)
    requires Pow2(b) <= n < 2 * Pow2(b)
    ensures Ilog2(n) == b
  {
    Log2Bounds(n);
    if Ilog2(n) < b {
      Pow2Monotone(Ilog2(n), b);
    } else if b < Ilog2(n) {
      Pow2Monotone(b, Ilog2(n));
    }
  }

  lemma {:induction false} Log2Monotone(a: nat, b: nat)
    requires a <= b
    ensures Ilog2(a) <= Ilog2(b)
  {
    if a >= 2 {
      Log2Monotone(a / 2, b / 2);
    }
  }

  lemma Log2Step(m: nat)
    requires m >= 1
    ensures Ilog2(2 * m) == Ilog2(m) + 1 && Ilog2(2 * m + 1) == Ilog2(m) + 1
  {
    assert (2 * m) / 2 == m && (2 * m + 1) / 2 == m;
  }

  lemma {:induction false} TrailingZerosOf(x: nat, k: nat)
    ensures Shl(2 * x + 1, k) > 0 && TrailingZeros(Shl(2 * x + 1, k)) == k
  {
    if k > 0 {
      TrailingZerosOf(x, k - 1);
      assert (2 * Shl(2 * x + 1, k - 1)) / 2 == Shl(2 * x + 1, k - 1);
    }
  }

  lemma {:induction false} TrailingZerosBound(r: nat, d: nat)
    requires 0 < r < Pow2(d + 1)
    ensures TrailingZeros(r) <= d
  {
    if r % 2 == 0 {
      if d == 0 {
        assert Pow2(1) == 2 * Pow2(0);
      }
      TrailingZerosBound(r / 2, d - 1);
    }
  }

  /** Undoing the compression stays inside the full tree. */
  lemma ExpandInRange(i: nat, size: nat)
    requires 1 <= i <= size
    ensures var r := if i > Extra(size) then i + (i - Extra(size)) else i;
            1 <= r < Pow2(Ilog2(size) + 1) && (Odd(r) ==> r < Extra(size))
  {
    Log2Bounds(size);
    assert Pow2(Ilog2(size) + 1) == 2 * Pow2(Ilog2(size));
  }

  // ----- ranks in the full tree of the same depth

  /** The in-order rank of node `i` in the full tree of depth `d`. */
  function FullRank(i: nat, d: nat): nat
    requires i >= 1 && Ilog2(i) <= d
  {
    Log2Bounds(i);
    Shl((i - Pow2(Ilog2(i))) * 2 + 1, d - Ilog2(i))
  }

  /** The number of ranks at or below `r` that a tree with `extra / 2` leaves in its last row has. */
  function Compress(r: int, extra: int): int {
    if r > extra then r - (r - extra) / 2 else r
  }

  lemma FullRankChildren(m: nat, d: nat)
    requires m >= 1 && Ilog2(m) < d
    ensures Ilog2(2 * m) <= d && Ilog2(2 * m + 1) <= d
    ensures FullRank(2 * m, d) == FullRank(m, d) - Pow2(d - Ilog2(m) - 1)
    ensures FullRank(2 * m + 1, d) == FullRank(m, d) + Pow2(d - Ilog2(m) - 1)
  {
    var b := Ilog2(m);
    Log2Step(m);
    Log2Bounds(m);
    var x, k := m - Pow2(b), d - b - 1;
    ChildShifts(x, k);
    RankIs(m, d, b, x);
    RankIs(2 * m, d, b + 1, 2 * x);
    RankIs(2 * m + 1, d, b + 1, 2 * x + 1);
  }

  /** The rank of the node `x` places into row `b`. */
  lemma RankIs(i: nat, d: nat, b: nat, x: nat)
    requires i >= 1 && Ilog2(i) == b <= d && i == Pow2(b) + x
    ensures FullRank(i, d) == Shl(2 * x + 1, d - b)
  {
  }

  lemma ChildShifts(x: nat, k: nat)
    ensures Shl(4 * x + 1, k) == Shl(2 * x + 1, k + 1) - Pow2(k)
    ensures Shl(4 * x + 3, k) == Shl(2 * x + 1, k + 1) + Pow2(k)
  {
    ShlDouble(2 * x + 1, k);
    ShlOrder(0, 1, k);
    ShlAdd(4 * x + 1, 1, k);
    ShlAdd(4 * x + 2, 1, k);
  }

  lemma {:induction false} ShlDouble(a: nat, k: nat)
    ensures Shl(2 * a, k) == Shl(a, k + 1)
  {
    if k > 0 {
      ShlDouble(a, k - 1);
    }
  }

  // ----- the ancestors a node lies between

  /** The nearest ancestor smaller than `n` in order, 0 if none. */
  function Pred(n: nat): (p: nat)
    ensures p <= n && (n > 0 ==> p < n)
  {
    if n == 0 then 0 else if n % 2 == 0 then Pred(n / 2) else n / 2
  }

  /** The nearest ancestor larger than `n` in order, 0 if none. */
  function Succ(n: nat): (p: nat)
    ensures p <= n && (n > 0 ==> p < n)
  {
    if n == 0 then 0 else if n % 2 == 1 then Succ(n / 2) else n / 2
  }

  lemma {:induction false} PredIsShift(n: nat)
    requires n >= 1
    ensures Shr(n, TrailingZeros(n) + 1) == Pred(n)
  {
    if n % 2 == 0 {
      PredIsShift(n / 2);
    } else {
      assert Shr(n, 1) == Shr(n / 2, 0);
    }
  }

  lemma {:induction false} SuccIsShift(n: nat)
    ensures Shr(n, TrailingOnes(n) + 1) == Succ(n)
  {
    if n % 2 == 1 {
      SuccIsShift(n / 2);
    } else {
      assert Shr(n, 1) == Shr(n / 2, 0);
    }
  }

  lemma {:induction false} AncestorDepth(n: nat)
    requires n >= 1
    ensures Pred(n) < n && Succ(n) < n
    ensures Pred(n) != 0 ==> Ilog2(Pred(n)) < Ilog2(n)
    ensures Succ(n) != 0 ==> Ilog2(Succ(n)) < Ilog2(n)
  {
    if n >= 2 {
      AncestorDepth(n / 2);
    } else {
      assert Pred(1) == 0 && Succ(1) == 0;
    }
  }

  /** The rank of an ancestor, with 0 before and 2^(d+1) after the whole tree. */
  function PredRank(n: nat, d: nat): int
    requires n >= 1 && Ilog2(n) <= d
  {
    AncestorDepth(n);
    if Pred(n) == 0 then 0 else FullRank(Pred(n), d)
  }

  function SuccRank(n: nat, d: nat): int
    requires n >= 1 && Ilog2(n) <= d
  {
    AncestorDepth(n);
    if Succ(n) == 0 then Pow2(d + 1) else FullRank(Succ(n), d)
  }

  /** A node's ancestors on either side are exactly half its subtree's span away. */
  lemma {:induction false} AncestorRanks(n: nat, d: nat)
    requires n >= 1 && Ilog2(n) <= d
    ensures PredRank(n, d) == FullRank(n, d) - Pow2(d - Ilog2(n))
    ensures SuccRank(n, d) == FullRank(n, d) + Pow2(d - Ilog2(n))
  {
    AncestorDepth(n);
    if n == 1 {
      assert Pred(1) == 0 && Succ(1) == 0 && Ilog2(1) == 0;
      ShlOrder(0, 1, d);
      assert Pow2(0) == 1;
    } else {
      var m := n / 2;
      assert n == 2 * m || n == 2 * m + 1;
      Log2Step(m);
      AncestorDepth(m);
      AncestorRanks(m, d);
      FullRankChildren(m, d);
      assert Pow2(d - Ilog2(m)) == 2 * Pow2(d - Ilog2(n));
      AncestorOfChild(m, n);
    }
  }

  lemma AncestorOfChild(m: nat, n: nat)
    requires m >= 1 && (n == 2 * m || n == 2 * m + 1)
    ensures n == 2 * m ==> Pred(n) == Pred(m) && Succ(n) == m
    ensures n == 2 * m + 1 ==> Pred(n) == m && Succ(n) == Succ(m)
  {
    assert n / 2 == m;
  }

  // ----- which ranks a tree of this size has

  /** Ranks of existing nodes: every even one, and the odd ones (leaves of the last row) below extra. */
  predicate HasRank(r: int, size: nat)
    requires size >= 1
  {
    1 <= r < Pow2(Ilog2(size) + 1) && (Odd(r) ==> r < Extra(size))
  }

  predicate Odd(r: int) { r % 2 == 1 }

  lemma OddDouble(h: int)
    ensures !Odd(2 * h) && Odd(2 * h + 1)
  {
  }

  lemma FullRankBound(i: nat, d: nat)
    requires i >= 1 && Ilog2(i) <= d
    ensures 1 <= FullRank(i, d) < Pow2(d + 1)
  {
    var b := Ilog2(i);
    Log2Bounds(i);
    ShlOrder(2 * (i - Pow2(b)) + 1, Pow2(b + 1), d - b);
    ShlOrder(0, 2 * (i - Pow2(b)) + 1, d - b);
    ShlPow2(b + 1, d - b);
  }

  lemma FullRankParity(i: nat, d: nat)
    requires i >= 1 && Ilog2(i) <= d
    ensures Odd(FullRank(i, d)) <==> Ilog2(i) == d
    ensures Ilog2(i) == d ==> i >= Pow2(d) && FullRank(i, d) == 2 * (i - Pow2(d)) + 1
  {
    Log2Bounds(i);
    var x := i - Pow2(Ilog2(i));
    OddDouble(x);
    if Ilog2(i) < d {
      OddDouble(Shl(2 * x + 1, d - Ilog2(i) - 1));
    }
  }

  lemma NodeHasRank(i: nat, size: nat)
    requires 1 <= i <= size
    ensures Ilog2(i) <= Ilog2(size) && HasRank(FullRank(i, Ilog2(size)), size)
    ensures ToInorder(i, size) == Compress(FullRank(i, Ilog2(size)), Extra(size))
  {
    var d := Ilog2(size);
    Log2Monotone(i, size);
    Log2Bounds(i);
    FullRankBound(i, d);
    FullRankParity(i, d);
  }

  /** Splitting an odd multiple of a power of two. */
  lemma ShiftOutOdd(x: nat, t: nat)
    ensures Shr(Shl(2 * x + 1, t), t + 1) == x
  {
    ShrShl(2 * x + 1, 0, t);
    ShrShr(Shl(2 * x + 1, t), t, 1);
    assert Shr(2 * x + 1, 1) == Shr((2 * x + 1) / 2, 0);
  }

  lemma OddPartBound(x: nat, t: nat, d: nat)
    requires t <= d && Shl(2 * x + 1, t) < Pow2(d + 1)
    ensures x < Pow2(d - t)
  {
    if x >= Pow2(d - t) {
      assert Pow2(d - t + 1) == 2 * Pow2(d - t);
      ShlOrder(Pow2(d - t + 1), 2 * x + 1, t);
      ShlPow2(d - t + 1, t);
    }
  }

  /** A rank determines its node. */
  lemma RankNode(r: nat, d: nat) returns (i: nat)
    requires 1 <= r < Pow2(d + 1)
    ensures TrailingZeros(r) <= d
    ensures i == Shr(r, TrailingZeros(r) + 1) + Pow2(d - TrailingZeros(r))
    ensures i >= 1 && Ilog2(i) == d - TrailingZeros(r) && FullRank(i, d) == r
  {
    TrailingZerosBound(r, d);
    var t := TrailingZeros(r);
    var x := OddPart(r);
    ShiftOutOdd(x, t);
    OddPartBound(x, t, d);
    i := x + Pow2(d - t);
    Log2Unique(i, d - t);
  }

  lemma {:induction false} OddPart(r: nat) returns (x: nat)
    requires r >= 1
    ensures r == Shl(2 * x + 1, TrailingZeros(r))
  {
    if r % 2 == 1 {
      x := r / 2;
    } else {
      x := OddPart(r / 2);
    }
  }

  // ----- the maps are inverse bijections on 1..size

  lemma FromToInorder(i: nat, size: nat)
    requires 1 <= i <= size
    ensures 1 <= ToInorder(i, size) <= size && FromInorder(ToInorder(i, size), size) == i
  {
    var d := Ilog2(size);
    NodeHasRank(i, size);
    var r := FullRank(i, d);
    CompressRange(r, size);
    CompressExpand(r, size + 1 - Pow2(d));
    var k := RankNode(r, d);
    RankInjective(i, k, d);
  }

  lemma CompressRange(r: int, size: nat)
    requires size >= 1 && HasRank(r, size)
    ensures 1 <= Compress(r, Extra(size)) <= size && Extra(size) == 2 * (size + 1 - Pow2(Ilog2(size)))
  {
    Log2Bounds(size);
    assert Pow2(Ilog2(size) + 1) == 2 * Pow2(Ilog2(size));
  }

  lemma CompressExpand(r: int, h: int)
    requires Odd(r) ==> r < 2 * h
    ensures var c := Compress(r, 2 * h); (if c > 2 * h then c + (c - 2 * h) else c) == r
  {
  }

  lemma RankInjective(i: nat, k: nat, d: nat)
    requires i >= 1 && k >= 1 && Ilog2(i) <= d && Ilog2(k) <= d && FullRank(i, d) == FullRank(k, d)
    ensures i == k
  {
    RankDepth(i, d);
    RankDepth(k, d);
    if i < k {
      RankOrder(i, k, d);
    } else if k < i {
      RankOrder(k, i, d);
    }
  }

  lemma RankDepth(i: nat, d: nat)
    requires i >= 1 && Ilog2(i) <= d
    ensures FullRank(i, d) > 0 && TrailingZeros(FullRank(i, d)) == d - Ilog2(i)
  {
    Log2Bounds(i);
    TrailingZerosOf(i - Pow2(Ilog2(i)), d - Ilog2(i));
  }

  lemma RankOrder(i: nat, k: nat, d: nat)
    requires 1 <= i < k && Ilog2(i) == Ilog2(k) <= d
    ensures FullRank(i, d) < FullRank(k, d)
  {
    var b := Ilog2(i);
    Log2Bounds(i);
    RankIs(i, d, b, i - Pow2(b));
    RankIs(k, d, b, k - Pow2(b));
    ShlOrder(2 * (i - Pow2(b)) + 1, 2 * (k - Pow2(b)) + 1, d - b);
  }

  /** An existing rank belongs to an existing node. */
  lemma RankExists(r: nat, size: nat) returns (i: nat)
    requires size >= 1 && HasRank(r, size)
    ensures 1 <= i <= size && Ilog2(i) <= Ilog2(size) && FullRank(i, Ilog2(size)) == r
    ensures TrailingZeros(r) <= Ilog2(size)
    ensures i == Shr(r, TrailingZeros(r) + 1) + Pow2(Ilog2(size) - TrailingZeros(r))
  {
    var d := Ilog2(size);
    Log2Bounds(size);
    i := RankNode(r, d);
    FullRankParity(i, d);
    if Ilog2(i) < d {
      Log2Bounds(i);
      Pow2Monotone(Ilog2(i), d);
    }
  }

  lemma ToFromInorder(j: nat, size: nat)
    requires 1 <= j <= size
    ensures 1 <= FromInorder(j, size) <= size && ToInorder(FromInorder(j, size), size) == j
  {
    var r := if j > Extra(size) then j + (j - Extra(size)) else j;
    ExpandInRange(j, size);
    ExpandCompress(j, Extra(size));
    var i := RankExists(r, size);
    assert i == FromInorder(j, size);
    NodeHasRank(i, size);
  }

  lemma ExpandCompress(j: int, extra: int)
    ensures Compress(if j > extra then j + (j - extra) else j, extra) == j
  {
    assert (2 * (j - extra)) / 2 == j - extra;
  }

  // ----- neighbours

  /** Two ranks with no existing rank between them. */
  predicate Adjacent(r: int, r': int, extra: int) {
    (r' == r + 1 && r' <= extra) || (r' == r + 2 && !Odd(r) && r >= extra)
  }

  lemma AdjacentCompress(r: int, r': int, extra: int)
    requires Adjacent(r, r', extra)
    ensures Compress(r', extra) == Compress(r, extra) + 1
  {
  }

  /** Past the last rank lies in-order position size + 1. */
  lemma TopCompress(size: nat)
    requires size >= 1
    ensures Compress(Pow2(Ilog2(size) + 1), Extra(size)) == size + 1
  {
    Log2Bounds(size);
    assert Pow2(Ilog2(size) + 1) == 2 * Pow2(Ilog2(size));
  }

  /** A missing node's rank is an odd one from extra on. */
  lemma MissingRank(n: nat, size: nat)
    requires size >= 1 && n > size && Ilog2(n) == Ilog2(size)
    ensures Odd(FullRank(n, Ilog2(size))) && FullRank(n, Ilog2(size)) > Extra(size)
  {
    Log2Bounds(n);
    Log2Bounds(size);
    FullRankParity(n, Ilog2(size));
  }

  /** A node of the last row: its neighbours in rank are its ancestors. */
  lemma LeafAdjacent(m: nat, size: nat)
    requires 1 <= m <= size && Ilog2(m) == Ilog2(size)
    ensures var d := Ilog2(size);
            && Adjacent(FullRank(m, d), SuccRank(m, d), Extra(size))
            && Adjacent(PredRank(m, d), FullRank(m, d), Extra(size))
  {
    AncestorRanks(m, Ilog2(size));
    NodeHasRank(m, size);
    FullRankParity(m, Ilog2(size));
    assert Pow2(0) == 1;
  }

  // A node above the last row with a missing child.

  lemma StubRight(m: nat, size: nat)
    requires 1 <= m <= size < 2 * m + 1 && Ilog2(m) + 1 == Ilog2(size)
    ensures Adjacent(FullRank(m, Ilog2(size)), SuccRank(m, Ilog2(size)), Extra(size))
  {
    StubSpan(m, Ilog2(size));
    MissingChild(m, 2 * m + 1, size);
  }

  lemma StubLeft(m: nat, size: nat)
    requires 1 <= m <= size < 2 * m && Ilog2(m) + 1 == Ilog2(size)
    ensures Adjacent(PredRank(m, Ilog2(size)), FullRank(m, Ilog2(size)), Extra(size))
  {
    StubSpan(m, Ilog2(size));
    MissingChild(m, 2 * m, size);
  }

  lemma StubSpan(m: nat, d: nat)
    requires m >= 1 && Ilog2(m) + 1 == d
    ensures SuccRank(m, d) == FullRank(m, d) + 2 && PredRank(m, d) == FullRank(m, d) - 2
    ensures !Odd(FullRank(m, d)) && !Odd(FullRank(m, d) - 2)
  {
    AncestorRanks(m, d);
    FullRankParity(m, d);
    assert Pow2(d - Ilog2(m)) == 2;
  }

  /** The missing child's rank is next to its parent's, and not below extra. */
  lemma MissingChild(m: nat, n: nat, size: nat)
    requires 1 <= m <= size && Ilog2(m) + 1 == Ilog2(size) && (n == 2 * m || n == 2 * m + 1) && n > size
    ensures var r := FullRank(m, Ilog2(size));
            if n == 2 * m then r - 1 > Extra(size) else r + 1 > Extra(size)
  {
    Log2Step(m);
    MissingRank(n, size);
    FullRankChildren(m, Ilog2(size));
    assert Pow2(Ilog2(size) - Ilog2(m) - 1) == 1;
  }

  /** The gap a search falls into: below node `m` on the side of its missing child `n`. */
  lemma GapRanks(n: nat, size: nat)
    requires size >= 1 && n > size && 1 <= n / 2 <= size
    ensures var m, d := n / 2, Ilog2(size);
            && Ilog2(m) <= d
            && (n % 2 == 1 ==> Adjacent(FullRank(m, d), SuccRank(m, d), Extra(size)))
            && (n % 2 == 0 ==> Adjacent(PredRank(m, d), FullRank(m, d), Extra(size)))
  {
    var m := n / 2;
    Log2Monotone(m, size);
    Log2Step(m);
    Log2Monotone(size, n);
    if Ilog2(m) == Ilog2(size) {
      LeafAdjacent(m, size);
    } else if n % 2 == 1 {
      StubRight(m, size);
    } else {
      StubLeft(m, size);
    }
  }

  /** The in-order position of a search gap: the two ancestors around it are neighbours. */
  lemma GapInorder(n: nat, size: nat)
    requires size >= 1 && n > size && 1 <= n / 2 <= size
    ensures Pred(n) <= size && Succ(n) <= size
    ensures (if Succ(n) == 0 then size + 1 else ToInorder(Succ(n), size))
         == (if Pred(n) == 0 then 0 else ToInorder(Pred(n), size)) + 1
  {
    var m, d := n / 2, Ilog2(size);
    GapRanks(n, size);
    AncestorOfChild(m, n);
    AncestorDepth(m);
    NodeHasRank(m, size);
    TopCompress(size);
    if n % 2 == 1 {
      AdjacentCompress(FullRank(m, d), SuccRank(m, d), Extra(size));
      if Succ(m) != 0 {
        NodeHasRank(Succ(m), size);
      }
    } else {
      AdjacentCompress(PredRank(m, d), FullRank(m, d), Extra(size));
      if Pred(m) != 0 {
        NodeHasRank(Pred(m), size);
      }
    }
  }

  /** Ancestors enclose their descendants in order. */
  lemma AncestorInorder(i: nat, size: nat)
    requires 1 <= i <= size
    ensures Pred(i) != 0 ==> ToInorder(Pred(i), size) < ToInorder(i, size)
    ensures Succ(i) != 0 ==> ToInorder(i, size) < ToInorder(Succ(i), size)
  {
    var d := Ilog2(size);
    AncestorDepth(i);
    NodeHasRank(i, size);
    AncestorRanks(i, d);
    if Pred(i) != 0 {
      NodeHasRank(Pred(i), size);
      CompressMonotone(FullRank(Pred(i), d), FullRank(i, d), Extra(size));
    }
    if Succ(i) != 0 {
      NodeHasRank(Succ(i), size);
      CompressMonotone(FullRank(i, d), FullRank(Succ(i), d), Extra(size));
    }
  }

  lemma CompressMonotone(r: int, r': int, extra: int)
    requires r < r' && (Odd(r) ==> r < extra) && (Odd(r') ==> r' < extra)
    ensures Compress(r, extra) < Compress(r', extra)
  {
  }

  // ----- first, last, next and prev walk the in-order numbering

  /** Going left (right) `k` times keeps the ancestor on that side and lands `k` rows down. */
  lemma {:induction false} LeftmostBelow(c: nat, k: nat)
    requires c >= 1
    ensures Shl(c, k) >= 1 && Pred(Shl(c, k)) == Pred(c) && Ilog2(Shl(c, k)) == Ilog2(c) + k
    ensures k > 0 ==> Succ(Shl(c, k)) == Shl(c, k) / 2
  {
    if k > 0 {
      LeftmostBelow(c, k - 1);
      AncestorOfChild(Shl(c, k - 1), Shl(c, k));
      Log2Step(Shl(c, k - 1));
    }
  }

  lemma {:induction false} RightmostBelow(c: nat, k: nat)
    requires c >= 1
    ensures Shl(c + 1, k) > 1 && Succ(Shl(c + 1, k) - 1) == Succ(c) && Ilog2(Shl(c + 1, k) - 1) == Ilog2(c) + k
    ensures k > 0 ==> Pred(Shl(c + 1, k) - 1) == (Shl(c + 1, k) - 1) / 2
  {
    if k > 0 {
      RightmostBelow(c, k - 1);
      var m := Shl(c + 1, k - 1) - 1;
      AncestorOfChild(m, 2 * m + 1);
      Log2Step(m);
    }
  }

  /** A node of the last row's depth exceeds the size after one more step down, and its parent does not. */
  lemma RowBounds(n: nat, size: nat)
    requires size >= 1 && n >= 1 && Ilog2(n) == Ilog2(size)
    ensures 2 * n > size && n / 2 <= size
  {
    Log2Bounds(n);
    Log2Bounds(size);
  }

  /** The search gap right after (before) `i`, whose other neighbour is what the formulas compute. */
  lemma NextGap(i: nat, size: nat) returns (gap: nat)
    requires 1 <= i <= size
    ensures gap > size && 1 <= gap / 2 <= size
    ensures Pred(gap) == i && Succ(gap) == NextIdx(i, size)
  {
    var c := 2 * i + 1;
    AncestorOfChild(i, c);
    if c <= size {
      Log2Monotone(c, size);
      var k := Ilog2(size) - Ilog2(c);
      var leaf := Shl(c, k);
      LeftmostBelow(c, k);
      RowBounds(leaf, size);
      gap := if leaf > size then leaf else 2 * leaf;
      AncestorOfChild(leaf, 2 * leaf);
    } else {
      SuccIsShift(i);
      gap := c;
    }
  }

  lemma PrevLeaf(i: nat, size: nat) returns (leaf: nat)
    requires 1 <= i && 2 * i <= size
    ensures PrevIdx(i, size) == (if leaf > size then leaf / 2 else leaf)
    ensures leaf >= 1 && Ilog2(leaf) == Ilog2(size) && Succ(leaf) == i && (leaf > size ==> Pred(leaf) == leaf / 2)
  {
    Log2Monotone(2 * i, size);
    Log2Step(i);
    AncestorOfChild(i, 2 * i);
    var k := Ilog2(size) - Ilog2(2 * i);
    RightmostBelow(2 * i, k);
    leaf := Shl(2 * i + 1, k) - 1;
  }

  lemma PrevGap(i: nat, size: nat) returns (gap: nat)
    requires 1 <= i <= size
    ensures gap > size && 1 <= gap / 2 <= size
    ensures Succ(gap) == i && Pred(gap) == PrevIdx(i, size)
  {
    var c := 2 * i;
    AncestorOfChild(i, c);
    if c <= size {
      var leaf := PrevLeaf(i, size);
      RowBounds(leaf, size);
      gap := if leaf > size then leaf else 2 * leaf + 1;
      AncestorOfChild(leaf, 2 * leaf + 1);
    } else {
      PredIsShift(i);
      gap := c;
    }
  }

  lemma NextIdxSucceeds(i: nat, size: nat)
    requires 1 <= i <= size
    ensures NextIdx(i, size) <= size
    ensures NextIdx(i, size) == 0 <==> ToInorder(i, size) == size
    ensures NextIdx(i, size) != 0 ==> ToInorder(NextIdx(i, size), size) == ToInorder(i, size) + 1
  {
    var gap := NextGap(i, size);
    GapInorder(gap, size);
    if Succ(gap) != 0 {
      FromToInorder(Succ(gap), size);
    }
  }

  lemma PrevIdxPrecedes(i: nat, size: nat)
    requires 1 <= i <= size
    ensures PrevIdx(i, size) <= size
    ensures PrevIdx(i, size) == 0 <==> ToInorder(i, size) == 1
    ensures PrevIdx(i, size) != 0 ==> ToInorder(PrevIdx(i, size), size) == ToInorder(i, size) - 1
  {
    var gap := PrevGap(i, size);
    GapInorder(gap, size);
    if Pred(gap) != 0 {
      FromToInorder(Pred(gap), size);
    }
  }

  lemma FirstIsFirst(size: nat)
    requires size >= 1
    ensures 1 <= First(size) <= size && ToInorder(First(size), size) == 1
  {
    var f, d := First(size), Ilog2(size);
    Log2Bounds(size);
    ShlOrder(0, 1, d);
    LeftmostBelow(1, d);
    AncestorOfChild(f, 2 * f);
    GapInorder(2 * f, size);
  }

  lemma LastIsLast(size: nat)
    requires size >= 1
    ensures 1 <= Last(size) <= size && ToInorder(Last(size), size) == size
  {
    var l := LastNode(size);
    AncestorOfChild(l, 2 * l + 1);
    GapInorder(2 * l + 1, size);
  }

  lemma LastNode(size: nat) returns (l: nat)
    requires size >= 1
    ensures l == Last(size) && 1 <= l <= size < 2 * l + 1 && Succ(l) == 0
  {
    var d := Ilog2(size + 1);
    Log2Bounds(size + 1);
    Log2Monotone(2, size + 1);
    ShlPow2(1, d - 1);
    RightmostBelow(1, d - 1);
    assert Pow2(1) == 2;
    l := Pow2(d) - 1;
  }

  /** next and prev undo each other. */
  lemma PrevOfNext(i: nat, size: nat)
    requires 1 <= i <= size && NextIdx(i, size) != 0
    ensures NextIdx(i, size) <= size && PrevIdx(NextIdx(i, size), size) == i
  {
    var n := NextIdx(i, size);
    NextIdxSucceeds(i, size);
    PrevIdxPrecedes(n, size);
    FromToInorder(i, size);
    FromToInorder(PrevIdx(n, size), size);
  }

  /** With fewer than 2^w nodes every intermediate of the formulas fits in w + 1 bits. */
  lemma FitsWord(i: nat, size: nat, w: nat)
    requires 1 <= i <= size < Pow2(w)
    ensures 2 * i + 1 < Pow2(w + 1) && Extra(size) <= Pow2(w)
    ensures Ilog2(i) <= Ilog2(size) < w && FullRank(i, Ilog2(size)) < Pow2(w)
    ensures i > Extra(size) ==> i + (i - Extra(size)) < Pow2(w)
  {
    var d := Ilog2(size);
    DepthFits(size, w);
    NodeHasRank(i, size);
    ExpandInRange(i, size);
  }

  lemma DepthFits(size: nat, w: nat)
    requires 1 <= size < Pow2(w)
    ensures Ilog2(size) < w && Pow2(Ilog2(size) + 1) <= Pow2(w) && Extra(size) <= Pow2(Ilog2(size) + 1)
  {
    Log2Bounds(size);
    if Ilog2(size) >= w {
      Pow2Monotone(w, Ilog2(size));
    }
    Pow2Monotone(Ilog2(size) + 1, w);
  }

  /** So does the shift of next and prev down to the last row. */
  lemma LeafFitsWord(c: nat, size: nat, w: nat)
    requires 1 <= c <= size < Pow2(w)
    ensures Ilog2(c) <= Ilog2(size) && Shl(c, Ilog2(size) - Ilog2(c)) < Pow2(w)
  {
    var d := Ilog2(size);
    Log2Monotone(c, size);
    DepthFits(size, w);
    var leaf := Shl(c, d - Ilog2(c));
    LeftmostBelow(c, d - Ilog2(c));
    Log2Bounds(leaf);
    assert Pow2(d + 1) == 2 * Pow2(d);
  }
}
