/** Division and powers of two, as far as bit shifts and masks need them. */
module Arith {

  lemma MulAtLeast(d: nat, k: int)
    requires d > 0 && k >= 1
    ensures d * k >= d
  {
  }

  lemma MulDistributes(d: int, a: int, b: int)
    ensures d * (a - b) == d * a - d * b
  {
  }

  /** Quotient and remainder are unique. */
  lemma DivUnique(v: int, d: nat, q: int, r: int)
    requires d > 0 && v == d * q + r && 0 <= r < d
    ensures v / d == q && v % d == r
  {
    var q', r' := v / d, v % d;
    assert v == d * q' + r';
    MulDistributes(d, q, q');
    MulDistributes(d, q', q);
    if q > q' {
      MulAtLeast(d, q - q');
    } else if q' > q {
      MulAtLeast(d, q' - q);
    }
  }

  function Pow2(n: nat): (p: nat)
    ensures p >= 1
  {
    if n == 0 then 1 else 2 * Pow2(n - 1)
  }

  lemma {:induction false} Pow2Add(a: nat, b: nat)
    ensures Pow2(a + b) == Pow2(a) * Pow2(b)
  {
    if a > 0 {
      Pow2Add(a - 1, b);
      assert Pow2(a + b) == 2 * Pow2(a - 1 + b);
      assert 2 * (Pow2(a - 1) * Pow2(b)) == (2 * Pow2(a - 1)) * Pow2(b);
    }
  }

  lemma {:induction false} Pow2Monotone(a: nat, b: nat)
    requires a <= b
    ensures Pow2(a) <= Pow2(b)
    ensures a < b ==> 2 * Pow2(a) <= Pow2(b)
  {
    if a < b {
      Pow2Monotone(a, b - 1);
    }
  }

  /** Shifting right twice. */
  lemma DivDiv(v: nat, a: nat, b: nat)
    requires a > 0 && b > 0
    ensures a * b > 0 && v / a / b == v / (a * b)
  {
    var q, r := v / a, v % a;
    var q', r' := q / b, q % b;
    assert v == a * q + r && q == b * q' + r';
    assert a * q == a * (b * q') + a * r';
    assert a * (b * q') == (a * b) * q';
    assert a * r' + r < a * b by {
      MulAtMost(a, r', b - 1);
      assert a * (b - 1) == a * b - a;
    }
    assert 0 <= a * r';
    DivUnique(v, a * b, q', a * r' + r);
  }

  lemma MulAtMost(a: nat, x: int, y: int)
    requires x <= y
    ensures a * x <= a * y
  {
  }

  lemma MulMonotone(a: nat, b: nat, x: nat, y: nat)
    requires a <= b && x <= y
    ensures a * x <= b * y
  {
  }

  /** Order of quotients. */
  lemma DivMonotone(x: nat, y: nat, d: nat)
    requires d > 0 && x <= y
    ensures x / d <= y / d
  {
    var q, q' := x / d, y / d;
    assert x == d * q + x % d && y == d * q' + y % d;
    if q > q' {
      MulDistributes(d, q, q');
      MulAtLeast(d, q - q');
    }
  }

  // ----- shifts, bit by bit

  function Shl(n: nat, k: nat): nat {
    if k == 0 then n else 2 * Shl(n, k - 1)
  }

  function Shr(n: nat, k: nat): nat {
    if k == 0 then n else Shr(n / 2, k - 1)
  }

  lemma {:induction false} ShlAdd(a: nat, b: nat, k: nat)
    ensures Shl(a + b, k) == Shl(a, k) + Shl(b, k)
  {
    if k > 0 {
      ShlAdd(a, b, k - 1);
    }
  }

  lemma {:induction false} ShlShl(a: nat, j: nat, k: nat)
    ensures Shl(Shl(a, j), k) == Shl(a, j + k)
  {
    if k > 0 {
      ShlShl(a, j, k - 1);
    }
  }

  lemma {:induction false} ShlPow2(b: nat, k: nat)
    ensures Shl(Pow2(b), k) == Pow2(b + k)
  {
    if k > 0 {
      ShlPow2(b, k - 1);
    }
  }

  /** Shl(1, k), and the order of shifted numbers. */
  lemma {:induction false} ShlOrder(a: nat, b: nat, k: nat)
    ensures Shl(1, k) == Pow2(k)
    ensures a <= b ==> Shl(a, k) <= Shl(b, k)
    ensures a < b ==> Shl(a, k) + Pow2(k) <= Shl(b, k)
  {
    if k > 0 {
      ShlOrder(a, b, k - 1);
    }
  }

  /** Shifting back out what was shifted in. */
  lemma {:induction false} ShrShl(a: nat, low: nat, k: nat)
    requires low < Pow2(k)
    ensures Shr(Shl(a, k) + low, k) == a
  {
    if k > 0 {
      assert (2 * Shl(a, k - 1) + low) / 2 == Shl(a, k - 1) + low / 2;
      ShrShl(a, low / 2, k - 1);
    }
  }

  lemma {:induction false} ShrShr(n: nat, j: nat, k: nat)
    ensures Shr(Shr(n, j), k) == Shr(n, j + k)
  {
    if j > 0 {
      ShrShr(n / 2, j - 1, k);
    }
  }

  lemma {:induction false} ShrMonotone(a: nat, b: nat, k: nat)
    requires a <= b
    ensures Shr(a, k) <= Shr(b, k)
  {
    if k > 0 {
      ShrMonotone(a / 2, b / 2, k - 1);
    }
  }

  lemma ShlBound(n: nat, b: nat, k: nat)
    requires n < Pow2(b)
    ensures Shl(n, k) < Pow2(b + k)
  {
    ShlOrder(n, Pow2(b), k);
    ShlPow2(b, k);
  }

  lemma ShlBoundBack(n: nat, b: nat, k: nat)
    requires Shl(n, k) < Pow2(b + k)
    ensures n < Pow2(b)
  {
    ShlOrder(Pow2(b), n, k);
    ShlPow2(b, k);
  }

  lemma ShrBound(n: nat, b: nat, k: nat)
    requires n < Pow2(b + k)
    ensures Shr(n, k) < Pow2(b)
  {
    LowSplit(n, k);
    ShlBoundBack(Shr(n, k), b, k);
  }

  /** High part first: numbers compare like the pairs (high part, low part). */
  lemma ShlLex(a: nat, x: nat, b: nat, y: nat, k: nat)
    requires x < Pow2(k) && y < Pow2(k)
    ensures Shl(a, k) + x < Shl(b, k) + y <==> a < b || (a == b && x < y)
    ensures Shl(a, k) + x == Shl(b, k) + y <==> a == b && x == y
  {
    ShlOrder(a, b, k);
    ShlOrder(b, a, k);
  }

  /** The low `k` bits. */
  function Low(n: nat, k: nat): nat {
    if k == 0 then 0 else 2 * Low(n / 2, k - 1) + n % 2
  }

  lemma {:induction false} LowSplit(n: nat, k: nat)
    ensures Low(n, k) < Pow2(k) && n == Shl(Shr(n, k), k) + Low(n, k)
  {
    if k > 0 {
      LowSplit(n / 2, k - 1);
    }
  }

  lemma LowOf(n: nat, a: nat, low: nat, k: nat)
    requires low < Pow2(k) && n == Shl(a, k) + low
    ensures Shr(n, k) == a && Low(n, k) == low
  {
    LowSplit(n, k);
    ShrShl(a, low, k);
  }

  /** The number of significant bits, 64 - leading_zeros(). */
  function BitLen(n: nat): nat {
    if n == 0 then 0 else 1 + BitLen(n / 2)
  }

  lemma {:induction false} BitLenBound(n: nat, b: nat)
    ensures BitLen(n) > b <==> n >= Pow2(b)
  {
    if n > 0 && b > 0 {
      BitLenBound(n / 2, b - 1);
    }
  }

  lemma {:induction false} ShrIsDiv(n: nat, k: nat)
    ensures Shr(n, k) == n / Pow2(k) && Low(n, k) == n % Pow2(k)
  {
    if k > 0 {
      ShrIsDiv(n / 2, k - 1);
      DivDiv(n, 2, Pow2(k - 1));
    }
    LowSplit(n, k);
    ShlIsMul(Shr(n, k), k);
    DivUnique(n, Pow2(k), Shr(n, k), Low(n, k));
  }

  lemma {:induction false} ShlIsMul(n: nat, k: nat)
    ensures Shl(n, k) == Pow2(k) * n
  {
    if k > 0 {
      ShlIsMul(n, k - 1);
    }
  }
}
