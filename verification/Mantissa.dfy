/**
 Sixteen-bit floating-point stand-ins for packed keys: an exponent that says which bits of the
 key are kept and a mantissa of those bits.  Comparing mantissas must decide a comparison of
 keys, or be recognised as undecided.
 */
module Mantissa {
  import opened Arith
  import opened PackedWords
  import opened PackedKeys
  import opened KeyPacking

  const MantissaBits: nat := 16

  /** One more than the number of the highest bit in which the two differ, 0 if they are equal. */
  function HighDiff(x: nat, y: nat): nat {
    if x == y then 0 else 1 + HighDiff(x / 2, y / 2)
  }

  lemma {:induction false} HighDiffShift(x: nat, y: nat, k: nat)
    requires k >= HighDiff(x, y)
    ensures Shr(x, k) == Shr(y, k)
  {
    if x != y {
      HighDiffShift(x / 2, y / 2, k - 1);
    }
  }

  /** Equal high parts drop out. */
  lemma {:induction false} HighDiffOfLow(c: nat, x: nat, y: nat, k: nat)
    requires x < Pow2(k) && y < Pow2(k)
    ensures HighDiff(Shl(c, k) + x, Shl(c, k) + y) == HighDiff(x, y) <= k
  {
    if x != y {
      assert (Shl(c, k) + x) / 2 == Shl(c, k - 1) + x / 2;
      assert (Shl(c, k) + y) / 2 == Shl(c, k - 1) + y / 2;
      HighDiffOfLow(c, x / 2, y / 2, k - 1);
    }
  }

  /** Different high parts decide. */
  lemma {:induction false} HighDiffOfHigh(a: nat, b: nat, x: nat, y: nat, k: nat)
    requires a != b && x < Pow2(k) && y < Pow2(k)
    ensures HighDiff(Shl(a, k) + x, Shl(b, k) + y) == HighDiff(a, b) + k
  {
    ShlLex(a, x, b, y, k);
    if k > 0 {
      assert (Shl(a, k) + x) / 2 == Shl(a, k - 1) + x / 2;
      assert (Shl(b, k) + y) / 2 == Shl(b, k - 1) + y / 2;
      HighDiffOfHigh(a, b, x / 2, y / 2, k - 1);
    }
  }

  /** The number of the highest bit in which two prefixes differ, found word by word from the top. */
  method GreatestDifferingBit(l: seq<Word>, r: seq<Word>, keyBits: nat) returns (bit: nat)
    requires |l| == |r| && keyBits <= 64 * |l|
    ensures var d := HighDiff(Prefix(l, keyBits), Prefix(r, keyBits)); bit == if d == 0 then 0 else d - 1
  {
    var nr: nat, p: nat := keyBits, |l|;
    PrefixZero(l);
    PrefixZero(r);
    while nr != 0
      invariant nr <= keyBits && Prefix(l, keyBits - nr) == Prefix(r, keyBits - nr)
      invariant nr != 0 ==> 0 < p <= |l| && nr + 64 * (|l| - p) == keyBits
      decreases nr
    {
      var take := if nr < 64 then nr else 64;
      var lv, rv := Shr(l[p - 1], 64 - take), Shr(r[p - 1], 64 - take);
      WordStep(l, r, p - 1, keyBits - nr, take);
      nr := nr - take;
      if lv != rv {
        WordsDiffer(l, r, keyBits - nr, nr);
        return HighDiff(lv, rv) - 1 + nr;
      }
      p := p - 1;
    }
    bit := 0;
  }

  lemma WordStep(l: seq<Word>, r: seq<Word>, p: nat, s: nat, b: nat)
    requires |l| == |r| && p < |l| && s == 64 * (|l| - p) - 64 && b <= 64 && Prefix(l, s) == Prefix(r, s)
    ensures HighDiff(Prefix(l, s + b), Prefix(r, s + b)) == HighDiff(Shr(l[p], 64 - b), Shr(r[p], 64 - b))
  {
    WordPrefix(l, p, s, b);
    WordPrefix(r, p, s, b);
    HighDiffOfLow(Prefix(l, s), Shr(l[p], 64 - b), Shr(r[p], 64 - b), b);
  }

  lemma WordsDiffer(l: seq<Word>, r: seq<Word>, s: nat, k: nat)
    requires |l| == |r| && s + k <= 64 * |l| && Prefix(l, s) != Prefix(r, s)
    ensures HighDiff(Prefix(l, s + k), Prefix(r, s + k)) == HighDiff(Prefix(l, s), Prefix(r, s)) + k
  {
    PrefixSplits(l, s, k);
    PrefixSplits(r, s, k);
    HighDiffOfHigh(Prefix(l, s), Prefix(r, s), BitsAt(l, s, k), BitsAt(r, s, k), k);
  }

  // ----- mantissas of numbers

  /** The 16 bits of `v` from bit `shift` on. */
  function Mant(v: nat, shift: nat): nat { Low(Shr(v, shift), MantissaBits) }

  /** Setting the low `d` bits. */
  function SetLow(m: nat, d: nat): nat { Shl(Shr(m, d), d) + (Pow2(d) - 1) }

  /** The stored mantissa: bits below the key's own (there are -e of them if e < 0) are set. */
  function Stored(v: nat, start: nat, e: int): nat
    requires start + e >= 0
  {
    if e < 0 then SetLow(Mant(v, start + e), -e) else Mant(v, start + e)
  }

  /** Numbers that agree above bit h = e + 15 compare like their 16 bits below it. */
  lemma SameTop(x: nat, y: nat)
    requires Shr(x, MantissaBits) == Shr(y, MantissaBits)
    ensures Low(x, MantissaBits) < Low(y, MantissaBits) <==> x < y
  {
    LowSplit(x, MantissaBits);
    LowSplit(y, MantissaBits);
    ShlLex(Shr(x, MantissaBits), Low(x, MantissaBits), Shr(y, MantissaBits), Low(y, MantissaBits), MantissaBits);
  }

  /** With e >= 0: bits may be dropped, and equal mantissas then decide nothing. */
  lemma CompareDropped(vm: nat, vs: nat, start: nat, e: nat)
    requires Shr(vm, start + e + MantissaBits) == Shr(vs, start + e + MantissaBits)
    ensures var l, r, pm, ps := Mant(vm, start + e), Mant(vs, start + e), Shr(vm, start), Shr(vs, start);
            (l < r ==> pm < ps) && (l > r ==> pm > ps) && (e == 0 && l == r ==> pm == ps)
  {
    var x, y, pm, ps := Shr(vm, start + e), Shr(vs, start + e), Shr(vm, start), Shr(vs, start);
    ShrShr(vm, start, e);
    ShrShr(vs, start, e);
    ShrShr(vm, start + e, MantissaBits);
    ShrShr(vs, start + e, MantissaBits);
    SameTop(x, y);
    SameTop(y, x);
    if pm <= ps {
      ShrMonotone(pm, ps, e);
    }
    if ps <= pm {
      ShrMonotone(ps, pm, e);
    }
  }

  /** With d = -e > 0: the d bits below the key are junk on one side and all ones on the other. */
  lemma ComparePadded(vm: nat, vs: nat, start: nat, d: nat)
    requires d <= start && d <= MantissaBits && Shr(vm, start - d + MantissaBits) == Shr(vs, start - d + MantissaBits)
    ensures SetLow(Mant(vm, start - d), d) < Mant(vs, start - d) <==> Shr(vm, start) < Shr(vs, start)
  {
    var k := start - d;
    var x, y := Shr(vm, k), Shr(vs, k);
    ShrShr(vm, k, d);
    ShrShr(vs, k, d);
    ShrShr(vm, k, MantissaBits);
    ShrShr(vs, k, MantissaBits);
    SetLowIsMant(x, d);
    var x' := Shl(Shr(x, d), d) + (Pow2(d) - 1);
    SameTop(x', y);
    LowSplit(y, d);
    ShlLex(Shr(x, d), Pow2(d) - 1, Shr(y, d), Low(y, d), d);
  }

  /** Setting low bits of the mantissa is taking the mantissa with low bits set. */
  lemma SetLowIsMant(x: nat, d: nat)
    requires d <= MantissaBits
    ensures var x' := Shl(Shr(x, d), d) + (Pow2(d) - 1);
            SetLow(Low(x, MantissaBits), d) == Low(x', MantissaBits) && Shr(x', MantissaBits) == Shr(x, MantissaBits)
  {
    var m := MantissaBits;
    var x' := Shl(Shr(x, d), d) + (Pow2(d) - 1);
    SplitLow(x, m, m - d);
    SplitLow(x', m, m - d);
    ShrShl(Shr(x, d), Pow2(d) - 1, d);
    LowOf(x', Shr(x, d), Pow2(d) - 1, d);
    LowSplit(x, d);
    LowOf(Low(x, m), Low(Shr(x, d), m - d), Low(x, d), d);
    ShrShr(x, d, m - d);
    ShrShr(x', d, m - d);
  }

  /** What a comparison of mantissas says about the keys. */
  lemma CompareMantissas(vm: nat, vs: nat, start: nat, e: int)
    requires start + e >= 0 && e >= -15 && Shr(vm, start + e + MantissaBits) == Shr(vs, start + e + MantissaBits)
    ensures var l, r := Stored(vm, start, e), Mant(vs, start + e);
            && (l < r ==> Shr(vm, start) < Shr(vs, start))
            && ((l > r || (l == r && e <= 0)) ==> Shr(vm, start) >= Shr(vs, start))
  {
    if e >= 0 {
      CompareDropped(vm, vs, start, e);
    } else {
      ComparePadded(vm, vs, start, -e);
    }
  }

  /** Numbers between two that agree from bit k on agree with them. */
  lemma Between(l: nat, m: nat, r: nat, k: nat)
    requires l <= m <= r && k >= HighDiff(l, r)
    ensures Shr(l, k) == Shr(m, k) == Shr(r, k)
  {
    HighDiffShift(l, r, k);
    ShrMonotone(l, m, k);
    ShrMonotone(m, r, k);
  }
}
