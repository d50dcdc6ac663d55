/**
 The bit string of a packed key.  Its words are little endian, fields are laid out from the
 most significant bit of the last word downwards, and the header occupies the lowest bits of
 word 0.  A key's first `s` bits, read as a number, are its Prefix; packing and unpacking are
 both described by prefixes.
 */
module PackedWords {
  import opened Arith

  type Word = x: nat | x < Pow2(64)

  /** The low 64 bits: what a wrapping operation keeps. */
  function Trunc(n: nat): Word {
    LowSplit(n, 64);
    Low(n, 64)
  }

  /** words[p..] as one number. */
  function Hi(words: seq<Word>, p: nat): nat
    requires p <= |words|
    decreases |words| - p
  {
    if p == |words| then 0 else Shl(Hi(words, p + 1), 64) + words[p]
  }

  /** The first `s` bits. */
  function Prefix(words: seq<Word>, s: nat): nat
    requires s <= 64 * |words|
  {
    Shr(Hi(words, 0), 64 * |words| - s)
  }

  /** The `b` bits after the first `s`. */
  function BitsAt(words: seq<Word>, s: nat, b: nat): (v: nat)
    requires s + b <= 64 * |words|
    ensures v < Pow2(b)
  {
    LowSplit(Prefix(words, s + b), b);
    Low(Prefix(words, s + b), b)
  }

  lemma PrefixSplits(words: seq<Word>, s: nat, b: nat)
    requires s + b <= 64 * |words|
    ensures Prefix(words, s + b) == Shl(Prefix(words, s), b) + BitsAt(words, s, b)
  {
    ShrShr(Hi(words, 0), 64 * |words| - s - b, b);
    LowSplit(Prefix(words, s + b), b);
  }

  lemma BitsAtUnique(words: seq<Word>, s: nat, b: nat, v: nat)
    requires s + b <= 64 * |words| && v < Pow2(b) && Prefix(words, s + b) == Shl(Prefix(words, s), b) + v
    ensures BitsAt(words, s, b) == v
  {
    LowOf(Prefix(words, s + b), Prefix(words, s), v, b);
  }

  /** Dropping whole words. */
  lemma {:induction false} HiShift(words: seq<Word>, p: nat)
    requires p <= |words|
    ensures Hi(words, p) == Shr(Hi(words, 0), 64 * p)
  {
    if p > 0 {
      HiShift(words, p - 1);
      ShrShl(Hi(words, p), words[p - 1], 64);
      ShrShr(Hi(words, 0), 64 * (p - 1), 64);
    }
  }

  lemma PrefixOfHi(words: seq<Word>, p: nat, bits: nat)
    requires p <= |words| && bits + 64 * p <= 64 * |words|
    ensures Prefix(words, 64 * (|words| - p) - bits) == Shr(Hi(words, p), bits)
  {
    HiShift(words, p);
    ShrShr(Hi(words, 0), 64 * p, bits);
  }

  lemma PrefixZero(words: seq<Word>)
    ensures Prefix(words, 0) == 0
  {
    PrefixOfHi(words, |words|, 0);
  }

  /** A shorter prefix decides a longer one. */
  lemma PrefixOrder(l: seq<Word>, r: seq<Word>, s: nat, s': nat)
    requires |l| == |r| && s <= s' <= 64 * |l|
    ensures Prefix(l, s) < Prefix(r, s) ==> Prefix(l, s') < Prefix(r, s')
    ensures Prefix(l, s') == Prefix(r, s') ==> Prefix(l, s) == Prefix(r, s)
  {
    var k := s' - s;
    ShrShr(Hi(l, 0), 64 * |l| - s', k);
    ShrShr(Hi(r, 0), 64 * |r| - s', k);
    if Prefix(l, s') >= Prefix(r, s') {
      ShrMonotone(Prefix(r, s'), Prefix(l, s'), k);
    }
  }

  /** Replacing words below `p` leaves the number above alone. */
  lemma {:induction false} HiSame(a: seq<Word>, b: seq<Word>, p: nat)
    requires |a| == |b| && p <= |a| && forall k :: p <= k < |a| ==> a[k] == b[k]
    ensures Hi(a, p) == Hi(b, p)
    decreases |a| - p
  {
    if p < |a| {
      HiSame(a, b, p + 1);
    }
  }

  /** Words of zeros below `p` only shift. */
  lemma {:induction false} HiZeros(words: seq<Word>, p: nat)
    requires p <= |words| && forall k :: 0 <= k < p ==> words[k] == 0
    ensures Hi(words, 0) == Shl(Hi(words, p), 64 * p)
  {
    if p > 0 {
      HiZeros(words, p - 1);
      ShlShl(Hi(words, p), 64, 64 * (p - 1));
      assert Hi(words, p - 1) == Shl(Hi(words, p), 64);
    }
  }

  /** Reassociating three parts of a number. */
  lemma Join(a: nat, x: nat, bits: nat, y: nat, rem: nat)
    requires x < Pow2(bits) && y < Pow2(rem)
    ensures Shl(x, rem) + y < Pow2(bits + rem)
    ensures Shl(Shl(a, bits) + x, rem) + y == Shl(a, bits + rem) + Shl(x, rem) + y
  {
    ShlAdd(Shl(a, bits), x, rem);
    ShlShl(a, bits, rem);
    ShlOrder(x, Pow2(bits), rem);
    ShlPow2(bits, rem);
  }

  // ----- writing a field

  /** Word `w` above which `h` was written; its lowest `bits` bits are still free. */
  predicate Filled(h: nat, w: Word, bits: nat, a: nat) {
    bits <= 64 && Shl(h, 64) + w == Shl(a, bits)
  }

  /** The free bits are clear, so or-ing into them is adding. */
  lemma FreeBitsClear(h: nat, w: Word, bits: nat, a: nat) returns (q: nat)
    requires Filled(h, w, bits, a)
    ensures w == Shl(q, bits) && q < Pow2(64 - bits) && a == Shl(h, 64 - bits) + q
  {
    var x := Shl(h, 64 - bits);
    ShlShl(h, 64 - bits, bits);
    ShlOrder(a, x, bits);
    q := a - x;
    ShlAdd(q, x, bits);
    assert w == Shl(q, bits);
    ShlBoundBack(q, 64 - bits, bits);
  }

  lemma FillFits(h: nat, w: Word, bits: nat, a: nat, x: nat)
    requires Filled(h, w, bits, a) && x < Pow2(bits)
    ensures w + x < Pow2(64)
  {
    var q := FreeBitsClear(h, w, bits, a);
    ShlOrder(q, Pow2(64 - bits), bits);
    ShlPow2(64 - bits, bits);
  }

  /** The field fits into the free bits of this word. */
  lemma PutHere(h: nat, w: Word, bits: nat, a: nat, v: nat, b: nat)
    requires Filled(h, w, bits, a) && v < Pow2(b) && b <= bits
    ensures Shl(v, bits - b) < Pow2(bits) && w + Shl(v, bits - b) < Pow2(64)
    ensures Filled(h, w + Shl(v, bits - b), bits - b, Shl(a, b) + v)
  {
    ShlBound(v, b, bits - b);
    FillFits(h, w, bits, a, Shl(v, bits - b));
    ShlShl(a, b, bits - b);
    ShlAdd(Shl(a, b), v, bits - b);
  }

  /** Shifting a number left so that only its low `k` bits stay in the word. */
  lemma TopBitsFallOut(v: nat, k: nat, bits: nat)
    requires k <= bits <= 64 && (bits == 64 || v < Pow2(k))
    ensures Trunc(Shl(v, bits - k)) == Shl(Low(v, k), bits - k)
  {
    if bits < 64 {
      NothingFallsOut(v, k, bits);
    } else {
      LowSplit(v, k);
      ShlBound(Low(v, k), k, 64 - k);
      ShiftedParts(v, k);
      LowOf(Shl(v, 64 - k), Shr(v, k), Shl(Low(v, k), 64 - k), 64);
    }
  }

  lemma NothingFallsOut(v: nat, k: nat, bits: nat)
    requires k <= bits <= 64 && v < Pow2(k)
    ensures Trunc(Shl(v, bits - k)) == Shl(Low(v, k), bits - k)
  {
    ShlBound(v, k, bits - k);
    Pow2Monotone(bits, 64);
    ShlZero(k);
    LowOf(v, 0, v, k);
    ShlZero(64);
    LowOf(Shl(v, bits - k), 0, Shl(v, bits - k), 64);
  }

  lemma ShiftedParts(v: nat, k: nat)
    requires k <= 64
    ensures Shl(v, 64 - k) == Shl(Shr(v, k), 64) + Shl(Low(v, k), 64 - k)
  {
    LowSplit(v, k);
    ShlAdd(Shl(Shr(v, k), k), Low(v, k), 64 - k);
    ShlShl(Shr(v, k), k, 64 - k);
  }

  // ----- reading a field

  /** `w` holds the last `bits` bits of `x`, left-aligned. */
  predicate Aligned(x: Word, w: Word, bits: nat) {
    bits <= 64 && w == Shl(Low(x, bits), 64 - bits)
  }

  /** The next `b` bits lie inside word `x`. */
  lemma TakeHere(x: Word, w: Word, bits: nat, b: nat)
    requires Aligned(x, w, bits) && b <= bits
    ensures Shr(w, 64 - b) == Low(Shr(x, bits - b), b)
    ensures Aligned(x, Trunc(Shl(w, b)), bits - b)
  {
    LowSplit(x, bits - b);
    var v, rest := Low(Shr(x, bits - b), b), Low(x, bits - b);
    SplitLow(x, bits, b);
    AlignedParts(v, rest, bits, b);
    LowOf(w, v, Shl(rest, 64 - bits), 64 - b);
    TopBitsFallOut(w, 64 - b, 64);
    ShlShl(rest, 64 - bits, b);
  }

  lemma AlignedParts(v: nat, rest: nat, bits: nat, b: nat)
    requires b <= bits <= 64 && rest < Pow2(bits - b)
    ensures Shl(Shl(v, bits - b) + rest, 64 - bits) == Shl(v, 64 - b) + Shl(rest, 64 - bits)
    ensures Shl(rest, 64 - bits) < Pow2(64 - b)
  {
    ShlAdd(Shl(v, bits - b), rest, 64 - bits);
    ShlShl(v, bits - b, 64 - bits);
    ShlBound(rest, bits - b, 64 - bits);
  }

  lemma SplitLow(x: nat, bits: nat, b: nat)
    requires b <= bits
    ensures Low(x, bits) == Shl(Low(Shr(x, bits - b), b), bits - b) + Low(x, bits - b)
  {
    var k := bits - b;
    var v, rest := Low(Shr(x, k), b), Low(x, k);
    LowSplit(x, k);
    LowSplit(Shr(x, k), b);
    ShrShr(x, k, b);
    Join(Shr(x, bits), v, b, rest, k);
    LowOf(x, Shr(x, bits), Shl(v, k) + rest, bits);
  }

  lemma WordStart(x: Word)
    ensures Aligned(x, x, 64)
  {
    ShlZero(64);
    LowOf(x, 0, x, 64);
  }

  lemma {:induction false} ShlZero(k: nat)
    ensures Shl(0, k) == 0
  {
    if k > 0 {
      ShlZero(k - 1);
    }
  }

  /** The high bits of a field that continues in the next word. */
  lemma TakeTop(x: Word, w: Word, bits: nat, b: nat)
    requires Aligned(x, w, bits) && bits <= b <= 64
    ensures Shr(w, 64 - b) == Shl(Low(x, bits), b - bits)
  {
    ShlShl(Low(x, bits), b - bits, 64 - b);
    ShrShl(Shl(Low(x, bits), b - bits), 0, 64 - b);
  }

  /** Bits inside word `p`. */
  lemma BitsHere(words: seq<Word>, p: nat, bits: nat, b: nat)
    requires p < |words| && b <= bits <= 64
    ensures BitsAt(words, 64 * (|words| - p) - bits, b) == Low(Shr(words[p], bits - b), b)
  {
    var k := bits - b;
    PrefixOfHi(words, p, k);
    PartOfHi(Hi(words, p + 1), words[p], k, b);
  }

  lemma PartOfHi(h: nat, x: Word, k: nat, b: nat)
    requires k + b <= 64
    ensures Low(Shr(Shl(h, 64) + x, k), b) == Low(Shr(x, k), b)
  {
    ShrOfHi(h, x, k);
    LowSplit(Shr(x, k), b);
    var y, v := Shr(Shr(x, k), b), Low(Shr(x, k), b);
    ShlShl(h, 64 - k - b, b);
    ShlAdd(Shl(h, 64 - k - b), y, b);
    LowOf(Shl(h, 64 - k) + Shr(x, k), Shl(h, 64 - k - b) + y, v, b);
  }

  lemma ShrOfHi(h: nat, x: Word, k: nat)
    requires k <= 64
    ensures Shr(Shl(h, 64) + x, k) == Shl(h, 64 - k) + Shr(x, k)
  {
    LowSplit(x, k);
    ShlShl(h, 64 - k, k);
    ShlAdd(Shl(h, 64 - k), Shr(x, k), k);
    ShrShl(Shl(h, 64 - k) + Shr(x, k), Low(x, k), k);
  }

  /** Bits across words `p` and `p - 1`. */
  lemma BitsAcross(words: seq<Word>, p: nat, bits: nat, b: nat)
    requires 1 <= p < |words| && bits <= b <= 64 && 1 <= bits <= 64
    ensures 64 * (|words| - p) - bits + b <= 64 * |words|
    ensures BitsAt(words, 64 * (|words| - p) - bits, b)
         == Shl(Low(words[p], bits), b - bits) + Shr(words[p - 1], 64 - (b - bits))
  {
    var s, rem := 64 * (|words| - p) - bits, b - bits;
    BitsHere(words, p, bits, bits);
    BitsHere(words, p - 1, 64, rem);
    JoinBits(words, s, bits, rem);
    ShrBound(words[p - 1], rem, 64 - rem);
    ShlZero(rem);
    LowOf(Shr(words[p - 1], 64 - rem), 0, Shr(words[p - 1], 64 - rem), rem);
  }

  lemma JoinUnique(words: seq<Word>, s: nat, bits: nat, rem: nat, x: nat, y: nat)
    requires s + bits + rem <= 64 * |words| && x < Pow2(bits) && y < Pow2(rem)
    requires Prefix(words, s + (bits + rem)) == Shl(Shl(Prefix(words, s), bits) + x, rem) + y
    ensures BitsAt(words, s, bits + rem) == Shl(x, rem) + y
  {
    Join(Prefix(words, s), x, bits, y, rem);
    BitsAtUnique(words, s, bits + rem, Shl(x, rem) + y);
  }

  lemma JoinBits(words: seq<Word>, s: nat, bits: nat, rem: nat)
    requires s + bits + rem <= 64 * |words|
    ensures BitsAt(words, s, bits + rem) == Shl(BitsAt(words, s, bits), rem) + BitsAt(words, s + bits, rem)
  {
    PrefixSplits(words, s, bits);
    PrefixSplits(words, s + bits, rem);
    JoinUnique(words, s, bits, rem, BitsAt(words, s, bits), BitsAt(words, s + bits, rem));
  }
}
