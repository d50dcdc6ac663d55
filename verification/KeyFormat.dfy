/** Computing a format from the ranges of the fields of a set of keys. */
module KeyFormat {
  import opened Arith
  import opened PackedWords
  import opened PackedKeys
  import opened KeyPacking

  /** The field of a key's size, whose range always starts at 0. */
  const SizeField: nat := 3

  function UnpackedMax(i: nat): Word { MaxOf(UnpackedBits(i)) }

  /** The largest number of `u` bits. */
  function MaxOf(u: nat): Word
    requires u <= 64
  {
    Pow2Monotone(u, 64);
    Pow2(u) - 1
  }

  const AllOnes: Word := MaxOf(64)

  lemma AllOnesIsMost(v: Word)
    ensures v <= AllOnes
  {
  }

  function Min(a: Word, b: Word): Word { if a < b then a else b }

  function Max(a: Word, b: Word): Word { if a > b then a else b }

  /** A field that holds every value from `lo` to `hi` and nothing an unpacked field of `u` bits cannot hold. */
  predicate FieldCovers(bits: nat, offset: Word, u: nat, lo: Word, hi: Word) {
    bits <= u && offset + Pow2(bits) <= Pow2(u) && offset <= lo && hi < offset + Pow2(bits)
  }

  /** The source's clamping of a field's bits and offset. */
  function FieldFormat(u: nat, bits: nat, offset: Word): (r: (nat, Word))
    requires u <= 64
    ensures r.0 <= u && r.1 + Pow2(r.0) <= Pow2(u)
  {
    if bits >= u then (u, 0)
    else
      Pow2Monotone(bits, u);
      (bits, Min(offset, MaxOf(u) - (Pow2(bits) - 1)))
  }

  /** Covered, in as few bits as possible. */
  predicate FieldFits(bits: nat, offset: Word, u: nat, lo: Word, hi: Word) {
    FieldCovers(bits, offset, u, lo, hi) && bits == Width(lo, hi)
  }

  lemma FirstFieldFormat(u: nat, lo: Word, hi: Word)
    requires u <= 64 && lo <= hi <= MaxOf(u)
    ensures var r := FieldFormat(u, BitLen(hi - lo), lo); FieldFits(r.0, r.1, u, lo, hi)
  {
    BitLenBound(hi - lo, BitLen(hi - lo));
    BitLenBound(hi - lo, u);
    ClampCovers(u, BitLen(hi - lo), lo, hi);
  }

  lemma ClampCovers(u: nat, bits: nat, lo: Word, hi: Word)
    requires bits <= u <= 64 && lo <= hi <= MaxOf(u) && hi - lo < Pow2(bits)
    ensures var r := FieldFormat(u, bits, lo); r.0 == bits && FieldCovers(bits, r.1, u, lo, hi)
  {
  }

  lemma WidenedFieldFormat(u: nat, bits: nat, offset: Word, extra: nat, lo: Word, hi: Word)
    requires u <= 64 && FieldCovers(bits, offset, u, lo, hi)
    ensures var r := FieldFormat(u, bits + extra, offset); FieldCovers(r.0, r.1, u, lo, hi)
  {
    Pow2Monotone(bits, bits + extra);
  }

  /** bits.div_ceil(8) * 8 - bits */
  function ToByte(bits: nat): (extra: nat)
    ensures extra < 8 && (bits + extra) % 8 == 0
  {
    (bits + 7) / 8 * 8 - bits
  }

  lemma PaddingFits(i: nat, bits: nat)
    requires bits <= UnpackedBits(i)
    ensures bits + ToByte(bits) <= UnpackedBits(i)
  {
  }

  function Total(bits: seq<nat>, n: nat): nat
    requires n <= |bits|
  {
    if n == 0 then 0 else Total(bits, n - 1) + bits[n - 1]
  }

  lemma {:induction false} TotalUpdate(bits: seq<nat>, i: nat, b: nat, n: nat)
    requires i < |bits| && n <= |bits|
    ensures Total(bits[i := b], n) == if i < n then Total(bits, n) - bits[i] + b else Total(bits, n)
  {
    if n > 0 {
      TotalUpdate(bits, i, b, n - 1);
    }
  }

  lemma {:induction false} TotalIsStart(f: Format, n: nat)
    requires n <= |f.bits|
    ensures Start(f, n) == Total(f.bits, n)
  {
    if n > 0 {
      TotalIsStart(f, n - 1);
    }
  }

  function UnpackedTotal(n: nat): nat {
    if n == 0 then 0 else UnpackedTotal(n - 1) + UnpackedBits(n - 1)
  }

  lemma UnpackedTotalIs288()
    ensures UnpackedTotal(Fields) == 288
  {
    assert UnpackedTotal(2) == 128;
    assert UnpackedTotal(4) == 192;
    assert UnpackedTotal(5) == 224;
  }

  lemma {:induction false} TotalBound(bits: seq<nat>, n: nat)
    requires n <= |bits| && forall i :: 0 <= i < n ==> bits[i] <= UnpackedBits(i)
    ensures Total(bits, n) <= UnpackedTotal(n)
  {
    if n > 0 {
      TotalBound(bits, n - 1);
    }
  }

  // ----- how narrow a format can be

  /** The bits each field needs for its range. */
  function Widths(lo: seq<Word>, hi: seq<Word>): (w: seq<nat>)
    requires |lo| == |hi| == Fields
    ensures |w| == Fields && forall i :: 0 <= i < Fields ==> w[i] == Width(lo[i], hi[i])
  {
    seq(Fields, i requires 0 <= i < Fields => Width(lo[i], hi[i]))
  }

  function Width(lo: Word, hi: Word): nat { if lo <= hi then BitLen(hi - lo) else 0 }

  /** The words a key takes whose fields take these bits, header included. */
  function WordsFor(bits: seq<nat>): nat
    requires |bits| == Fields
  {
    (24 + Total(bits, Fields) + 63) / 64
  }

  lemma {:induction false} TotalMonotone(a: seq<nat>, b: seq<nat>, n: nat)
    requires n <= |a| && n <= |b| && forall i :: 0 <= i < n ==> a[i] <= b[i]
    ensures Total(a, n) <= Total(b, n)
  {
    if n > 0 {
      TotalMonotone(a, b, n - 1);
    }
  }

  /** Any format that holds both ends of every range has fields at least that wide, and as many words. */
  lemma NoNarrower(g: Format, lo: seq<Word>, hi: seq<Word>)
    requires FormatOk(g) && |lo| == |hi| == Fields
    requires forall i :: 0 <= i < Fields ==> Packable(g, i, lo[i]) && Packable(g, i, hi[i])
    ensures forall i :: 0 <= i < Fields ==> Widths(lo, hi)[i] <= g.bits[i]
    ensures WordsFor(Widths(lo, hi)) <= g.keyWords
  {
    forall i | 0 <= i < Fields
      ensures Widths(lo, hi)[i] <= g.bits[i]
    {
      assert Packable(g, i, lo[i]) && Packable(g, i, hi[i]);
      if lo[i] <= hi[i] {
        BitLenBound(hi[i] - lo[i], g.bits[i]);
      }
    }
    TotalMonotone(Widths(lo, hi), g.bits, Fields);
    TotalIsStart(g, Fields);
  }

  /** A field as wide as it must be, or that rounded up to whole bytes. */
  predicate Padded(bits: nat, width: nat) { bits == width || bits == width + ToByte(width) }

  class FormatState {
    var min: seq<Word>
    var max: seq<Word>

    predicate Valid()
      reads this
    {
      |min| == Fields == |max| && forall i :: 0 <= i < Fields ==> max[i] <= UnpackedMax(i)
    }

    /** Every value lies in its field's range. */
    predicate Covers(vs: seq<Word>)
      reads this
    {
      Valid() && |vs| <= Fields && forall i :: 0 <= i < |vs| ==> min[i] <= vs[i] <= max[i]
    }

    constructor ()
      ensures Valid() && min[SizeField] == 0 && forall i :: 0 <= i < Fields ==> max[i] == 0
      ensures forall i :: 0 <= i < Fields && i != SizeField ==> min[i] == AllOnes
    {
      min := [AllOnes, AllOnes, AllOnes, 0, AllOnes, AllOnes];
      max := [0, 0, 0, 0, 0, 0];
    }

    /** Widen one field's range; what was covered stays covered. */
    method Add(field: nat, v: Word)
      requires Valid() && field < Fields && v <= UnpackedMax(field)
      modifies this
      ensures Valid() && min == old(min)[field := Min(old(min)[field], v)]
      ensures max == old(max)[field := Max(old(max)[field], v)]
    {
      min := min[field := Min(min[field], v)];
      max := max[field := Max(max[field], v)];
    }

    method AddValues(vs: seq<Word>)
      requires Valid() && |vs| <= Fields && forall i :: 0 <= i < |vs| ==> vs[i] <= UnpackedMax(i)
      modifies this
      ensures Covers(vs)
      ensures forall us: seq<Word> :: old(Covers(us)) ==> Covers(us)
      ensures forall i :: 0 <= i < |vs| ==> min[i] == Min(old(min)[i], vs[i]) && max[i] == Max(old(max)[i], vs[i])
      ensures forall i :: |vs| <= i < Fields ==> min[i] == old(min)[i] && max[i] == old(max)[i]
    {
      for field := 0 to |vs|
        invariant Valid()
        invariant forall i :: 0 <= i < field ==> min[i] == Min(old(min)[i], vs[i]) && max[i] == Max(old(max)[i], vs[i])
        invariant forall i :: field <= i < Fields ==> min[i] == old(min)[i] && max[i] == old(max)[i]
      {
        Add(field, vs[field]);
      }
    }

    method AddKey(k: Key)
      requires Valid()
      modifies this
      ensures Covers(FieldValues(k))
      ensures forall us: seq<Word> :: old(Covers(us)) ==> Covers(us)
      ensures forall i :: 0 <= i < Fields ==>
        min[i] == Min(old(min)[i], FieldValues(k)[i]) && max[i] == Max(old(max)[i], FieldValues(k)[i])
    {
      KeyInRange(k);
      AddValues(FieldValues(k));
    }

    /**
     A valid format of at most five words in which all values covered so far can be packed, and
     which is no larger than the ranges require: no format that holds them has fewer words, and
     each field has the width its range needs, or that rounded up to whole bytes.
     */
    method Done() returns (f: Format)
      requires Valid()
      modifies this
      ensures FormatOk(f) && forall i :: 0 <= i < Fields ==> f.bits[i] <= UnpackedBits(i) && NoOverflow(f, i)
      ensures forall vs: seq<Word> :: old(Covers(vs)) ==> AllPackable(f, vs, |vs|)
      ensures f.keyWords == WordsFor(Widths(Lows(old(min), old(max)), old(max)))
      ensures forall i :: 0 <= i < Fields ==> Padded(f.bits[i], Width(Lows(old(min), old(max))[i], old(max)[i]))
    {
      var bits, offset := FirstPass();
      assert min == Lows(old(min), max);
      assert bits == Widths(min, max);
      var used := 24 + Total(bits, Fields);
      TotalBound(bits, Fields);
      UnpackedTotalIs288();
      var words := (used + 63) / 64;
      bits, offset := Pad(bits, offset, words * 64 - used, min, max);
      f := Format(words, bits, offset);
      TotalIsStart(f, Fields);
      forall vs: seq<Word> | old(Covers(vs))
        ensures AllPackable(f, vs, |vs|)
      {
        forall i | 0 <= i < |vs|
          ensures Packable(f, i, vs[i])
        {
          assert FieldCovers(bits[i], offset[i], UnpackedBits(i), min[i], max[i]);
        }
      }
    }

    method FirstPass() returns (bits: seq<nat>, offset: seq<Word>)
      requires Valid()
      modifies this
      ensures Valid() && max == old(max) && forall i :: 0 <= i < Fields ==> min[i] == Min(old(min)[i], max[i])
      ensures |bits| == Fields == |offset|
      ensures FitTo(bits, offset, min, max, Fields)
    {
      bits, offset := [0, 0, 0, 0, 0, 0], [0, 0, 0, 0, 0, 0];
      for i := 0 to Fields
        invariant Valid() && max == old(max) && |bits| == Fields == |offset|
        invariant forall k :: 0 <= k < i ==> min[k] == Min(old(min)[k], max[k])
        invariant forall k :: i <= k < Fields ==> min[k] == old(min)[k]
        invariant FitTo(bits, offset, min, max, i)
      {
        var lo := Min(min[i], max[i]);
        FitStep(bits, offset, min, max, i, lo);
        min := min[i := lo];
        var r := FieldFormat(UnpackedBits(i), BitLen(max[i] - lo), lo);
        bits, offset := bits[i := r.0], offset[i := r.1];
      }
    }
  }

  /** The first `n` fields fit their ranges. */
  predicate FitTo(bits: seq<nat>, offset: seq<Word>, lo: seq<Word>, hi: seq<Word>, n: nat) {
    && n <= Fields == |bits| == |offset| == |lo| == |hi|
    && forall i :: 0 <= i < n ==> FieldFits(bits[i], offset[i], UnpackedBits(i), lo[i], hi[i])
  }

  lemma FitStep(bits: seq<nat>, offset: seq<Word>, min: seq<Word>, max: seq<Word>, i: nat, lo: Word)
    requires FitTo(bits, offset, min, max, i) && i < Fields && lo <= max[i] <= UnpackedMax(i)
    ensures var r := FieldFormat(UnpackedBits(i), BitLen(max[i] - lo), lo);
            FitTo(bits[i := r.0], offset[i := r.1], min[i := lo], max, i + 1)
  {
    FirstFieldFormat(UnpackedBits(i), lo, max[i]);
  }

  /** The ranges' lower ends; a field without values ranges from 0. */
  function Lows(min: seq<Word>, max: seq<Word>): (lo: seq<Word>)
    requires |min| == |max| == Fields
    ensures |lo| == Fields && forall i :: 0 <= i < Fields ==> lo[i] == Min(min[i], max[i])
  {
    seq(Fields, i requires 0 <= i < Fields => Min(min[i], max[i]))
  }

  method PadField(i: nat, bits: nat, offset: Word, lo: Word, hi: Word) returns (r: (nat, Word))
    requires FieldCovers(bits, offset, UnpackedBits(i), lo, hi)
    ensures r.0 == bits + ToByte(bits) && FieldCovers(r.0, r.1, UnpackedBits(i), lo, hi)
  {
    PaddingFits(i, bits);
    WidenedFieldFormat(UnpackedBits(i), bits, offset, ToByte(bits), lo, hi);
    r := FieldFormat(UnpackedBits(i), bits + ToByte(bits), offset);
  }

  /** Round fields up to whole bytes while spare bits last. */
  method Pad(bits0: seq<nat>, offset0: seq<Word>, spare0: nat, lo: seq<Word>, hi: seq<Word>)
      returns (bits: seq<nat>, offset: seq<Word>)
    requires |bits0| == |offset0| == |lo| == |hi| == Fields
    requires forall i :: 0 <= i < Fields ==> FieldCovers(bits0[i], offset0[i], UnpackedBits(i), lo[i], hi[i])
    ensures |bits| == |offset| == Fields && Total(bits, Fields) <= Total(bits0, Fields) + spare0
    ensures forall i :: 0 <= i < Fields ==> FieldCovers(bits[i], offset[i], UnpackedBits(i), lo[i], hi[i])
    ensures forall i :: 0 <= i < Fields ==> Padded(bits[i], bits0[i])
  {
    bits, offset := bits0, offset0;
    var spare := spare0;
    for i := 0 to Fields
      invariant |bits| == |offset| == Fields && 0 <= spare
      invariant Total(bits, Fields) + spare == Total(bits0, Fields) + spare0
      invariant forall k :: 0 <= k < Fields ==> FieldCovers(bits[k], offset[k], UnpackedBits(k), lo[k], hi[k])
      invariant forall k :: 0 <= k < i ==> Padded(bits[k], bits0[k])
      invariant forall k :: i <= k < Fields ==> bits[k] == bits0[k]
    {
      var extra := ToByte(bits[i]);
      if extra <= spare {
        var r := PadField(i, bits[i], offset[i], lo[i], hi[i]);
        TotalUpdate(bits, i, r.0, Fields);
        bits, offset := bits[i := r.0], offset[i := r.1];
        spare := spare - extra;
      }
    }
  }

  lemma KeyInRange(k: Key)
    ensures forall i :: 0 <= i < Fields ==> FieldValues(k)[i] <= UnpackedMax(i)
  {
  }

  /** Every key can be packed, and so can a size of zero. */
  predicate PacksAll(f: Format, keys: seq<Key>) {
    && FormatOk(f) && Packable(f, SizeField, 0)
    && forall j :: 0 <= j < |keys| ==> AllPackable(f, FieldValues(keys[j]), Fields)
  }

  /** The ends of every field's range are values of keys, but for the size field, which starts at 0. */
  ghost predicate Tight(min: seq<Word>, max: seq<Word>, keys: seq<Key>) {
    && |min| == |max| == Fields && min[SizeField] == 0
    && (forall i :: 0 <= i < Fields ==> (|keys| == 0 && max[i] == 0) || HasValue(keys, i, max[i]))
    && (forall i :: 0 <= i < Fields && i != SizeField ==>
          (|keys| == 0 && min[i] == AllOnes) || HasValue(keys, i, min[i]))
  }

  ghost predicate HasValue(keys: seq<Key>, i: nat, v: Word)
    requires i < Fields
  {
    exists j :: 0 <= j < |keys| && FieldValues(keys[j])[i] == v
  }

  lemma TightStep(min: seq<Word>, max: seq<Word>, keys: seq<Key>, min': seq<Word>, max': seq<Word>, k: Key)
    requires Tight(min, max, keys) && |min'| == |max'| == Fields
    requires forall i :: 0 <= i < Fields ==>
      min'[i] == Min(min[i], FieldValues(k)[i]) && max'[i] == Max(max[i], FieldValues(k)[i])
    ensures Tight(min', max', keys + [k])
  {
    forall i | 0 <= i < Fields
      ensures HasValue(keys + [k], i, max'[i]) && (i != SizeField ==> HasValue(keys + [k], i, min'[i]))
    {
      assert (keys + [k])[|keys|] == k;
      ValueStays(keys, k, i, max[i]);
      AllOnesIsMost(FieldValues(k)[i]);
      if i != SizeField {
        ValueStays(keys, k, i, min[i]);
      }
    }
  }

  lemma ValueStays(keys: seq<Key>, k: Key, i: nat, v: Word)
    requires i < Fields
    ensures HasValue(keys, i, v) ==> HasValue(keys + [k], i, v)
    ensures HasValue(keys + [k], i, FieldValues(k)[i])
  {
    if HasValue(keys, i, v) {
      var j :| 0 <= j < |keys| && FieldValues(keys[j])[i] == v;
      assert (keys + [k])[j] == keys[j];
    }
    assert (keys + [k])[|keys|] == k;
  }

  /** A format that packs all keys holds both ends of every range. */
  lemma HoldsEnds(g: Format, min: seq<Word>, max: seq<Word>, keys: seq<Key>)
    requires Tight(min, max, keys) && PacksAll(g, keys) && |keys| > 0
    ensures forall i :: 0 <= i < Fields ==> Packable(g, i, Lows(min, max)[i]) && Packable(g, i, max[i])
  {
    forall i | 0 <= i < Fields
      ensures Packable(g, i, min[i]) && Packable(g, i, max[i])
    {
      var j :| 0 <= j < |keys| && FieldValues(keys[j])[i] == max[i];
      assert AllPackable(g, FieldValues(keys[j]), Fields);
      if i != SizeField {
        var m :| 0 <= m < |keys| && FieldValues(keys[m])[i] == min[i];
        assert AllPackable(g, FieldValues(keys[m]), Fields);
      }
    }
  }

  ghost predicate AllWithin(st: FormatState, keys: seq<Key>)
    reads st
  {
    st.Valid() && forall j :: 0 <= j < |keys| ==> st.Covers(FieldValues(keys[j]))
  }

  method Widen(st: FormatState, ghost keys: seq<Key>, k: Key)
    requires AllWithin(st, keys) && Tight(st.min, st.max, keys)
    modifies st
    ensures AllWithin(st, keys + [k]) && Tight(st.min, st.max, keys + [k])
  {
    ghost var min, max := st.min, st.max;
    st.AddKey(k);
    TightStep(min, max, keys, st.min, st.max, k);
  }

  /** The ranges of the fields of all keys. */
  method Ranges(keys: seq<Key>) returns (st: FormatState)
    ensures fresh(st) && AllWithin(st, keys) && Tight(st.min, st.max, keys)
  {
    st := new FormatState();
    TightStart(st.min, st.max);
    for n := 0 to |keys|
      invariant fresh(st) && AllWithin(st, keys[..n]) && Tight(st.min, st.max, keys[..n])
    {
      assert keys[..n + 1] == keys[..n] + [keys[n]];
      Widen(st, keys[..n], keys[n]);
    }
    assert keys[..|keys|] == keys;
  }

  lemma TightStart(min: seq<Word>, max: seq<Word>)
    requires |min| == |max| == Fields && min[SizeField] == 0 && forall i :: 0 <= i < Fields ==> max[i] == 0
    requires forall i :: 0 <= i < Fields && i != SizeField ==> min[i] == AllOnes
    ensures Tight(min, max, [])
  {
  }

  /**
   The format built from a set of keys packs each of them and is as small as such a format can
   be: no other one has fewer words, or a field narrower by a byte or more.
   */
  method FormatFor(keys: seq<Key>) returns (f: Format)
    ensures FormatOk(f) && forall i :: 0 <= i < Fields ==> f.bits[i] <= UnpackedBits(i) && NoOverflow(f, i)
    ensures forall j :: 0 <= j < |keys| ==> AllPackable(f, FieldValues(keys[j]), Fields)
    ensures forall g: Format :: PacksAll(g, keys) ==>
      f.keyWords <= g.keyWords && forall i :: 0 <= i < Fields ==> f.bits[i] < g.bits[i] + 8
  {
    var st := Ranges(keys);
    ghost var min, max := st.min, st.max;
    f := st.Done();
    forall g: Format | PacksAll(g, keys)
      ensures f.keyWords <= g.keyWords && forall i :: 0 <= i < Fields ==> f.bits[i] < g.bits[i] + 8
    {
      NoSmaller(f, g, min, max, keys);
    }
  }

  lemma NoSmaller(f: Format, g: Format, min: seq<Word>, max: seq<Word>, keys: seq<Key>)
    requires FormatOk(f) && Tight(min, max, keys) && PacksAll(g, keys)
    requires f.keyWords == WordsFor(Widths(Lows(min, max), max))
    requires forall i :: 0 <= i < Fields ==> Padded(f.bits[i], Width(Lows(min, max)[i], max[i]))
    ensures f.keyWords <= g.keyWords && forall i :: 0 <= i < Fields ==> f.bits[i] < g.bits[i] + 8
  {
    if |keys| > 0 {
      HoldsEnds(g, min, max, keys);
      NoNarrower(g, Lows(min, max), max);
    } else {
      TotalMonotone(Widths(Lows(min, max), max), g.bits, Fields);
      TotalIsStart(g, Fields);
    }
  }

  // ----- the overflow check

  /** The source's test, with its 64-bit wrap-around. */
  function FieldOverflows(f: Format, i: nat): bool
    requires FormatOk(f) && i < Fields
  {
    var u := UnpackedBits(i);
    if f.bits[i] > u then true
    else if f.bits[i] == u && f.offset[i] != 0 then true
    else WrapsBelow(f.offset[i], Pow2(f.bits[i]) - 1, u)
  }

  function WrapsBelow(offset: Word, max: nat, u: nat): bool { Low(Trunc(offset + max), u) < offset }

  /** It detects exactly the formats some stored value of which decodes outside the unpacked field. */
  lemma OverflowCheckExact(f: Format, i: nat)
    requires FormatOk(f) && i < Fields
    ensures FieldOverflows(f, i) <==> !NoOverflow(f, i)
  {
    FieldTestExact(f.offset[i], f.bits[i], UnpackedBits(i), WordBits);
  }

  const WordBits: nat := 64

  /** In words of `w` bits. */
  lemma FieldTestExact(o: nat, b: nat, u: nat, w: nat)
    requires u <= w && o < Pow2(w)
    ensures b > u || (b == u && o != 0) || Low(Low(o + (Pow2(b) - 1), w), u) < o <==> o + Pow2(b) > Pow2(u)
  {
    if b > u {
      Pow2Monotone(u, b);
    } else {
      Pow2Monotone(b, u);
      WrapTestExact(o, Pow2(b) - 1, u, w);
    }
  }

  /** Adding wraps around below its first summand exactly when the sum does not fit the field. */
  lemma WrapTestExact(o: nat, m: nat, u: nat, w: nat)
    requires u <= w && o < Pow2(w) && m < Pow2(u)
    ensures Low(Low(o + m, w), u) < o <==> o + m >= Pow2(u)
  {
    Pow2Monotone(u, w);
    if o + m < Pow2(u) {
      LowSmall(o + m, w);
      LowSmall(o + m, u);
    } else {
      LowSplit(Low(o + m, w), u);
      if o < Pow2(u) {
        TruncAgain(o + m, u, w);
        ShlIsMul(1, u);
        LowOf(o + m, 1, o + m - Pow2(u), u);
      }
    }
  }

  lemma TruncAgain(x: nat, u: nat, w: nat)
    requires u <= w && x < 2 * Pow2(u)
    ensures Low(Low(x, w), u) == Low(x, u)
  {
    if x < Pow2(w) {
      LowSmall(x, w);
    } else {
      if u < w {
        Pow2Monotone(u + 1, w);
      }
      LowSplit(x, w);
      LowSmall(Low(x, w), w);
    }
  }
}
