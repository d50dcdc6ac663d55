/**
 Packed keys: a format gives each of a key's six fields an offset and a number of bits; fields
 are written from the high end of the key's words, and the low three bytes of word 0 hold the
 header (length, format byte, type).
 */
module PackedKeys {
  import opened Arith
  import opened PackedWords

  type Half = x: nat | x < Pow2(32)
  type Byte = x: nat | x < 256

  /** The low 32 bits: a cast to u32. */
  function TruncHalf(n: nat): Half {
    LowSplit(n, 32);
    Low(n, 32)
  }

  datatype Pos = Pos(inode: Word, offset: Word, snapshot: Half)

  datatype Key = Key(u64s: Byte, format: Byte, type_: Byte, pos: Pos, size: Half, versionHi: Half, versionLo: Word)

  datatype Format = Format(keyWords: nat, bits: seq<nat>, offset: seq<Word>)

  const Fields: nat := 6
  const FormatLocal: Byte := 0
  const FormatCurrent: Byte := 1
  const KeyWords: nat := 5

  /** What packing and unpacking assert of a format, with room for the header. */
  predicate FormatOk(f: Format) {
    && |f.bits| == Fields && |f.offset| == Fields
    && 1 <= f.keyWords <= KeyWords
    && (forall i :: 0 <= i < Fields ==> f.bits[i] <= 64)
    && Start(f, Fields) + 24 <= 64 * f.keyWords
  }

  /** The first bit of a field. */
  function Start(f: Format, i: nat): nat
    requires i <= |f.bits|
  {
    if i == 0 then 0 else Start(f, i - 1) + f.bits[i - 1]
  }

  lemma {:induction false} StartMonotone(f: Format, i: nat, j: nat)
    requires i <= j <= |f.bits|
    ensures Start(f, i) <= Start(f, j)
  {
    if i < j {
      StartMonotone(f, i, j - 1);
    }
  }

  function FieldValues(k: Key): (vs: seq<Word>)
    ensures |vs| == Fields
  {
    HalfIsWord(k.pos.snapshot);
    HalfIsWord(k.size);
    HalfIsWord(k.versionHi);
    [k.pos.inode, k.pos.offset, k.pos.snapshot, k.size, k.versionHi, k.versionLo]
  }

  lemma HalfIsWord(h: Half)
    ensures h < Pow2(64)
  {
    Pow2Monotone(32, 64);
  }

  // ----- header

  function HeaderOf(u64s: Byte, format: Byte, type_: Byte): (h: nat)
    ensures h < 0x100_0000
  {
    u64s + 256 * format + 65536 * type_
  }

  function U64sOf(w: nat): Byte { w % 256 }
  function FormatOf(w: nat): Byte { w / 256 % 256 }
  function TypeOf(w: nat): Byte { w / 65536 % 256 }

  /** Storing the header bytes over the low 24 bits of word 0. */
  function WithHeader(w: Word, h: nat): (r: Word)
    requires h < 0x100_0000
    ensures Shr(r, 24) == Shr(w, 24)
  {
    HeaderKeepsHigh(w, h);
    Shl(Shr(w, 24), 24) + h
  }

  lemma HeaderKeepsHigh(w: Word, h: nat)
    requires h < 0x100_0000
    ensures Shl(Shr(w, 24), 24) + h < Pow2(64)
    ensures Shr(Shl(Shr(w, 24), 24) + h, 24) == Shr(w, 24)
  {
    Pow2Of24();
    ReplaceLow(w, h, 24, 40);
  }

  lemma ReplaceLow(w: nat, h: nat, k: nat, b: nat)
    requires w < Pow2(b + k) && h < Pow2(k)
    ensures Shl(Shr(w, k), k) + h < Pow2(b + k)
    ensures Shr(Shl(Shr(w, k), k) + h, k) == Shr(w, k)
  {
    ShrShl(Shr(w, k), h, k);
    ShrBound(w, b, k);
    ShlOrder(Shr(w, k), Pow2(b), k);
    ShlPow2(b, k);
  }

  lemma Pow2Of24()
    ensures Pow2(24) == 0x100_0000
  {
    assert Pow2(6) == 64;
    Pow2Add(6, 6);
    Pow2Add(12, 12);
  }

  lemma HeaderBytes(w: Word, u64s: Byte, format: Byte, type_: Byte)
    ensures var r := WithHeader(w, HeaderOf(u64s, format, type_));
            U64sOf(r) == u64s && FormatOf(r) == format && TypeOf(r) == type_
  {
    var q := Shr(w, 24);
    ShlIsMul(q, 24);
    Pow2Of24();
    var r := WithHeader(w, HeaderOf(u64s, format, type_));
    var high := 65536 * q + format + 256 * type_;
    assert r == 256 * high + u64s;
    DivUnique(r, 256, high, u64s);
    DivUnique(high, 256, 256 * q + type_, format);
    DivUnique(r, 65536, 256 * q + type_, u64s + 256 * format);
  }

  /** Bits above the header do not depend on it. */
  lemma PrefixIgnoresHeader(a: seq<Word>, b: seq<Word>, s: nat)
    requires |a| == |b| && |a| >= 1 && s + 24 <= 64 * |a|
    requires (forall k :: 1 <= k < |a| ==> a[k] == b[k]) && Shr(a[0], 24) == Shr(b[0], 24)
    ensures Prefix(a, s) == Prefix(b, s)
  {
    HiSame(a, b, 1);
    ShrOfHi(Hi(a, 1), a[0], 24);
    ShrOfHi(Hi(b, 1), b[0], 24);
    var k := 64 * |a| - s - 24;
    ShrShr(Hi(a, 0), 24, k);
    ShrShr(Hi(b, 0), 24, k);
  }

  // ----- the meaning of packed words

  /** A field's stored bits. */
  function Raw(f: Format, words: seq<Word>, i: nat): (v: nat)
    requires FormatOk(f) && |words| == f.keyWords && i < Fields
    ensures v < Pow2(f.bits[i])
  {
    StartMonotone(f, i + 1, Fields);
    BitsAt(words, Start(f, i), f.bits[i])
  }

  /** A field's value: its bits plus the offset, wrapping. */
  function Field(f: Format, words: seq<Word>, i: nat): (v: Word)
    requires FormatOk(f) && |words| == f.keyWords && i < Fields
  {
    Trunc(Raw(f, words, i) + f.offset[i])
  }

  function UnpackedPos(f: Format, words: seq<Word>): Pos
    requires FormatOk(f) && |words| == f.keyWords
  {
    Pos(Field(f, words, 0), Field(f, words, 1), TruncHalf(Field(f, words, 2)))
  }

  /** The key a packed key stands for. */
  function UnpackedKey(f: Format, words: seq<Word>): (k: Key)
    requires FormatOk(f) && |words| == f.keyWords
    requires f.keyWords <= U64sOf(words[0]) <= 255 + f.keyWords - KeyWords
  {
    Key(U64sOf(words[0]) - f.keyWords + KeyWords, FormatCurrent + FormatOf(words[0]) / 128 * 128, TypeOf(words[0]),
        UnpackedPos(f, words), TruncHalf(Field(f, words, 3)), TruncHalf(Field(f, words, 4)), Field(f, words, 5))
  }

  predicate Packable(f: Format, i: nat, v: Word)
    requires FormatOk(f) && i < Fields
  {
    f.offset[i] <= v && v - f.offset[i] < Pow2(f.bits[i])
  }

  /** The first `n` fields' bits in a row. */
  function Concat(f: Format, vs: seq<nat>, n: nat): nat
    requires FormatOk(f) && n <= |vs| <= Fields
  {
    if n == 0 then 0 else Shl(Concat(f, vs, n - 1), f.bits[n - 1]) + vs[n - 1]
  }

  predicate FitsFields(f: Format, vs: seq<nat>)
    requires FormatOk(f) && |vs| <= Fields
  {
    forall i :: 0 <= i < |vs| ==> vs[i] < Pow2(f.bits[i])
  }

  /** Words whose leading bits are the concatenation hold exactly those field values. */
  lemma {:induction false} ConcatFields(f: Format, vs: seq<nat>, words: seq<Word>, n: nat)
    requires FormatOk(f) && n <= |vs| <= Fields && |words| == f.keyWords && FitsFields(f, vs)
    requires Start(f, n) <= 64 * f.keyWords && Prefix(words, Start(f, n)) == Concat(f, vs, n)
    ensures forall i :: 0 <= i < n ==> Raw(f, words, i) == vs[i]
  {
    if n > 0 {
      var s, b := Start(f, n - 1), f.bits[n - 1];
      PrefixParts(words, s, b, Concat(f, vs, n - 1), vs[n - 1]);
      ConcatFields(f, vs, words, n - 1);
    }
  }

  lemma PrefixParts(words: seq<Word>, s: nat, b: nat, high: nat, low: nat)
    requires s + b <= 64 * |words| && low < Pow2(b) && Prefix(words, s + b) == Shl(high, b) + low
    ensures Prefix(words, s) == high && BitsAt(words, s, b) == low
  {
    PrefixSplits(words, s, b);
    ShlLex(Prefix(words, s), BitsAt(words, s, b), high, low, b);
  }

  /** A field packed from a value decodes to it. */
  lemma FieldOfRaw(f: Format, words: seq<Word>, i: nat, v: Word)
    requires FormatOk(f) && |words| == f.keyWords && i < Fields && Packable(f, i, v)
    requires Raw(f, words, i) == v - f.offset[i]
    ensures Field(f, words, i) == v
  {
    WordStart(v);
  }

  lemma LowSmall(v: nat, k: nat)
    requires v < Pow2(k)
    ensures Low(v, k) == v
  {
    ShlZero(k);
    LowOf(v, 0, v, k);
  }

  // ----- order

  function PosCmp(l: Pos, r: Pos): int {
    if l.inode < r.inode then -1
    else if l.inode > r.inode then 1
    else if l.offset < r.offset then -1
    else if l.offset > r.offset then 1
    else if l.snapshot < r.snapshot then -1
    else if l.snapshot > r.snapshot then 1
    else 0
  }

  /** Where keys stand in a run: by position, and a deleted key before whatever else is at its position. */
  predicate Precedes(p: Pos, deleted: bool, q: Pos) { PosCmp(p, q) < 0 || (p == q && deleted) }

  function Sign(x: int): int { if x < 0 then -1 else if x > 0 then 1 else 0 }

  function KeyBits(f: Format): nat
    requires FormatOk(f)
  {
    f.bits[0] + f.bits[1] + f.bits[2]
  }

  /** No stored value of field `i` decodes beyond the unpacked field. */
  predicate NoOverflow(f: Format, i: nat)
    requires FormatOk(f) && i < Fields
  {
    f.offset[i] + Pow2(f.bits[i]) <= Pow2(UnpackedBits(i))
  }

  function UnpackedBits(i: nat): nat { if i == 0 || i == 1 || i == 5 then 64 else 32 }

  /** Comparing leading bits is comparing the unpacked positions. */
  lemma BitOrderIsPosOrder(f: Format, l: seq<Word>, r: seq<Word>)
    requires FormatOk(f) && |l| == f.keyWords == |r|
    requires NoOverflow(f, 0) && NoOverflow(f, 1) && NoOverflow(f, 2)
    ensures KeyBits(f) <= 64 * f.keyWords
    ensures Sign(Prefix(l, KeyBits(f)) - Prefix(r, KeyBits(f))) == PosCmp(UnpackedPos(f, l), UnpackedPos(f, r))
  {
    BitOrderIsFieldOrder(f, l, r);
    PlainFields(f, l);
    PlainFields(f, r);
    OffsetsCancel(UnpackedPos(f, l), UnpackedPos(f, r), f.offset[0], f.offset[1], f.offset[2]);
  }

  /** Positions compare like their differences from a common origin. */
  lemma OffsetsCancel(l: Pos, r: Pos, a: int, b: int, c: int)
    ensures PosCmp(l, r)
         == if l.inode - a != r.inode - a then Sign((l.inode - a) - (r.inode - a))
            else if l.offset - b != r.offset - b then Sign((l.offset - b) - (r.offset - b))
            else Sign((l.snapshot - c) - (r.snapshot - c))
  {
  }

  lemma BitOrderIsFieldOrder(f: Format, l: seq<Word>, r: seq<Word>)
    requires FormatOk(f) && |l| == f.keyWords == |r|
    ensures KeyBits(f) == Start(f, 3) <= 64 * f.keyWords
    ensures Sign(Prefix(l, KeyBits(f)) - Prefix(r, KeyBits(f)))
         == if Raw(f, l, 0) != Raw(f, r, 0) then Sign(Raw(f, l, 0) - Raw(f, r, 0))
            else if Raw(f, l, 1) != Raw(f, r, 1) then Sign(Raw(f, l, 1) - Raw(f, r, 1))
            else Sign(Raw(f, l, 2) - Raw(f, r, 2))
  {
    PrefixZero(l);
    PrefixZero(r);
    PrefixFieldOrder(f, l, r, 0);
    PrefixFieldOrder(f, l, r, 1);
    PrefixFieldOrder(f, l, r, 2);
    assert Start(f, 3) == Start(f, 2) + f.bits[2] == Start(f, 1) + f.bits[1] + f.bits[2] == KeyBits(f);
  }

  lemma PrefixFieldOrder(f: Format, l: seq<Word>, r: seq<Word>, i: nat)
    requires FormatOk(f) && |l| == f.keyWords == |r| && i < 3
    ensures Start(f, i) <= Start(f, i + 1) <= 64 * f.keyWords
    ensures var s, s' := Start(f, i), Start(f, i + 1);
            Sign(Prefix(l, s') - Prefix(r, s'))
              == if Prefix(l, s) == Prefix(r, s) then Sign(Raw(f, l, i) - Raw(f, r, i))
                 else Sign(Prefix(l, s) - Prefix(r, s))
  {
    StartMonotone(f, i + 1, Fields);
    var s, b := Start(f, i), f.bits[i];
    PrefixSplits(l, s, b);
    PrefixSplits(r, s, b);
    ShlLex(Prefix(l, s), Raw(f, l, i), Prefix(r, s), Raw(f, r, i), b);
    ShlLex(Prefix(r, s), Raw(f, r, i), Prefix(l, s), Raw(f, l, i), b);
  }

  /** Without overflow, a field is its bits plus the offset. */
  lemma PlainField(f: Format, words: seq<Word>, i: nat)
    requires FormatOk(f) && |words| == f.keyWords && i < Fields && NoOverflow(f, i)
    ensures Field(f, words, i) == Raw(f, words, i) + f.offset[i] < Pow2(UnpackedBits(i))
  {
    var v := Raw(f, words, i) + f.offset[i];
    Pow2Monotone(UnpackedBits(i), 64);
    LowSmall(v, 64);
  }

  lemma PlainFields(f: Format, words: seq<Word>)
    requires FormatOk(f) && |words| == f.keyWords
    requires NoOverflow(f, 0) && NoOverflow(f, 1) && NoOverflow(f, 2)
    ensures UnpackedPos(f, words).inode == Raw(f, words, 0) + f.offset[0]
    ensures UnpackedPos(f, words).offset == Raw(f, words, 1) + f.offset[1]
    ensures UnpackedPos(f, words).snapshot == Raw(f, words, 2) + f.offset[2]
  {
    PlainField(f, words, 0);
    PlainField(f, words, 1);
    PlainField(f, words, 2);
    LowSmall(Field(f, words, 2), 32);
  }
}
