/**
 The field-by-field pack and unpack state machines over a word buffer, proved against the
 meaning of packed words.
 */
module PackStates {
  import opened Arith
  import opened PackedWords
  import opened PackedKeys

  /** The first `s` bits, forming the number `a`, are written; nothing below them is. */
  ghost predicate Packed(ws: seq<Word>, p: int, w: Word, bits: nat, a: nat, s: nat) {
    && 0 <= p < |ws| && bits <= 64 && s + bits == 64 * (|ws| - p)
    && (forall k :: 0 <= k < p ==> ws[k] == 0)
    && Filled(Hi(ws, p + 1), w, bits, a)
  }

  lemma PackHere(ws: seq<Word>, p: int, w: Word, bits: nat, a: nat, s: nat, v: nat, b: nat)
    requires Packed(ws, p, w, bits, a, s) && v < Pow2(b) && b <= bits
    ensures w + Shl(v, bits - b) < Pow2(64)
    ensures Packed(ws, p, w + Shl(v, bits - b), bits - b, Shl(a, b) + v, s + b)
  {
    PutHere(Hi(ws, p + 1), w, bits, a, v, b);
  }

  lemma PackLow(ws: seq<Word>, p: int, w: Word, bits: nat, a: nat, s: nat, v: nat, k: nat)
    requires Packed(ws, p, w, bits, a, s) && k <= bits && (bits == 64 || v < Pow2(k))
    ensures w + Trunc(Shl(v, bits - k)) < Pow2(64)
    ensures Packed(ws, p, w + Trunc(Shl(v, bits - k)), bits - k, Shl(a, k) + Low(v, k), s + k)
  {
    LowSplit(v, k);
    PackHere(ws, p, w, bits, a, s, Low(v, k), k);
    TopBitsFallOut(v, k, bits);
  }

  /** A full word is stored and the next one started. */
  lemma NextWord(ws: seq<Word>, p: int, w: Word, a: nat, s: nat)
    requires Packed(ws, p, w, 0, a, s) && p >= 1
    ensures Packed(ws[p := w], p - 1, 0, 64, a, s)
  {
    HiStore(ws, p, w);
  }

  lemma FillWord(ws: seq<Word>, p: int, w: Word, bits: nat, a: nat, s: nat, hi: nat)
    requires Packed(ws, p, w, bits, a, s) && hi < Pow2(bits) && p >= 1
    ensures w + hi < Pow2(64) && Packed(ws[p := w + hi], p - 1, 0, 64, Shl(a, bits) + hi, s + bits)
  {
    PackHere(ws, p, w, bits, a, s, hi, bits);
    NextWord(ws, p, w + hi, Shl(a, bits) + hi, s + bits);
  }

  lemma HiStore(ws: seq<Word>, p: nat, x: Word)
    requires p < |ws|
    ensures Hi(ws[p := x], p) == Shl(Hi(ws, p + 1), 64) + x
  {
    HiSame(ws[p := x], ws, p + 1);
  }

  lemma PackDone(ws: seq<Word>, p: int, w: Word, bits: nat, a: nat, s: nat)
    requires Packed(ws, p, w, bits, a, s)
    ensures s <= 64 * |ws| && Prefix(ws[p := w], s) == a
  {
    var ws' := ws[p := w];
    HiSame(ws', ws, p + 1);
    HiZeros(ws', p);
    assert Hi(ws', p) == Shl(a, bits);
    ShlShl(a, bits, 64 * p);
    ShlOrder(0, 1, bits + 64 * p);
    ShrShl(a, 0, bits + 64 * p);
  }

  /** Appending a number is appending its high bits and then its low ones. */
  lemma SplitValue(a: nat, v: nat, bits: nat, rem: nat) returns (a': nat)
    requires v < Pow2(bits + rem)
    ensures Shr(v, rem) < Pow2(bits) && a' == Shl(a, bits) + Shr(v, rem)
    ensures Shl(a', rem) + Low(v, rem) == Shl(a, bits + rem) + v
  {
    ShrBound(v, bits, rem);
    LowSplit(v, rem);
    Join(a, Shr(v, rem), bits, Low(v, rem), rem);
    a' := Shl(a, bits) + Shr(v, rem);
  }

  class PackState {
    const f: Format
    const words: array<Word>
    var bits: nat
    var w: Word
    var p: int

    /** The first `n` fields, forming the number `a`, are written. */
    ghost predicate Holds(a: nat, n: nat)
      reads this, words
    {
      && FormatOk(f) && n <= Fields && f.keyWords <= words.Length
      && Packed(words[..f.keyWords], p, w, bits, a, Start(f, n))
    }

    constructor (f: Format, words: array<Word>)
      requires FormatOk(f) && f.keyWords <= words.Length
      requires forall k :: 0 <= k < f.keyWords ==> words[k] == 0
      ensures this.f == f && this.words == words && Holds(0, 0)
    {
      this.f, this.words := f, words;
      bits, w, p := 64, 0, f.keyWords - 1;
      new;
      ShlZero(64);
    }

    /** Append `v` in the field's number of bits. */
    method Put(field: nat, v: nat, ghost a: nat)
      requires field < Fields && Holds(a, field) && v < Pow2(f.bits[field])
      modifies this, words
      ensures Holds(Shl(a, f.bits[field]) + v, field + 1)
      ensures words[f.keyWords..] == old(words[f.keyWords..])
    {
      StartMonotone(f, field + 1, Fields);
      var b := f.bits[field];
      if b != 0 {
        PutBits(b, v, a, Start(f, field));
      }
    }

    method Store(x: Word)
      requires 0 <= p < f.keyWords <= words.Length
      modifies words
      ensures words[..f.keyWords] == old(words[..f.keyWords])[p := x]
      ensures words[f.keyWords..] == old(words[f.keyWords..])
    {
      words[p] := x;
    }

    /** Append `b` bits, splitting them over two words if need be. */
    method PutBits(b: nat, v: nat, ghost a: nat, ghost s: nat)
      requires f.keyWords <= words.Length && Packed(words[..f.keyWords], p, w, bits, a, s)
      requires b <= 64 && s + b <= 64 * f.keyWords && v < Pow2(b)
      modifies this, words
      ensures Packed(words[..f.keyWords], p, w, bits, Shl(a, b) + v, s + b)
      ensures words[f.keyWords..] == old(words[f.keyWords..])
    {
      if b > bits {
        var rem := b - bits;
        ghost var a' := SplitValue(a, v, bits, rem);
        Spill(Shr(v, rem), a, s);
        PutLow(v, rem, a', s + b - rem);
      } else {
        LowSmall(v, b);
        PutLow(v, b, a, s);
      }
    }

    /** Append the low `k` bits of `v`; bits above them fall out of the word. */
    method PutLow(v: nat, k: nat, ghost a: nat, ghost s: nat)
      requires f.keyWords <= words.Length && Packed(words[..f.keyWords], p, w, bits, a, s)
      requires k <= bits && (bits == 64 || v < Pow2(k))
      modifies this`bits, this`w
      ensures Packed(words[..f.keyWords], p, w, bits, Shl(a, k) + Low(v, k), s + k)
    {
      ghost var ws: seq<Word> := words[..f.keyWords];
      PackLow(ws, p, w, bits, a, s, v, k);
      bits, w := bits - k, w + Trunc(Shl(v, bits - k));
    }

    /** Fill this word with `hi` and go on to the next. */
    method Spill(hi: nat, ghost a: nat, ghost s: nat)
      requires f.keyWords <= words.Length && Packed(words[..f.keyWords], p, w, bits, a, s)
      requires hi < Pow2(bits) && p >= 1
      modifies this, words
      ensures Packed(words[..f.keyWords], p, w, bits, Shl(a, old(bits)) + hi, s + old(bits))
      ensures bits == 64
      ensures words[f.keyWords..] == old(words[f.keyWords..])
    {
      FillWord(words[..f.keyWords], p, w, bits, a, s, hi);
      StoreNext(w + hi);
    }

    method StoreNext(x: Word)
      requires 0 <= p < f.keyWords <= words.Length
      modifies this, words
      ensures words[..f.keyWords] == old(words[..f.keyWords])[old(p) := x]
      ensures words[f.keyWords..] == old(words[f.keyWords..])
      ensures p == old(p) - 1 && w == 0 && bits == 64
    {
      Store(x);
      p, w, bits := p - 1, 0, 64;
    }

    /** Append a field's value if it is in the format's range. */
    method TryPut(field: nat, v: Word, ghost a: nat) returns (ok: bool)
      requires field < Fields && Holds(a, field)
      modifies this, words
      ensures ok == Packable(f, field, v)
      ensures ok ==> Holds(Shl(a, f.bits[field]) + (v - f.offset[field]), field + 1)
      ensures words[f.keyWords..] == old(words[f.keyWords..])
    {
      if v < f.offset[field] {
        return false;
      }
      var d := v - f.offset[field];
      BitLenBound(d, f.bits[field]);
      if BitLen(d) > f.bits[field] {
        return false;
      }
      Put(field, d, a);
      return true;
    }

    /** Append a field's value, or the field's largest if that is too small. */
    method PutLossy(field: nat, v: Word, ghost a: nat) returns (exact: bool)
      requires field < Fields && Holds(a, field) && v >= f.offset[field]
      modifies this, words
      ensures exact == Packable(f, field, v)
      ensures Holds(Shl(a, f.bits[field]) + Clamped(f, field, v), field + 1)
      ensures words[f.keyWords..] == old(words[f.keyWords..])
    {
      var d := v - f.offset[field];
      exact := true;
      BitLenBound(d, f.bits[field]);
      if BitLen(d) > f.bits[field] {
        ShlOrder(0, 1, f.bits[field]);
        d := Shl(1, f.bits[field]) - 1;
        exact := false;
      }
      Put(field, d, a);
    }

    /** Store the last word. */
    method Finish(ghost a: nat, ghost n: nat)
      requires Holds(a, n)
      modifies words
      ensures Start(f, n) <= 64 * f.keyWords && Prefix(words[..f.keyWords], Start(f, n)) == a
      ensures words[f.keyWords..] == old(words[f.keyWords..])
    {
      PackDone(words[..f.keyWords], p, w, bits, a, Start(f, n));
      Store(w);
    }
  }

  /** The largest field value at most `v`, less the offset. */
  function Clamped(f: Format, i: nat, v: Word): (d: nat)
    requires FormatOk(f) && i < Fields && v >= f.offset[i]
    ensures d < Pow2(f.bits[i]) && f.offset[i] + d <= v
  {
    if v - f.offset[i] < Pow2(f.bits[i]) then v - f.offset[i] else Pow2(f.bits[i]) - 1
  }

  // ----- unpacking

  /** The first `s` bits have been read; past the last word the state is an empty word. */
  ghost predicate Read(ws: seq<Word>, p: int, w: Word, bits: nat, s: nat) {
    && -1 <= p < |ws| && 1 <= bits <= 64 && s + bits == 64 * (|ws| - p)
    && Aligned(WordAt(ws, p), w, bits)
  }

  function WordAt(ws: seq<Word>, p: int): Word
    requires p < |ws|
  {
    if p >= 0 then ws[p] else 0
  }

  lemma ReadHere(ws: seq<Word>, p: int, w: Word, bits: nat, s: nat, b: nat)
    requires Read(ws, p, w, bits, s) && b < bits && s + b <= 64 * |ws|
    ensures BitsAt(ws, s, b) == Shr(Shr(w, 1), 63 - b) == Shr(w, 64 - b)
    ensures Read(ws, p, Trunc(Shl(w, b)), bits - b, s + b)
  {
    ShrShr(w, 1, 63 - b);
    TakeHere(WordAt(ws, p), w, bits, b);
    if p >= 0 {
      BitsHere(ws, p, bits, b);
    } else {
      ShrIsDiv(w, 64);
      EmptyField(ws, s, w, bits);
    }
  }

  lemma EmptyField(ws: seq<Word>, s: nat, w: Word, bits: nat)
    requires s <= 64 * |ws| && Aligned(0, w, bits)
    ensures BitsAt(ws, s, 0) == 0 == Shr(w, 64)
  {
    assert Pow2(0) == 1;
    assert w < Pow2(0 + 64);
    ShrBound(w, 0, 64);
  }

  lemma ReadAcross(ws: seq<Word>, p: int, w: Word, bits: nat, s: nat, b: nat)
    requires Read(ws, p, w, bits, s) && bits <= b <= 64 && s + b <= 64 * |ws|
    ensures p >= 0 && Read(ws, p - 1, WordAt(ws, p - 1), 64, s + bits)
    ensures BitsAt(ws, s, b) == Shr(w, 64 - b) + Shr(WordAt(ws, p - 1), 64 - (b - bits))
  {
    TakeTop(ws[p], w, bits, b);
    WordStart(WordAt(ws, p - 1));
    if p >= 1 {
      BitsAcross(ws, p, bits, b);
    } else {
      BitsHere(ws, p, bits, b);
      ShlZero(64);
      EmptyField(ws, s, 0, 64);
    }
  }

  class UnpackState {
    const f: Format
    const words: seq<Word>
    var bits: nat
    var w: Word
    var p: int

    /** The first `n` fields have been read. */
    ghost predicate At(n: nat)
      reads this
    {
      FormatOk(f) && n <= Fields && |words| == f.keyWords && Read(words, p, w, bits, Start(f, n))
    }

    constructor (f: Format, words: seq<Word>)
      requires FormatOk(f) && |words| == f.keyWords
      ensures this.f == f && this.words == words && At(0)
    {
      this.f, this.words := f, words;
      bits, p, w := 64, f.keyWords - 1, words[f.keyWords - 1];
      new;
      WordStart(w);
    }

    /** Read the next field. */
    method Get(field: nat) returns (v: Word)
      requires field < Fields && At(field)
      modifies this
      ensures At(field + 1)
      ensures v == PackedKeys.Field(f, words, field)
    {
      StartMonotone(f, field + 1, Fields);
      var x := GetBits(f.bits[field], Start(f, field));
      v := Trunc(x + f.offset[field]);
    }

    /** Read the next `b` bits, from two words if need be. */
    method GetBits(b: nat, ghost s: nat) returns (v: nat)
      requires Read(words, p, w, bits, s) && b <= 64 && s + b <= 64 * |words|
      modifies this
      ensures Read(words, p, w, bits, s + b)
      ensures v == BitsAt(words, s, b)
    {
      var n := b;
      ghost var at := s;
      v := 0;
      if n >= bits {
        ReadAcross(words, p, w, bits, s, b);
        v := Shr(w, 64 - b);
        n, at := b - bits, s + bits;
        p, w, bits := p - 1, WordAt(words, p - 1), 64;
      }
      ReadHere(words, p, w, bits, at, n);
      v := v + Shr(Shr(w, 1), 63 - n);
      w, bits := Trunc(Shl(w, n)), bits - n;
    }
  }
}
