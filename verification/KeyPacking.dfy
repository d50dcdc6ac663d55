/** Packing, unpacking, re-packing and comparing whole keys. */
module KeyPacking {
  import opened Arith
  import opened PackedWords
  import opened PackedKeys
  import opened PackStates

  /** A field's distance from the format's offset. */
  function Diffs(f: Format, vs: seq<Word>): (ds: seq<nat>)
    requires FormatOk(f) && |vs| <= Fields
    ensures |ds| == |vs| && forall i :: 0 <= i < |vs| && Packable(f, i, vs[i]) ==> ds[i] == vs[i] - f.offset[i]
  {
    seq(|vs|, i requires 0 <= i < |vs| => if vs[i] >= f.offset[i] then vs[i] - f.offset[i] else 0)
  }

  predicate AllPackable(f: Format, vs: seq<Word>, n: nat)
    requires FormatOk(f) && n <= |vs| <= Fields
  {
    forall i :: 0 <= i < n ==> Packable(f, i, vs[i])
  }

  /** Words whose leading bits are the differences' concatenation decode to the values. */
  lemma PackedFields(f: Format, vs: seq<Word>, words: seq<Word>)
    requires FormatOk(f) && |vs| <= Fields && |words| == f.keyWords && AllPackable(f, vs, |vs|)
    requires Start(f, |vs|) <= 64 * f.keyWords && Prefix(words, Start(f, |vs|)) == Concat(f, Diffs(f, vs), |vs|)
    ensures forall i :: 0 <= i < |vs| ==> Field(f, words, i) == vs[i]
  {
    ConcatFields(f, Diffs(f, vs), words, |vs|);
    forall i | 0 <= i < |vs|
      ensures Field(f, words, i) == vs[i]
    {
      FieldOfRaw(f, words, i, vs[i]);
    }
  }

  /** Storing the header keeps every field. */
  lemma HeaderKeepsFields(f: Format, a: seq<Word>, b: seq<Word>)
    requires FormatOk(f) && |a| == |b| == f.keyWords
    requires (forall k :: 1 <= k < |a| ==> a[k] == b[k]) && Shr(a[0], 24) == Shr(b[0], 24)
    ensures Decoded(f, a) == Decoded(f, b)
  {
    forall i | 0 <= i < Fields
      ensures Field(f, a, i) == Field(f, b, i)
    {
      HeaderKeepsField(f, a, b, i);
    }
  }

  lemma HeaderKeepsField(f: Format, a: seq<Word>, b: seq<Word>, i: nat)
    requires FormatOk(f) && |a| == |b| == f.keyWords && i < Fields
    requires (forall k :: 1 <= k < |a| ==> a[k] == b[k]) && Shr(a[0], 24) == Shr(b[0], 24)
    ensures Field(f, a, i) == Field(f, b, i)
  {
    StartMonotone(f, i + 1, Fields);
    PrefixIgnoresHeader(a, b, Start(f, i + 1));
  }

  method Clear(out: array<Word>, n: nat)
    requires n <= out.Length
    modifies out
    ensures forall k :: 0 <= k < n ==> out[k] == 0
    ensures out[n..] == old(out[n..])
  {
    for i := 0 to n
      invariant forall k :: 0 <= k < i ==> out[k] == 0
      invariant out[n..] == old(out[n..])
    {
      out[i] := 0;
    }
  }

  method SetHeader(f: Format, out: array<Word>, u64s: Byte, format: Byte, type_: Byte)
    requires FormatOk(f) && f.keyWords <= out.Length
    modifies out
    ensures U64sOf(out[0]) == u64s && FormatOf(out[0]) == format && TypeOf(out[0]) == type_
    ensures Decoded(f, out[..f.keyWords]) == old(Decoded(f, out[..f.keyWords]))
    ensures out[f.keyWords..] == old(out[f.keyWords..])
  {
    ghost var before := out[..f.keyWords];
    HeaderBytes(out[0], u64s, format, type_);
    out[0] := WithHeader(out[0], HeaderOf(u64s, format, type_));
    HeaderKeepsFields(f, out[..f.keyWords], before);
  }

  /** Every field as the wide value it decodes to. */
  function Decoded(f: Format, words: seq<Word>): (vs: seq<Word>)
    requires FormatOk(f) && |words| == f.keyWords
    ensures |vs| == Fields && forall i :: 0 <= i < Fields ==> vs[i] == Field(f, words, i)
  {
    seq(Fields, i requires 0 <= i < Fields => Field(f, words, i))
  }

  /** Pack fields up to the first that is out of range. */
  method PackFields(out: array<Word>, vs: seq<Word>, f: Format) returns (ok: bool)
    requires FormatOk(f) && f.keyWords <= out.Length && |vs| <= Fields
    modifies out
    ensures ok <==> AllPackable(f, vs, |vs|)
    ensures ok ==> forall i :: 0 <= i < |vs| ==> Field(f, out[..f.keyWords], i) == vs[i]
    ensures out[f.keyWords..] == old(out[f.keyWords..])
  {
    Clear(out, f.keyWords);
    var st := new PackState(f, out);
    ok := PutFields(st, vs);
    if ok {
      st.Finish(Concat(f, Diffs(f, vs), |vs|), |vs|);
      PackedFields(f, vs, out[..f.keyWords]);
    }
  }

  /** The first `n` fields' bits are the number `a`. */
  ghost predicate Written(f: Format, vs: seq<Word>, n: nat, a: nat)
    requires FormatOk(f) && n <= |vs| <= Fields
  {
    AllPackable(f, vs, n) && a == Concat(f, Diffs(f, vs), n)
  }

  lemma WrittenStep(f: Format, vs: seq<Word>, n: nat, a: nat)
    requires FormatOk(f) && n < |vs| <= Fields && Written(f, vs, n, a) && Packable(f, n, vs[n])
    ensures Written(f, vs, n + 1, Shl(a, f.bits[n]) + (vs[n] - f.offset[n]))
  {
  }

  method PutFields(st: PackState, vs: seq<Word>) returns (ok: bool)
    requires st.Holds(0, 0) && |vs| <= Fields
    modifies st, st.words
    ensures ok <==> AllPackable(st.f, vs, |vs|)
    ensures ok ==> st.Holds(Concat(st.f, Diffs(st.f, vs), |vs|), |vs|)
    ensures st.words[st.f.keyWords..] == old(st.words[st.f.keyWords..])
  {
    ghost var a: nat := 0;
    for field := 0 to |vs|
      invariant st.Holds(a, field) && Written(st.f, vs, field, a)
      invariant st.words[st.f.keyWords..] == old(st.words[st.f.keyWords..])
    {
      ok, a := PutNext(st, vs[field], field, a, vs);
      if !ok {
        return;
      }
    }
    ok := true;
  }

  method PutNext(st: PackState, v: Word, field: nat, ghost a: nat, ghost vs: seq<Word>)
    returns (ok: bool, ghost a': nat)
    requires field < |vs| <= Fields && v == vs[field] && st.Holds(a, field) && Written(st.f, vs, field, a)
    modifies st, st.words
    ensures ok ==> st.Holds(a', field + 1) && Written(st.f, vs, field + 1, a')
    ensures !ok ==> !Packable(st.f, field, vs[field])
    ensures st.words[st.f.keyWords..] == old(st.words[st.f.keyWords..])
  {
    a' := a;
    ok := st.TryPut(field, v, a);
    if ok {
      WrittenStep(st.f, vs, field, a);
      a' := Shl(a, st.f.bits[field]) + (vs[field] - st.f.offset[field]);
    }
  }

  /** Packing succeeds exactly when every field is in range, and then unpacking gives the key back. */
  method PackKey(out: array<Word>, input: Key, f: Format) returns (ok: bool)
    requires FormatOk(f) && f.keyWords <= out.Length && input.format % 128 == FormatCurrent
    requires KeyWords <= input.u64s && f.keyWords + input.u64s - KeyWords <= 255
    modifies out
    ensures ok <==> AllPackable(f, FieldValues(input), Fields)
    ensures ok ==> U64sOf(out[0]) == f.keyWords + input.u64s - KeyWords && FormatOf(out[0]) % 128 == FormatLocal
    ensures ok ==> UnpackedKey(f, out[..f.keyWords]) == input
    ensures out[f.keyWords..] == old(out[f.keyWords..])
  {
    ok := PackFields(out, FieldValues(input), f);
    if ok {
      SetHeader(f, out, f.keyWords + input.u64s - KeyWords, input.format / 128 * 128, input.type_);
      FlagByte(input.format);
      KeyFromFields(f, out[..f.keyWords], input);
    }
  }

  /** Words that decode to a key's values and carry its header stand for that key. */
  lemma KeyFromFields(f: Format, words: seq<Word>, k: Key)
    requires FormatOk(f) && |words| == f.keyWords && Decoded(f, words) == FieldValues(k)
    requires KeyWords <= k.u64s && U64sOf(words[0]) == f.keyWords + k.u64s - KeyWords
    requires k.format % 128 == FormatCurrent && FormatOf(words[0]) == k.format / 128 * 128
    requires TypeOf(words[0]) == k.type_
    ensures UnpackedKey(f, words) == k
  {
    var vs := Decoded(f, words);
    assert vs[0] == k.pos.inode && vs[1] == k.pos.offset && vs[2] == k.pos.snapshot;
    assert vs[3] == k.size && vs[4] == k.versionHi && vs[5] == k.versionLo;
    LowSmall(k.pos.snapshot, 32);
    LowSmall(k.size, 32);
    LowSmall(k.versionHi, 32);
    FlagByte(k.format);
  }

  lemma FlagByte(b: Byte)
    requires b % 128 == FormatCurrent
    ensures FormatCurrent + (b / 128 * 128) / 128 * 128 == b && b / 128 * 128 % 128 == 0
  {
  }

  method UnpackKey(f: Format, input: seq<Word>) returns (k: Key)
    requires FormatOk(f) && f.keyWords <= |input| && FormatOf(input[0]) % 128 == FormatLocal
    requires f.keyWords <= U64sOf(input[0]) <= 255 + f.keyWords - KeyWords
    ensures k == UnpackedKey(f, input[..f.keyWords])
  {
    var vs := UnpackFields(f, input[..f.keyWords]);
    k := Key(U64sOf(input[0]) - f.keyWords + KeyWords, FormatCurrent + FormatOf(input[0]) / 128 * 128, TypeOf(input[0]),
             Pos(vs[0], vs[1], TruncHalf(vs[2])), TruncHalf(vs[3]), TruncHalf(vs[4]), vs[5]);
  }

  method UnpackFields(f: Format, input: seq<Word>) returns (vs: seq<Word>)
    requires FormatOk(f) && f.keyWords == |input|
    ensures vs == Decoded(f, input)
  {
    var st := new UnpackState(f, input);
    vs := [];
    for field := 0 to Fields
      invariant st.words == input && st.f == f && fresh(st) && st.At(field)
      invariant |vs| == field && forall i :: 0 <= i < field ==> vs[i] == Field(f, input, i)
    {
      var v := st.Get(field);
      vs := vs + [v];
    }
  }

  /** Re-packing into another format: the key and its value are kept, or a field is out of range and the call fails. */
  method Transform(outF: Format, out: array<Word>, inF: Format, input: seq<Word>) returns (ok: bool)
    requires FormatOk(outF) && FormatOk(inF) && inF.keyWords <= |input|
    requires inF.keyWords <= U64sOf(input[0]) <= |input| && outF.keyWords + U64sOf(input[0]) - inF.keyWords <= 255
    requires outF.keyWords + U64sOf(input[0]) - inF.keyWords <= out.Length
    modifies out
    ensures ok <==> AllPackable(outF, Decoded(inF, input[..inF.keyWords]), Fields)
    ensures ok ==> Decoded(outF, out[..outF.keyWords]) == Decoded(inF, input[..inF.keyWords])
    ensures ok ==> U64sOf(out[0]) == outF.keyWords + U64sOf(input[0]) - inF.keyWords
    ensures ok && U64sOf(input[0]) - inF.keyWords + KeyWords <= 255 ==>
      UnpackedKey(outF, out[..outF.keyWords]) == UnpackedKey(inF, input[..inF.keyWords])
    ensures ok ==> out[outF.keyWords..U64sOf(out[0])] == input[inF.keyWords..U64sOf(input[0])]
  {
    var key := input[..inF.keyWords];
    ok := TransformFields(outF, out, inF, key);
    if ok {
      var u64s := outF.keyWords + U64sOf(input[0]) - inF.keyWords;
      SetHeader(outF, out, u64s, FormatOf(input[0]) / 128 * 128, TypeOf(input[0]));
      ghost var packed := out[..outF.keyWords];
      SameKey(outF, packed, inF, key);
      CopyValue(out, outF.keyWords, input[inF.keyWords..U64sOf(input[0])]);
      assert out[0] == packed[0];
    }
  }

  lemma SameKey(outF: Format, out: seq<Word>, inF: Format, input: seq<Word>)
    requires FormatOk(outF) && FormatOk(inF) && |out| == outF.keyWords && |input| == inF.keyWords
    requires Decoded(outF, out) == Decoded(inF, input)
    requires U64sOf(out[0]) - outF.keyWords == U64sOf(input[0]) - inF.keyWords >= 0
    requires FormatOf(out[0]) / 128 == FormatOf(input[0]) / 128 && TypeOf(out[0]) == TypeOf(input[0])
    ensures U64sOf(input[0]) - inF.keyWords + KeyWords <= 255 ==> UnpackedKey(outF, out) == UnpackedKey(inF, input)
  {
    forall i | 0 <= i < Fields
      ensures Field(outF, out, i) == Field(inF, input, i)
    {
      assert Decoded(outF, out)[i] == Decoded(inF, input)[i];
    }
  }

  method MoveFields(dst: PackState, src: UnpackState) returns (ok: bool)
    requires dst.Holds(0, 0) && src.At(0)
    modifies dst, dst.words, src
    ensures ok <==> AllPackable(dst.f, Decoded(src.f, src.words), Fields)
    ensures ok ==> dst.Holds(Concat(dst.f, Diffs(dst.f, Decoded(src.f, src.words)), Fields), Fields)
  {
    ghost var a: nat := 0;
    ghost var f, vs := dst.f, Decoded(src.f, src.words);
    for field := 0 to Fields
      invariant dst.Holds(a, field) && src.At(field) && Written(f, vs, field, a)
    {
      ok, a := MoveNext(dst, src, field, a, vs);
      if !ok {
        return;
      }
    }
    ok := true;
  }

  method MoveNext(dst: PackState, src: UnpackState, field: nat, ghost a: nat, ghost vs: seq<Word>)
    returns (ok: bool, ghost a': nat)
    requires field < Fields && dst.Holds(a, field) && src.At(field)
    requires |vs| == Fields && vs[field] == Field(src.f, src.words, field) && Written(dst.f, vs, field, a)
    modifies dst, dst.words, src
    ensures ok ==> dst.Holds(a', field + 1) && src.At(field + 1) && Written(dst.f, vs, field + 1, a')
    ensures !ok ==> !Packable(dst.f, field, vs[field])
  {
    var v := src.Get(field);
    ok, a' := PutNext(dst, v, field, a, vs);
  }

  method TransformFields(outF: Format, out: array<Word>, inF: Format, input: seq<Word>) returns (ok: bool)
    requires FormatOk(outF) && FormatOk(inF) && inF.keyWords == |input| && outF.keyWords <= out.Length
    modifies out
    ensures ok <==> AllPackable(outF, Decoded(inF, input), Fields)
    ensures ok ==> Decoded(outF, out[..outF.keyWords]) == Decoded(inF, input)
  {
    Clear(out, outF.keyWords);
    var dst := new PackState(outF, out);
    var src := new UnpackState(inF, input);
    ok := MoveFields(dst, src);
    if ok {
      ghost var vs := Decoded(inF, input);
      dst.Finish(Concat(outF, Diffs(outF, vs), Fields), Fields);
      PackedFields(outF, vs, out[..outF.keyWords]);
    }
  }

  method CopyValue(out: array<Word>, at: nat, value: seq<Word>)
    requires at + |value| <= out.Length
    modifies out
    ensures out[..at] == old(out[..at]) && out[at..at + |value|] == value
  {
    for i := 0 to |value|
      invariant out[..at] == old(out[..at])
      invariant out[at..at + i] == value[..i]
    {
      out[at + i] := value[i];
    }
  }

  /** Word by word from the top, then the remaining high bits of one word. */
  method CmpBits(l: seq<Word>, r: seq<Word>, keyBits: nat) returns (c: int)
    requires |l| == |r| && keyBits <= 64 * |l|
    ensures c == Sign(Prefix(l, keyBits) - Prefix(r, keyBits))
  {
    var nr: nat, p: nat := keyBits, |l|;
    PrefixZero(l);
    PrefixZero(r);
    while nr >= 64
      invariant 0 <= p <= |l| && nr + 64 * (|l| - p) == keyBits
      invariant Prefix(l, keyBits - nr) == Prefix(r, keyBits - nr)
      decreases nr
    {
      WordDecides(l, r, p - 1, keyBits - nr, 64);
      nr := nr - 64;
      if l[p - 1] != r[p - 1] {
        PrefixOrder(l, r, keyBits - nr, keyBits);
        PrefixOrder(r, l, keyBits - nr, keyBits);
        return if l[p - 1] > r[p - 1] then 1 else -1;
      }
      p := p - 1;
    }
    if nr == 0 {
      return 0;
    }
    WordDecides(l, r, p - 1, keyBits - nr, nr);
    var x, y := Shr(l[p - 1], 64 - nr), Shr(r[p - 1], 64 - nr);
    return if x > y then 1 else if x < y then -1 else 0;
  }

  /** After equal words, the next word's high bits decide. */
  lemma WordDecides(l: seq<Word>, r: seq<Word>, p: nat, s: nat, b: nat)
    requires |l| == |r| && p < |l| && s == 64 * (|l| - p) - 64 && b <= 64 && Prefix(l, s) == Prefix(r, s)
    ensures Sign(Prefix(l, s + b) - Prefix(r, s + b)) == Sign(Shr(l[p], 64 - b) - Shr(r[p], 64 - b))
  {
    var a, x, y := Prefix(l, s), Shr(l[p], 64 - b), Shr(r[p], 64 - b);
    WordPrefix(l, p, s, b);
    WordPrefix(r, p, s, b);
    ShlLex(a, x, a, y, b);
    ShlLex(a, y, a, x, b);
  }

  /** The prefix that ends `b` bits into word `p`. */
  lemma WordPrefix(ws: seq<Word>, p: nat, s: nat, b: nat)
    requires p < |ws| && s == 64 * (|ws| - p) - 64 && b <= 64
    ensures Shr(ws[p], 64 - b) < Pow2(b) && Prefix(ws, s + b) == Shl(Prefix(ws, s), b) + Shr(ws[p], 64 - b)
  {
    PrefixOfHi(ws, p, 64 - b);
    PrefixOfHi(ws, p + 1, 0);
    ShrOfHi(Hi(ws, p + 1), ws[p], 64 - b);
    ShrBound(ws[p], b, 64 - b);
  }

  /** Comparing the packed words of two keys gives the order of their positions. */
  method CmpPacked(f: Format, l: seq<Word>, r: seq<Word>) returns (c: int)
    requires FormatOk(f) && |l| == f.keyWords == |r|
    requires NoOverflow(f, 0) && NoOverflow(f, 1) && NoOverflow(f, 2)
    ensures c == PosCmp(UnpackedPos(f, l), UnpackedPos(f, r))
  {
    BitOrderIsPosOrder(f, l, r);
    c := CmpBits(l, r, KeyBits(f));
  }
}
