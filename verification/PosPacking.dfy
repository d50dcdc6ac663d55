/** Packing a bare position, exactly or as the nearest representable position below it. */
module PosPacking {
  import opened Options
  import opened Arith
  import opened PackedWords
  import opened PackedKeys
  import opened PackStates
  import opened KeyPacking

  datatype PackRet = Exact | Smaller | Fail

  /** A snapshot as a field value. */
  function Snap(p: Pos): Word {
    HalfIsWord(p.snapshot);
    p.snapshot
  }

  predicate Representable(f: Format, p: Pos)
    requires FormatOk(f)
  {
    Packable(f, 0, p.inode) && Packable(f, 1, p.offset) && Packable(f, 2, Snap(p))
  }

  predicate PosLe(l: Pos, r: Pos) { PosCmp(l, r) <= 0 }

  ghost predicate IsFloor(f: Format, p: Pos, q: Pos)
    requires FormatOk(f)
  {
    Representable(f, q) && PosLe(q, p) && forall q' :: Representable(f, q') && PosLe(q', p) ==> PosLe(q', q)
  }

  /** No representable position is at or below `p`. */
  ghost predicate AllAbove(f: Format, p: Pos)
    requires FormatOk(f)
  {
    forall q :: Representable(f, q) ==> !PosLe(q, p)
  }

  /** `p` and `p'` have the same representable positions at or below them. */
  ghost predicate SameBelow(f: Format, p: Pos, p': Pos)
    requires FormatOk(f)
  {
    forall q :: Representable(f, q) ==> (PosLe(q, p) <==> PosLe(q, p'))
  }

  /** A snapshot below the format's: borrow from the offset, then from the inode. */
  function BorrowOffset(f: Format, p: Pos): Option<Pos>
    requires FormatOk(f)
  {
    if p.snapshot >= f.offset[2] then Some(p)
    else if p.offset > 0 then Some(Pos(p.inode, p.offset - 1, SnapshotMax()))
    else if p.inode > 0 then Some(Pos(p.inode - 1, OffsetMax(), SnapshotMax()))
    else None
  }

  /** An offset below the format's: borrow from the inode. */
  function BorrowInode(f: Format, p: Pos): Option<Pos>
    requires FormatOk(f)
  {
    if p.offset >= f.offset[1] then Some(p)
    else if p.inode > 0 then Some(Pos(p.inode - 1, OffsetMax(), SnapshotMax()))
    else None
  }

  function OffsetMax(): Word { Pow2(64) - 1 }

  function SnapshotMax(): Half { Pow2(32) - 1 }

  lemma BorrowOffsetSame(f: Format, p: Pos)
    requires FormatOk(f)
    ensures BorrowOffset(f, p).Some? ==> SameBelow(f, p, BorrowOffset(f, p).value)
    ensures BorrowOffset(f, p).None? ==> AllAbove(f, p)
    ensures f.offset[2] < Pow2(32) && BorrowOffset(f, p).Some? ==> BorrowOffset(f, p).value.snapshot >= f.offset[2]
  {
  }

  lemma BorrowInodeSame(f: Format, p: Pos)
    requires FormatOk(f)
    ensures BorrowInode(f, p).Some? ==>
      SameBelow(f, p, BorrowInode(f, p).value) && BorrowInode(f, p).value.offset >= f.offset[1]
    ensures BorrowInode(f, p).None? ==> AllAbove(f, p)
    ensures f.offset[2] <= p.snapshot && BorrowInode(f, p).Some? ==> BorrowInode(f, p).value.snapshot >= f.offset[2]
  {
  }

  function ClampField(f: Format, i: nat, v: Word): (c: Word)
    requires FormatOk(f) && i < Fields && v >= f.offset[i]
    ensures Packable(f, i, c) && c <= v && (Packable(f, i, v) <==> c == v)
  {
    f.offset[i] + Clamped(f, i, v)
  }

  /** Field by field from the top: once a field is cut down, those below it take their largest value. */
  function ClampPos(f: Format, p: Pos): (q: Pos)
    requires FormatOk(f) && f.offset[0] <= p.inode && f.offset[1] <= p.offset && f.offset[2] <= p.snapshot
    ensures Representable(f, q)
  {
    HalfIsWord(SnapshotMax());
    var inode := ClampField(f, 0, p.inode);
    var offset := ClampField(f, 1, if inode == p.inode then p.offset else OffsetMax());
    var snapshot := ClampField(f, 2, if inode == p.inode && offset == p.offset then Snap(p) else SnapshotMax());
    Pos(inode, offset, snapshot)
  }

  lemma ClampIsFloor(f: Format, p: Pos)
    requires FormatOk(f) && f.offset[0] <= p.inode && f.offset[1] <= p.offset && f.offset[2] <= p.snapshot
    ensures IsFloor(f, p, ClampPos(f, p))
    ensures ClampPos(f, p) == p <==> Representable(f, p)
  {
    var q := ClampPos(f, p);
    forall q' | Representable(f, q') && PosLe(q', p)
      ensures PosLe(q', q)
    {
      ClampLargest(f, 0, p.inode, q'.inode);
      ClampLargest(f, 1, if q.inode == p.inode then p.offset else OffsetMax(), q'.offset);
      HalfIsWord(SnapshotMax());
      ClampLargest(f, 2, if q.inode == p.inode && q.offset == p.offset then Snap(p) else SnapshotMax(), Snap(q'));
    }
  }

  lemma ClampLargest(f: Format, i: nat, v: Word, x: Word)
    requires FormatOk(f) && i < Fields && v >= f.offset[i] && Packable(f, i, x)
    ensures x <= v ==> x <= ClampField(f, i, v)
  {
  }

  lemma FloorTransfers(f: Format, p: Pos, p': Pos, q: Pos)
    requires FormatOk(f) && SameBelow(f, p, p') && IsFloor(f, p', q)
    ensures IsFloor(f, p, q)
  {
  }

  // ----- the operations

  /** The words hold a bare position. */
  ghost predicate HoldsPos(f: Format, words: seq<Word>, p: Pos)
    requires FormatOk(f) && |words| == f.keyWords
  {
    && UnpackedPos(f, words) == p && U64sOf(words[0]) == f.keyWords
    && FormatOf(words[0]) == FormatLocal && TypeOf(words[0]) == 0
  }

  lemma PosFromFields(f: Format, words: seq<Word>, p: Pos)
    requires FormatOk(f) && |words| == f.keyWords
    requires Field(f, words, 0) == p.inode && Field(f, words, 1) == p.offset && Field(f, words, 2) == p.snapshot
    ensures UnpackedPos(f, words) == p
  {
    LowSmall(p.snapshot, 32);
  }

  method StoreHeader(f: Format, out: array<Word>, ghost p: Pos)
    requires FormatOk(f) && f.keyWords <= out.Length && UnpackedPos(f, out[..f.keyWords]) == p
    modifies out
    ensures HoldsPos(f, out[..f.keyWords], p)
  {
    ghost var ws: seq<Word> := out[..f.keyWords];
    SetHeader(f, out, f.keyWords, FormatLocal, 0);
    assert Decoded(f, out[..f.keyWords]) == Decoded(f, ws);
    SamePos(f, out[..f.keyWords], ws);
  }

  lemma SamePos(f: Format, a: seq<Word>, b: seq<Word>)
    requires FormatOk(f) && |a| == f.keyWords == |b| && Decoded(f, a) == Decoded(f, b)
    ensures UnpackedPos(f, a) == UnpackedPos(f, b)
  {
    forall i | 0 <= i < Fields
      ensures Field(f, a, i) == Field(f, b, i)
    {
      assert Decoded(f, a)[i] == Decoded(f, b)[i];
    }
  }

  /** Exact packing: succeeds exactly on representable positions. */
  method PackPos(out: array<Word>, input: Pos, f: Format) returns (ok: bool)
    requires FormatOk(f) && f.keyWords <= out.Length
    modifies out
    ensures ok <==> Representable(f, input)
    ensures ok ==> HoldsPos(f, out[..f.keyWords], input)
  {
    if input.snapshot < f.offset[2] || input.offset < f.offset[1] || input.inode < f.offset[0] {
      return false;
    }
    var vs := [input.inode, input.offset, Snap(input)];
    ok := PackFields(out, vs, f);
    assert AllPackable(f, vs, 3) <==> Packable(f, 0, vs[0]) && Packable(f, 1, vs[1]) && Packable(f, 2, vs[2]);
    if ok {
      PosFromFields(f, out[..f.keyWords], input);
      StoreHeader(f, out, input);
    }
  }

  /**
   The greatest representable position at or below the input: Exact if that is the input, Fail
   if there is none.  A format whose snapshot offset is no snapshot is refused by an assertion.
   */
  method PackPosLossy(out: array<Word>, input: Pos, f: Format) returns (ret: PackRet)
    requires FormatOk(f) && f.keyWords <= out.Length && f.offset[2] < Pow2(32)
    modifies out
    ensures ret == Exact <==> Representable(f, input)
    ensures ret == Fail <==> AllAbove(f, input)
    ensures ret != Fail ==> IsFloor(f, input, UnpackedPos(f, out[..f.keyWords]))
    ensures ret != Fail ==> HoldsPos(f, out[..f.keyWords], UnpackedPos(f, out[..f.keyWords]))
  {
    Clear(out, f.keyWords);
    var exact, p := Lower(input, f);
    if p.None? {
      return Fail;
    }
    ClampIsFloor(f, p.value);
    FloorTransfers(f, input, p.value, ClampPos(f, p.value));
    var whole := PackClamped(out, p.value, f);
    return if exact && whole then Exact else Smaller;
  }

  /** The borrowing part: the same representable positions lie below, and no field is under the format's offset. */
  method Lower(input: Pos, f: Format) returns (exact: bool, r: Option<Pos>)
    requires FormatOk(f) && f.offset[2] < Pow2(32)
    ensures r.None? ==> AllAbove(f, input)
    ensures r.Some? ==> SameBelow(f, input, r.value)
    ensures r.Some? ==> f.offset[0] <= r.value.inode && f.offset[1] <= r.value.offset && f.offset[2] <= r.value.snapshot
    ensures r.Some? ==> if exact then r.value == input else !Representable(f, input)
  {
    var p := LowerSnapshot(input, f);
    if p.None? {
      BorrowOffsetSame(f, input);
      return true, None;
    }
    var q := LowerOffset(p.value, f);
    if q.None? {
      LoweredNone(f, input, p.value);
      return true, None;
    }
    LoweredSame(f, input, p.value, q.value);
    BorrowedIsNot(f, input, p.value);
    if q.value.inode < f.offset[0] {
      return true, None;
    }
    exact := !(input.snapshot < f.offset[2]) && !(p.value.offset < f.offset[1]);
    r := q;
  }

  method LowerSnapshot(p: Pos, f: Format) returns (r: Option<Pos>)
    requires FormatOk(f)
    ensures r == BorrowOffset(f, p)
  {
    r := Some(p);
    if p.snapshot < f.offset[2] {
      if p.offset == 0 {
        if p.inode == 0 {
          return None;
        }
        r := Some(Pos(p.inode - 1, OffsetMax(), SnapshotMax()));
      } else {
        r := Some(Pos(p.inode, p.offset - 1, SnapshotMax()));
      }
    }
  }

  method LowerOffset(p: Pos, f: Format) returns (r: Option<Pos>)
    requires FormatOk(f)
    ensures r == BorrowInode(f, p)
  {
    r := Some(p);
    if p.offset < f.offset[1] {
      if p.inode == 0 {
        return None;
      }
      r := Some(Pos(p.inode - 1, OffsetMax(), SnapshotMax()));
    }
  }

  /** A position that had to borrow was not representable. */
  lemma BorrowedIsNot(f: Format, p: Pos, p1: Pos)
    requires FormatOk(f) && BorrowOffset(f, p) == Some(p1)
    ensures p.snapshot < f.offset[2] || p1.offset < f.offset[1] ==> !Representable(f, p)
    ensures p.snapshot >= f.offset[2] ==> p1 == p
    ensures p1.offset >= f.offset[1] ==> BorrowInode(f, p1) == Some(p1)
  {
  }

  lemma LoweredNone(f: Format, p: Pos, p1: Pos)
    requires FormatOk(f) && BorrowOffset(f, p) == Some(p1) && BorrowInode(f, p1) == None
    ensures AllAbove(f, p)
  {
    BorrowOffsetSame(f, p);
    BorrowInodeSame(f, p1);
    AboveTransfers(f, p, p1);
  }

  lemma LoweredSame(f: Format, p: Pos, p1: Pos, p2: Pos)
    requires FormatOk(f) && f.offset[2] < Pow2(32) && BorrowOffset(f, p) == Some(p1) && BorrowInode(f, p1) == Some(p2)
    ensures SameBelow(f, p, p2) && f.offset[1] <= p2.offset && f.offset[2] <= p2.snapshot
    ensures p2.inode < f.offset[0] ==> AllAbove(f, p)
  {
    BorrowOffsetSame(f, p);
    BorrowInodeSame(f, p1);
    BelowTransitive(f, p, p1, p2);
    if p2.inode < f.offset[0] {
      NoneBelow(f, p2);
      AboveTransfers(f, p, p2);
    }
  }

  lemma NoneBelow(f: Format, p: Pos)
    requires FormatOk(f) && p.inode < f.offset[0]
    ensures AllAbove(f, p)
  {
  }

  lemma AboveTransfers(f: Format, p: Pos, p': Pos)
    requires FormatOk(f) && SameBelow(f, p, p') && AllAbove(f, p')
    ensures AllAbove(f, p)
  {
  }

  lemma BelowTransitive(f: Format, p: Pos, p': Pos, p'': Pos)
    requires FormatOk(f) && SameBelow(f, p, p') && SameBelow(f, p', p'')
    ensures SameBelow(f, p, p'')
  {
  }

  function PosDiffs(f: Format, q: Pos): (ds: seq<nat>)
    requires FormatOk(f) && Representable(f, q)
    ensures |ds| == 3 && FitsFields(f, ds)
  {
    [q.inode - f.offset[0], q.offset - f.offset[1], q.snapshot - f.offset[2]]
  }

  method PutClamped(st: PackState, input: Pos) returns (exact: bool)
    requires st.Holds(0, 0)
    requires st.f.offset[0] <= input.inode && st.f.offset[1] <= input.offset && st.f.offset[2] <= input.snapshot
    modifies st, st.words
    ensures exact <==> ClampPos(st.f, input) == input
    ensures st.Holds(Concat(st.f, PosDiffs(st.f, ClampPos(st.f, input)), 3), 3)
  {
    ghost var ds := PosDiffs(st.f, ClampPos(st.f, input));
    ClampParts(st.f, input);
    var whole := PutOne(st, 0, input.inode, ds);
    var offset := if whole then input.offset else OffsetMax();
    var snapshot := if whole then Snap(input) else Snap(Pos(0, 0, SnapshotMax()));
    exact := PutTail(st, offset, snapshot, ds);
    exact := exact && whole;
  }

  /** The offset, and a snapshot that is the largest if the offset was too large. */
  method PutTail(st: PackState, offset: Word, snap: Word, ghost ds: seq<nat>) returns (exact: bool)
    requires FormatOk(st.f) && |ds| == 3 && offset >= st.f.offset[1] && ds[1] == Clamped(st.f, 1, offset)
    requires TailSnap(st.f, offset, snap) >= st.f.offset[2]
    requires ds[2] == Clamped(st.f, 2, TailSnap(st.f, offset, snap))
    requires st.Holds(Concat(st.f, ds, 1), 1)
    modifies st, st.words
    ensures exact <==> Packable(st.f, 1, offset) && Packable(st.f, 2, TailSnap(st.f, offset, snap))
    ensures st.Holds(Concat(st.f, ds, 3), 3)
  {
    var snapshot := snap;
    exact := PutOne(st, 1, offset, ds);
    if !exact {
      snapshot := Snap(Pos(0, 0, SnapshotMax()));
    }
    var whole := PutOne(st, 2, snapshot, ds);
    exact := exact && whole;
  }

  function TailSnap(f: Format, offset: Word, snap: Word): Word
    requires FormatOk(f)
  {
    if Packable(f, 1, offset) then snap else Snap(Pos(0, 0, SnapshotMax()))
  }

  method PutOne(st: PackState, field: nat, v: Word, ghost ds: seq<nat>) returns (whole: bool)
    requires FormatOk(st.f) && field < |ds| == 3 && v >= st.f.offset[field] && ds[field] == Clamped(st.f, field, v)
    requires st.Holds(Concat(st.f, ds, field), field)
    modifies st, st.words
    ensures whole == Packable(st.f, field, v)
    ensures st.Holds(Concat(st.f, ds, field + 1), field + 1)
  {
    whole := st.PutLossy(field, v, Concat(st.f, ds, field));
  }

  /** The clamped position field by field, in terms of what is passed to the packing steps. */
  lemma ClampParts(f: Format, p: Pos)
    requires FormatOk(f) && f.offset[0] <= p.inode && f.offset[1] <= p.offset && f.offset[2] <= p.snapshot
    ensures var ds := PosDiffs(f, ClampPos(f, p));
            var w0 := Packable(f, 0, p.inode);
            var offset := if w0 then p.offset else OffsetMax();
            var w1 := Packable(f, 1, offset);
            var snapshot := if w0 && w1 then Snap(p) else Snap(Pos(0, 0, SnapshotMax()));
            && ds[0] == Clamped(f, 0, p.inode)
            && ds[1] == Clamped(f, 1, offset)
            && snapshot >= f.offset[2] && ds[2] == Clamped(f, 2, snapshot)
            && (ClampPos(f, p) == p <==> w0 && w1 && Packable(f, 2, snapshot))
  {
  }

  /** The clamping part of the lossy pack. */
  method PackClamped(out: array<Word>, input: Pos, f: Format) returns (exact: bool)
    requires FormatOk(f) && f.keyWords <= out.Length && forall k :: 0 <= k < f.keyWords ==> out[k] == 0
    requires f.offset[0] <= input.inode && f.offset[1] <= input.offset && f.offset[2] <= input.snapshot
    modifies out
    ensures exact <==> ClampPos(f, input) == input
    ensures HoldsPos(f, out[..f.keyWords], ClampPos(f, input))
  {
    var st := new PackState(f, out);
    exact := PutClamped(st, input);
    ghost var q := ClampPos(f, input);
    ghost var ds := PosDiffs(f, q);
    st.Finish(Concat(f, ds, 3), 3);
    ConcatFields(f, ds, out[..f.keyWords], 3);
    FieldOfRaw(f, out[..f.keyWords], 0, q.inode);
    FieldOfRaw(f, out[..f.keyWords], 1, q.offset);
    FieldOfRaw(f, out[..f.keyWords], 2, Snap(q));
    PosFromFields(f, out[..f.keyWords], q);
    StoreHeader(f, out, q);
  }
}
