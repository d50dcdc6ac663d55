/**
 The write set's lookup table: offsets of some of its keys with their positions, kept up to
 date by every insertion, replacement and deletion.  Offsets count words; a cacheline is 8.
 */
module LookupTable {
  import opened Arith
  import opened PackedKeys
  import NodeKeys

  const CacheWords: nat := 8

  datatype RunKey = RunKey(pos: Pos, u64s: nat, deleted: bool)

  datatype Entry = Entry(offset: nat, pos: Pos)

  predicate KeysOk(keys: seq<RunKey>) {
    forall i :: 0 <= i < |keys| ==> keys[i].u64s >= 1
  }

  /** Where key `i` starts, counted from the first key. */
  function Off(keys: seq<RunKey>, i: nat): nat
    requires i <= |keys|
  {
    if i == 0 then 0 else Off(keys, i - 1) + keys[i - 1].u64s
  }

  lemma {:induction false} OffOrder(keys: seq<RunKey>, i: nat, j: nat)
    requires KeysOk(keys) && i < j <= |keys|
    ensures Off(keys, i) < Off(keys, j)
  {
    if i + 1 < j {
      OffOrder(keys, i, j - 1);
    }
  }

  lemma OffIndex(keys: seq<RunKey>, i: nat, j: nat)
    requires KeysOk(keys) && i <= |keys| && j <= |keys|
    ensures Off(keys, i) < Off(keys, j) <==> i < j
    ensures Off(keys, i) == Off(keys, j) <==> i == j
  {
    if i < j {
      OffOrder(keys, i, j);
    } else if j < i {
      OffOrder(keys, j, i);
    }
  }

  predicate AtKey(first: nat, keys: seq<RunKey>, e: Entry, i: int) {
    0 <= i < |keys| && e.offset == first + Off(keys, i) && e.pos == keys[i].pos
  }

  /** The entry's offset is a key's, and its cached position that key's. */
  ghost predicate EntryOk(first: nat, keys: seq<RunKey>, e: Entry) {
    exists i :: AtKey(first, keys, e, i)
  }

  /** Entry `j` of a table is right; entry 0 caches no position. */
  ghost predicate Right(first: nat, keys: seq<RunKey>, t: seq<Entry>, j: nat)
    requires j < |t|
  {
    if j == 0 then t[0].offset == first else EntryOk(first, keys, t[j])
  }

  predicate Increasing(t: seq<Entry>) {
    forall i, j :: 0 <= i < j < |t| ==> t[i].offset < t[j].offset
  }

  ghost predicate TableOk(first: nat, keys: seq<RunKey>, t: seq<Entry>) {
    |t| >= 1 && Increasing(t) && forall j :: 0 <= j < |t| ==> Right(first, keys, t, j)
  }

  // ----- splicing keys

  /** Replace the `c` keys from index `w` by `ins`. */
  function Splice(keys: seq<RunKey>, w: nat, c: nat, ins: seq<RunKey>): seq<RunKey>
    requires w + c <= |keys|
  {
    keys[..w] + ins + keys[w + c..]
  }

  lemma {:induction false} OffPrefix(a: seq<RunKey>, b: seq<RunKey>, i: nat)
    requires i <= |a| && i <= |b| && forall k :: 0 <= k < i ==> a[k] == b[k]
    ensures Off(a, i) == Off(b, i)
  {
    if i > 0 {
      OffPrefix(a, b, i - 1);
    }
  }

  lemma {:induction false} OffShift(a: seq<RunKey>, b: seq<RunKey>, i: nat, j: nat, n: nat)
    requires i + n <= |a| && j + n <= |b| && forall k :: i <= k < i + n ==> a[k] == b[k - i + j]
    ensures Off(a, i + n) - Off(a, i) == Off(b, j + n) - Off(b, j)
  {
    if n > 0 {
      OffShift(a, b, i, j, n - 1);
    }
  }

  /** Keys before the splice keep their offsets, keys after it move by the difference in size. */
  lemma SpliceOffsets(keys: seq<RunKey>, w: nat, c: nat, ins: seq<RunKey>, i: nat)
    requires w + c <= |keys| && i <= |keys| && (i <= w || i >= w + c)
    ensures i <= w ==> Off(Splice(keys, w, c, ins), i) == Off(keys, i)
    ensures i >= w + c ==>
      var keys' := Splice(keys, w, c, ins);
      Off(keys', i - c + |ins|) == Off(keys, i) + (Off(keys', w + |ins|) - Off(keys, w + c))
  {
    var keys' := Splice(keys, w, c, ins);
    if i <= w {
      OffPrefix(keys', keys, i);
    }
    if i >= w + c {
      OffShift(keys, keys', w + c, w + |ins|, i - (w + c));
    }
  }

  // ----- entries across a splice

  /** What a splice of at most one key by at most one key does to the run. */
  datatype Edit = Edit(w: nat, clobbered: nat, ins: seq<RunKey>)

  predicate EditOk(keys: seq<RunKey>, e: Edit) {
    KeysOk(keys) && KeysOk(e.ins) && e.clobbered <= 1 && |e.ins| <= 1 && e.w + e.clobbered <= |keys|
  }

  function Apply(keys: seq<RunKey>, e: Edit): (keys': seq<RunKey>)
    requires EditOk(keys, e)
    ensures KeysOk(keys') && |keys'| == |keys| - e.clobbered + |e.ins|
  {
    Splice(keys, e.w, e.clobbered, e.ins)
  }

  function ClobberedWords(keys: seq<RunKey>, e: Edit): nat
    requires EditOk(keys, e)
  {
    if e.clobbered == 1 then keys[e.w].u64s else 0
  }

  function NewWords(e: Edit): nat { if |e.ins| == 0 then 0 else e.ins[0].u64s }

  function Shift(keys: seq<RunKey>, e: Edit): int
    requires EditOk(keys, e)
  {
    NewWords(e) - ClobberedWords(keys, e)
  }

  /** The first key behind the edit moves by the shift. */
  lemma EditShift(keys: seq<RunKey>, e: Edit)
    requires EditOk(keys, e)
    ensures Off(Apply(keys, e), e.w + |e.ins|) == Off(keys, e.w + e.clobbered) + Shift(keys, e)
  {
    var keys' := Apply(keys, e);
    SpliceOffsets(keys, e.w, e.clobbered, e.ins, e.w);
    assert |e.ins| == 1 ==> keys'[e.w] == e.ins[0];
    assert Off(keys, e.w + e.clobbered) == Off(keys, e.w) + ClobberedWords(keys, e);
    assert Off(keys', e.w + |e.ins|) == Off(keys', e.w) + NewWords(e);
  }

  lemma EditOffsets(keys: seq<RunKey>, e: Edit, i: nat)
    requires EditOk(keys, e) && i <= |keys|
    ensures i <= e.w ==> Off(Apply(keys, e), i) == Off(keys, i)
    ensures i >= e.w + e.clobbered ==> Off(Apply(keys, e), i - e.clobbered + |e.ins|) == Off(keys, i) + Shift(keys, e)
  {
    EditShift(keys, e);
    if i <= e.w || i >= e.w + e.clobbered {
      SpliceOffsets(keys, e.w, e.clobbered, e.ins, i);
    }
  }

  lemma EntryBefore(first: nat, keys: seq<RunKey>, e: Edit, x: Entry)
    requires EditOk(keys, e) && EntryOk(first, keys, x) && x.offset < first + Off(keys, e.w)
    ensures EntryOk(first, Apply(keys, e), x)
  {
    var i :| AtKey(first, keys, x, i);
    OffIndex(keys, i, e.w);
    EditOffsets(keys, e, i);
    assert AtKey(first, Apply(keys, e), x, i);
  }

  lemma EntryAfter(first: nat, keys: seq<RunKey>, e: Edit, x: Entry)
    requires EditOk(keys, e) && EntryOk(first, keys, x) && x.offset > first + Off(keys, e.w)
    ensures x.offset + Shift(keys, e) >= first + Off(keys, e.w) + NewWords(e)
    ensures EntryOk(first, Apply(keys, e), Entry(x.offset + Shift(keys, e), x.pos))
  {
    var i :| AtKey(first, keys, x, i);
    OffIndex(keys, e.w, i);
    EditOffsets(keys, e, i);
    FollowingOffset(keys, e, i);
    assert AtKey(first, Apply(keys, e), Entry(x.offset + Shift(keys, e), x.pos), i - e.clobbered + |e.ins|);
  }

  lemma FollowingOffset(keys: seq<RunKey>, e: Edit, i: nat)
    requires EditOk(keys, e) && e.w < i <= |keys|
    ensures Off(keys, i) >= Off(keys, e.w) + ClobberedWords(keys, e)
  {
    if e.w + e.clobbered < i {
      OffOrder(keys, e.w + e.clobbered, i);
    }
  }

  // ----- fixing the table, step by step

  /** Entries below `idx` already suit the edited run; those from `idx` on are old ones behind the edit. */
  ghost predicate HalfFixed(first: nat, keys: seq<RunKey>, e: Edit, t: seq<Entry>, idx: nat)
    requires EditOk(keys, e)
  {
    && 1 <= idx <= |t| && Increasing(t)
    && (forall j :: 0 <= j < idx ==> Done(first, keys, e, t, j))
    && (forall j :: idx <= j < |t| ==> Behind(first, keys, e, t, j))
  }

  ghost predicate Done(first: nat, keys: seq<RunKey>, e: Edit, t: seq<Entry>, j: nat)
    requires EditOk(keys, e) && j < |t|
  {
    Right(first, Apply(keys, e), t, j) && t[j].offset <= first + Off(keys, e.w)
  }

  ghost predicate Behind(first: nat, keys: seq<RunKey>, e: Edit, t: seq<Entry>, j: nat)
    requires EditOk(keys, e) && j < |t|
  {
    EntryOk(first, keys, t[j]) && t[j].offset > first + Off(keys, e.w)
  }

  /** An entry below the edit needs no fixing. */
  lemma BelowIsDone(first: nat, keys: seq<RunKey>, e: Edit, t: seq<Entry>, j: nat)
    requires EditOk(keys, e) && j < |t| && Right(first, keys, t, j) && t[j].offset < first + Off(keys, e.w)
    ensures Done(first, keys, e, t, j)
  {
    if j > 0 {
      EntryBefore(first, keys, e, t[j]);
    }
  }

  function Remove(t: seq<Entry>, idx: nat): seq<Entry>
    requires idx < |t|
  {
    t[..idx] + t[idx + 1..]
  }

  lemma RemoveKeeps(first: nat, keys: seq<RunKey>, e: Edit, t: seq<Entry>, idx: nat)
    requires EditOk(keys, e) && HalfFixed(first, keys, e, t, idx) && idx < |t|
    ensures HalfFixed(first, keys, e, Remove(t, idx), idx)
    ensures idx < |Remove(t, idx)| ==> Remove(t, idx)[idx].offset > t[idx].offset
  {
    var t' := Remove(t, idx);
    forall j | 0 <= j < idx
      ensures Done(first, keys, e, t', j)
    {
      assert Done(first, keys, e, t, j) && t'[j] == t[j];
    }
    forall j | idx <= j < |t'|
      ensures Behind(first, keys, e, t', j)
    {
      assert Behind(first, keys, e, t, j + 1) && t'[j] == t[j + 1];
    }
  }

  /** Entries from `idx` on, moved by `shift`. */
  function ShiftFrom(t: seq<Entry>, idx: nat, shift: int): (t': seq<Entry>)
    requires idx <= |t| && forall j :: idx <= j < |t| ==> t[j].offset + shift >= 0
    ensures |t'| == |t|
    ensures forall j :: 0 <= j < |t| ==> t'[j] == if j < idx then t[j] else Entry(t[j].offset + shift, t[j].pos)
  {
    seq(|t|, j requires 0 <= j < |t| => if j < idx then t[j] else Entry(t[j].offset + shift, t[j].pos))
  }

  lemma BehindMoves(first: nat, keys: seq<RunKey>, e: Edit, t: seq<Entry>, idx: nat, j: nat)
    requires EditOk(keys, e) && HalfFixed(first, keys, e, t, idx) && idx <= j < |t|
    ensures t[j].offset + Shift(keys, e) >= first + Off(keys, e.w) + NewWords(e)
    ensures EntryOk(first, Apply(keys, e), Entry(t[j].offset + Shift(keys, e), t[j].pos))
  {
    assert Behind(first, keys, e, t, j);
    EntryAfter(first, keys, e, t[j]);
  }

  lemma ShiftFixes(first: nat, keys: seq<RunKey>, e: Edit, t: seq<Entry>, idx: nat)
    requires EditOk(keys, e) && HalfFixed(first, keys, e, t, idx)
    requires idx < |t| ==> t[idx].offset + Shift(keys, e) > t[idx - 1].offset
    ensures forall j :: idx <= j < |t| ==> t[j].offset + Shift(keys, e) >= 0
    ensures TableOk(first, Apply(keys, e), ShiftFrom(t, idx, Shift(keys, e)))
  {
    forall j | idx <= j < |t|
      ensures t[j].offset + Shift(keys, e) >= 0
    {
      BehindMoves(first, keys, e, t, idx, j);
    }
    var t' := ShiftFrom(t, idx, Shift(keys, e));
    forall j | 0 <= j < |t|
      ensures Right(first, Apply(keys, e), t', j)
    {
      if j < idx {
        assert Done(first, keys, e, t, j);
      } else {
        BehindMoves(first, keys, e, t, idx, j);
      }
    }
  }

  /** Moved entries cannot pass the entry before them; only a deletion can make the first of them meet it. */
  lemma ShiftMeets(first: nat, keys: seq<RunKey>, e: Edit, t: seq<Entry>, idx: nat)
    requires EditOk(keys, e) && HalfFixed(first, keys, e, t, idx) && idx < |t|
    ensures t[idx].offset + Shift(keys, e) >= t[idx - 1].offset
  {
    BehindMoves(first, keys, e, t, idx, idx);
    assert Done(first, keys, e, t, idx - 1);
  }

  /** The first key at or after an offset. */
  function IndexOf(keys: seq<RunKey>, off: nat, i: nat): (r: nat)
    requires i <= |keys|
    ensures i <= r <= |keys| && (r < |keys| ==> Off(keys, r) >= off)
    ensures forall k :: i <= k < r ==> Off(keys, k) < off
    decreases |keys| - i
  {
    if i == |keys| || Off(keys, i) >= off then i else IndexOf(keys, off, i + 1)
  }

  lemma IndexOfOff(keys: seq<RunKey>, i: nat)
    requires KeysOk(keys) && i <= |keys|
    ensures IndexOf(keys, Off(keys, i), 0) == i
  {
    var r := IndexOf(keys, Off(keys, i), 0);
    OffIndex(keys, r, i);
  }

  lemma RightIndex(first: nat, keys: seq<RunKey>, t: seq<Entry>, j: nat) returns (i: nat)
    requires KeysOk(keys) && j < |t| && Right(first, keys, t, j)
    ensures i <= |keys| && t[j].offset == first + Off(keys, i) && i == IndexOf(keys, t[j].offset - first, 0)
    ensures j > 0 ==> i < |keys| && t[j].pos == keys[i].pos
  {
    if j == 0 {
      i := 0;
    } else {
      i :| AtKey(first, keys, t[j], i);
    }
    IndexOfOff(keys, i);
  }

  function InsertAt(t: seq<Entry>, idx: nat, x: Entry): seq<Entry>
    requires idx <= |t|
  {
    t[..idx] + [x] + t[idx..]
  }

  lemma InsertKeeps(first: nat, keys: seq<RunKey>, t: seq<Entry>, idx: nat, i: nat)
    requires TableOk(first, keys, t) && 1 <= idx <= |t| && i < |keys|
    requires t[idx - 1].offset < first + Off(keys, i) && (idx < |t| ==> first + Off(keys, i) < t[idx].offset)
    ensures TableOk(first, keys, InsertAt(t, idx, Entry(first + Off(keys, i), keys[i].pos)))
  {
    var x := Entry(first + Off(keys, i), keys[i].pos);
    var t' := InsertAt(t, idx, x);
    InsertIncreasing(t, idx, x);
    assert AtKey(first, keys, x, i);
    forall j | 0 <= j < |t'|
      ensures Right(first, keys, t', j)
    {
      InsertRight(first, keys, t, idx, x, j);
    }
  }

  lemma InsertRight(first: nat, keys: seq<RunKey>, t: seq<Entry>, idx: nat, x: Entry, j: nat)
    requires TableOk(first, keys, t) && 1 <= idx <= |t| && EntryOk(first, keys, x) && j <= |t|
    ensures Right(first, keys, InsertAt(t, idx, x), j)
  {
    assert j < idx ==> Right(first, keys, t, j);
    assert j > idx ==> Right(first, keys, t, j - 1);
  }

  lemma InsertIncreasing(t: seq<Entry>, idx: nat, x: Entry)
    requires Increasing(t) && 1 <= idx <= |t| && t[idx - 1].offset < x.offset
    requires (idx < |t| ==> x.offset < t[idx].offset)
    ensures Increasing(InsertAt(t, idx, x))
  {
    var t' := InsertAt(t, idx, x);
    forall i, j | 0 <= i < j < |t'|
      ensures t'[i].offset < t'[j].offset
    {
      assert t'[i] == if i < idx then t[i] else if i == idx then x else t[i - 1];
      assert t'[j] == if j < idx then t[j] else if j == idx then x else t[j - 1];
    }
  }

  lemma EntryKeyBefore(first: nat, keys: seq<RunKey>, t: seq<Entry>, j: nat, k: nat)
    requires KeysOk(keys) && TableOk(first, keys, t) && j < |t| && k <= |keys| && t[j].offset < first + Off(keys, k)
    ensures t[j].offset >= first
    ensures var p := IndexOf(keys, t[j].offset - first, 0); p < k && t[j].offset == first + Off(keys, p)
  {
    assert Right(first, keys, t, j);
    var i := RightIndex(first, keys, t, j);
    OffIndex(keys, i, k);
  }

  /** Every entry is still there, behind the edit moved with its key, but for one whose key was the last and is gone. */
  ghost predicate EntriesKept(was: seq<Entry>, now: seq<Entry>, at: nat, end: nat, shift: int) {
    forall j :: 0 <= j < |was| && (j == 0 || was[j].offset != at || at < end) ==>
      HasOffset(now, if was[j].offset <= at then was[j].offset else was[j].offset + shift)
  }

  lemma KeptMore(was: seq<Entry>, mid: seq<Entry>, now: seq<Entry>, at: nat, end: nat, shift: int)
    requires EntriesKept(was, mid, at, end, shift) && forall o :: HasOffset(mid, o) ==> HasOffset(now, o)
    ensures EntriesKept(was, now, at, end, shift)
  {
  }

  lemma PrefixKept(was: seq<Entry>, mid: seq<Entry>, at: nat, end: nat, shift: int)
    requires 1 <= |mid| <= |was| <= |mid| + 1 && mid == was[..|mid|]
    requires forall j :: 0 <= j < |mid| ==> was[j].offset < at
    requires |mid| < |was| ==> was[|mid|].offset == at == end
    ensures EntriesKept(was, mid, at, end, shift)
  {
    forall j | 0 <= j < |mid|
      ensures HasOffset(mid, was[j].offset)
    {
      assert mid[j] == was[j];
    }
  }

  lemma ShiftHas(was: seq<Entry>, t: seq<Entry>, now: seq<Entry>, idx: nat, shift: int)
    requires 1 <= idx <= |t| && idx <= |was| && forall j :: idx <= j < |t| ==> t[j].offset + shift >= 0
    requires t == was || (idx < |was| && t == Remove(was, idx) && was[idx].offset + shift == was[idx - 1].offset)
    requires now == ShiftFrom(t, idx, shift)
    ensures forall j :: 0 <= j < |was| ==> HasOffset(now, if j < idx then was[j].offset else was[j].offset + shift)
  {
    forall j | 0 <= j < |was|
      ensures HasOffset(now, if j < idx then was[j].offset else was[j].offset + shift)
    {
      if j < idx || t == was {
        assert now[j].offset == if j < idx then was[j].offset else was[j].offset + shift;
      } else if j == idx {
        assert now[idx - 1].offset == was[idx - 1].offset;
      } else {
        assert now[j - 1].offset == was[j].offset + shift;
      }
    }
  }

  lemma ShiftKept(was: seq<Entry>, mid: seq<Entry>, now: seq<Entry>, idx: nat, at: nat, end: nat, shift: int)
    requires |mid| == |was| && idx <= |was| && forall j :: 0 <= j < |was| ==> mid[j].offset == was[j].offset
    requires forall j :: 0 <= j < |was| ==> (j < idx <==> was[j].offset <= at)
    requires forall j :: 0 <= j < |mid| ==> HasOffset(now, if j < idx then mid[j].offset else mid[j].offset + shift)
    ensures EntriesKept(was, now, at, end, shift)
  {
  }

  predicate HasOffset(t: seq<Entry>, o: int) {
    exists j :: 0 <= j < |t| && t[j].offset == o
  }

  lemma InsertHas(t: seq<Entry>, idx: nat, x: Entry)
    requires idx <= |t|
    ensures forall o :: HasOffset(t, o) ==> HasOffset(InsertAt(t, idx, x), o)
  {
    forall o | HasOffset(t, o)
      ensures HasOffset(InsertAt(t, idx, x), o)
    {
      var j :| 0 <= j < |t| && t[j].offset == o;
      assert InsertAt(t, idx, x)[if j < idx then j else j + 1] == t[j];
    }
  }

  /** Key `k` is the first a cacheline or more into the stretch before entry `idx`. */
  predicate IsSplit(first: nat, keys: seq<RunKey>, t: seq<Entry>, idx: nat, k: int) {
    && 1 <= idx <= |t| && 0 <= k < |keys|
    && t[idx - 1].offset + CacheWords <= first + Off(keys, k)
    && (idx < |t| ==> first + Off(keys, k) < t[idx].offset)
    && forall i :: 0 <= i < k ==> first + Off(keys, i) < t[idx - 1].offset + CacheWords
  }

  ghost predicate SplitTo(first: nat, keys: seq<RunKey>, capacity: nat, was: seq<Entry>, now: seq<Entry>, idx: nat) {
    || (now == was && (|was| == capacity || forall k :: !IsSplit(first, keys, was, idx, k)))
    || exists k :: SplitAt(first, keys, was, now, idx, k)
  }

  predicate SplitAt(first: nat, keys: seq<RunKey>, was: seq<Entry>, now: seq<Entry>, idx: nat, k: int) {
    IsSplit(first, keys, was, idx, k) && now == InsertAt(was, idx, Entry(first + Off(keys, k), keys[k].pos))
  }

  lemma SplitHas(first: nat, keys: seq<RunKey>, capacity: nat, was: seq<Entry>, now: seq<Entry>, idx: nat)
    requires SplitTo(first, keys, capacity, was, now, idx)
    ensures forall o :: HasOffset(was, o) ==> HasOffset(now, o)
  {
    if k :| SplitAt(first, keys, was, now, idx, k) {
      InsertHas(was, idx, Entry(first + Off(keys, k), keys[k].pos));
    }
  }

  /** A stretch of a cacheline or less has no such key. */
  lemma NoSplit(first: nat, keys: seq<RunKey>, t: seq<Entry>, idx: nat, end: nat)
    requires KeysOk(keys) && 1 <= idx <= |t| && end <= t[idx - 1].offset + CacheWords
    requires end == if idx < |t| then t[idx].offset else first + Off(keys, |keys|)
    ensures forall k :: !IsSplit(first, keys, t, idx, k)
  {
    forall k | 0 <= k < |keys|
      ensures !IsSplit(first, keys, t, idx, k)
    {
      OffOrder(keys, k, |keys|);
    }
  }

  lemma SplitIff(first: nat, keys: seq<RunKey>, t: seq<Entry>, idx: nat, i: nat, n: nat, found: bool, k: nat)
    requires KeysOk(keys) && 1 <= idx <= |t| && i <= n <= |keys| && t[idx - 1].offset == first + Off(keys, i)
    requires first + Off(keys, n) == if idx < |t| then t[idx].offset else first + Off(keys, |keys|)
    requires found ==> i < k < n && first + Off(keys, k) >= t[idx - 1].offset + CacheWords
    requires found ==> forall m :: i < m < k ==> first + Off(keys, m) < t[idx - 1].offset + CacheWords
    requires !found ==> forall m :: i < m < n ==> first + Off(keys, m) < t[idx - 1].offset + CacheWords
    ensures found ==> IsSplit(first, keys, t, idx, k)
    ensures !found ==> forall m :: !IsSplit(first, keys, t, idx, m)
  {
    if found {
      OffIndex(keys, k, n);
      forall m | 0 <= m < k
        ensures first + Off(keys, m) < t[idx - 1].offset + CacheWords
      {
        OffIndex(keys, m, i);
      }
    } else {
      forall m | 0 <= m < |keys|
        ensures !IsSplit(first, keys, t, idx, m)
      {
        OffIndex(keys, m, i);
        OffIndex(keys, m, n);
        OffIndex(keys, n, |keys|);
      }
    }
  }

  /** The keys at which the stretch before entry `idx` starts and ends. */
  lemma Stretch(first: nat, keys: seq<RunKey>, t: seq<Entry>, idx: nat) returns (i: nat, n: nat)
    requires KeysOk(keys) && TableOk(first, keys, t) && 1 <= idx <= |t|
    ensures i <= n <= |keys| && t[idx - 1].offset == first + Off(keys, i)
    ensures i == IndexOf(keys, t[idx - 1].offset - first, 0)
    ensures first + Off(keys, n) == if idx < |t| then t[idx].offset else first + Off(keys, |keys|)
  {
    assert Right(first, keys, t, idx - 1);
    i := RightIndex(first, keys, t, idx - 1);
    n := |keys|;
    if idx < |t| {
      assert Right(first, keys, t, idx);
      n := RightIndex(first, keys, t, idx);
      OffIndex(keys, i, n);
    }
  }

  // ----- the cases of the fix-up

  /** An edit moves nothing before its place, which is in the run or at its end. */
  lemma EditPlace(keys: seq<RunKey>, e: Edit)
    requires EditOk(keys, e)
    ensures e.w <= |Apply(keys, e)| && Off(Apply(keys, e), e.w) == Off(keys, e.w)
    ensures Off(Apply(keys, e), e.w) <= Off(Apply(keys, e), |Apply(keys, e)|)
  {
    EditOffsets(keys, e, e.w);
    OffIndex(Apply(keys, e), e.w, |Apply(keys, e)|);
  }

  lemma LastIsMost(t: seq<Entry>)
    requires Increasing(t) && |t| >= 1
    ensures forall j :: 0 <= j < |t| ==> t[j].offset <= t[|t| - 1].offset
  {
  }

  /** The edit lies behind the last entry. */
  lemma AllBelow(first: nat, keys: seq<RunKey>, e: Edit, t: seq<Entry>)
    requires EditOk(keys, e) && TableOk(first, keys, t) && first + Off(keys, e.w) > t[|t| - 1].offset
    ensures TableOk(first, Apply(keys, e), t)
  {
    forall j | 0 <= j < |t|
      ensures Right(first, Apply(keys, e), t, j)
    {
      assert j < |t| - 1 ==> t[j].offset < t[|t| - 1].offset;
      BelowIsDone(first, keys, e, t, j);
      assert Done(first, keys, e, t, j);
    }
  }

  /** The edit is at entry 0, or at no entry. */
  lemma NoEntryToSet(first: nat, keys: seq<RunKey>, e: Edit, t: seq<Entry>, idx: nat)
    requires EditOk(keys, e) && TableOk(first, keys, t) && 1 <= idx <= |t|
    requires forall k :: 0 <= k < idx ==>
      t[k].offset < first + Off(keys, e.w) || (k == 0 && t[k].offset == first + Off(keys, e.w))
    requires forall k :: idx <= k < |t| ==> t[k].offset > first + Off(keys, e.w)
    ensures HalfFixed(first, keys, e, t, idx)
  {
    forall j | 0 <= j < |t|
      ensures if j < idx then Done(first, keys, e, t, j) else Behind(first, keys, e, t, j)
    {
      assert Right(first, keys, t, j);
      if j < idx && t[j].offset < first + Off(keys, e.w) {
        BelowIsDone(first, keys, e, t, j);
      }
    }
  }

  /** The edit is at an entry, which now stands for the key that took its place. */
  lemma EntrySet(first: nat, keys: seq<RunKey>, e: Edit, t: seq<Entry>, idx: nat)
    requires EditOk(keys, e) && TableOk(first, keys, t) && 1 <= idx < |t| && t[idx].offset == first + Off(keys, e.w)
    requires e.w < |Apply(keys, e)|
    ensures HalfFixed(first, keys, e, t[idx := Entry(t[idx].offset, Apply(keys, e)[e.w].pos)], idx + 1)
  {
    var t' := t[idx := Entry(t[idx].offset, Apply(keys, e)[e.w].pos)];
    EditOffsets(keys, e, e.w);
    assert AtKey(first, Apply(keys, e), t'[idx], e.w);
    forall j | 0 <= j < |t|
      ensures if j <= idx then Done(first, keys, e, t', j) else Behind(first, keys, e, t', j)
    {
      assert Right(first, keys, t, j);
      if j < idx {
        BelowIsDone(first, keys, e, t', j);
      }
    }
  }

  /** The edit deleted the last key, and with it the last entry's. */
  lemma LastEntryGone(first: nat, keys: seq<RunKey>, e: Edit, t: seq<Entry>, idx: nat)
    requires EditOk(keys, e) && TableOk(first, keys, t) && 1 <= idx < |t| && t[idx].offset == first + Off(keys, e.w)
    requires e.w == |Apply(keys, e)|
    ensures idx == |t| - 1 && TableOk(first, Apply(keys, e), t[..|t| - 1])
  {
    if idx < |t| - 1 {
      assert Right(first, keys, t, |t| - 1);
      var i := RightIndex(first, keys, t, |t| - 1);
      OffIndex(keys, e.w, i);
    }
    var t' := t[..|t| - 1];
    forall j | 0 <= j < |t'|
      ensures Right(first, Apply(keys, e), t', j)
    {
      assert Right(first, keys, t, j) && t'[j] == t[j];
      BelowIsDone(first, keys, e, t', j);
      assert Done(first, keys, e, t', j);
    }
  }

  lemma GuessInRange(x: nat, n: nat, words: nat)
    requires x <= words && words > 0
    ensures 0 <= x * n / words <= n
  {
    MulMonotone(x, words, n, n);
    DivMonotone(x * n, words * n, words);
    DivUnique(words * n, words, n, 0);
  }

  /** The number of entries below an offset: a proportional guess, then a walk up and a walk down. */
  method BsearchIn(first: nat, end: nat, table: seq<Entry>, offset: nat) returns (idx: nat)
    requires first <= offset <= end && Increasing(table)
    ensures idx <= |table|
    ensures forall k :: 0 <= k < idx ==> table[k].offset < offset
    ensures forall k :: idx <= k < |table| ==> table[k].offset >= offset
  {
    var words := end - first;
    if words > 0 {
      GuessInRange(offset - first, |table|, words);
    }
    idx := if words != 0 then (offset - first) * |table| / words else 0;
    while idx < |table| && table[idx].offset < offset
      invariant idx <= |table|
    {
      idx := idx + 1;
    }
    while idx != 0 && table[idx - 1].offset >= offset
      invariant idx <= |table| && (idx < |table| ==> table[idx].offset >= offset)
    {
      idx := idx - 1;
    }
  }

  /** The last entry below the offset of key `k`; it leads to an earlier key. */
  method PrevEntry(
    first: nat, ghost keys: seq<RunKey>, table: seq<Entry>, ghost k: nat, offset: nat, end: nat)
    returns (off: nat)
    requires KeysOk(keys) && TableOk(first, keys, table) && 0 < k <= |keys|
    requires offset == first + Off(keys, k) && end == first + Off(keys, |keys|)
    ensures off >= first && exists j :: 0 <= j < |table| && table[j].offset == off
    ensures var p := IndexOf(keys, off - first, 0); p < k && off == first + Off(keys, p)
    ensures forall j :: 0 <= j < |table| && table[j].offset < offset ==> table[j].offset <= off
  {
    OffOrder(keys, 0, k);
    OffIndex(keys, k, |keys|);
    var j := BsearchIn(first, end, table, offset);
    assert Right(first, keys, table, 0);
    EntryKeyBefore(first, keys, table, j - 1, k);
    off := table[j - 1].offset;
  }

  class WriteSet {
    const first: nat
    const capacity: nat
    var keys: seq<RunKey>
    var table: seq<Entry>

    ghost predicate Valid()
      reads this
    {
      KeysOk(keys) && TableOk(first, keys, table) && |table| <= capacity
    }

    function End(): nat
      reads this
    {
      first + Off(keys, |keys|)
    }

    /** The number of entries below an offset: a proportional guess, then a walk up and a walk down. */
    method Bsearch(offset: nat) returns (idx: nat)
      requires first <= offset <= End() && Increasing(table)
      ensures idx <= |table|
      ensures forall k :: 0 <= k < idx ==> table[k].offset < offset
      ensures forall k :: idx <= k < |table| ==> table[k].offset >= offset
    {
      idx := BsearchIn(first, End(), table, offset);
    }

    /** The nearest key with an entry before key `k`. */
    method Prev(k: nat) returns (p: nat)
      requires Valid() && 0 < k <= |keys|
      ensures p < k && exists j :: 0 <= j < |table| && table[j].offset == first + Off(keys, p)
      ensures forall j :: 0 <= j < |table| && table[j].offset < first + Off(keys, k) ==>
        table[j].offset <= first + Off(keys, p)
    {
      var off := PrevEntry(first, keys, table, k, first + Off(keys, k), End());
      p := IndexOf(keys, off - first, 0);
    }

    /**
     Split the stretch before entry `idx` at the first key a cacheline or more into it.  Without
     such a key, or without room for an entry, nothing changes.
     */
    method InsertEntry(idx: nat)
      requires Valid() && 1 <= idx <= |table|
      modifies this`table
      ensures Valid()
      ensures SplitTo(first, keys, capacity, old(table), table, idx)
    {
      var start := table[idx - 1].offset;
      var end := if idx < |table| then table[idx].offset else End();
      if |table| < capacity {
        if end - start > CacheWords {
          ghost var i, n := Stretch(first, keys, table, idx);
          var found, k := FindSplit(IndexOf(keys, start - first, 0), start, end, n);
          SplitIff(first, keys, table, idx, i, n, found, k);
          if found {
            InsertKeeps(first, keys, table, idx, k);
            table := InsertAt(table, idx, Entry(first + Off(keys, k), keys[k].pos));
            assert SplitAt(first, keys, old(table), table, idx, k);
          }
        } else {
          NoSplit(first, keys, table, idx, end);
        }
      }
    }

    /** The first key between two key offsets that is a cacheline or more behind the first of them. */
    method FindSplit(from: nat, start: nat, end: nat, ghost n: nat) returns (found: bool, k: nat)
      requires KeysOk(keys) && from <= n <= |keys| && start == first + Off(keys, from) && end == first + Off(keys, n)
      requires start < end
      ensures found ==> from < k < n && first + Off(keys, k) >= start + CacheWords && start < first + Off(keys, k) < end
      ensures found ==> forall i :: from < i < k ==> first + Off(keys, i) < start + CacheWords
      ensures !found ==> forall i :: from < i < n ==> first + Off(keys, i) < start + CacheWords
    {
      OffIndex(keys, from, n);
      k := from;
      while true
        invariant from <= k < n
        invariant forall i :: from < i <= k ==> first + Off(keys, i) < start + CacheWords
        decreases n - k
      {
        k := k + 1;
        OffIndex(keys, k, n);
        if first + Off(keys, k) == end {
          return false, k;
        }
        if first + Off(keys, k) - start >= CacheWords {
          OffIndex(keys, from, k);
          return true, k;
        }
      }
    }

    /** Bring the table up to date after an edit of the run at key `w`. */
    method Fix(w: nat, clobbered: nat, added: nat, ghost e: Edit, ghost before: seq<RunKey>)
      requires EditOk(before, e) && keys == Apply(before, e) && TableOk(first, before, table) && |table| <= capacity
      requires w == e.w && clobbered == ClobberedWords(before, e) && added == NewWords(e)
      modifies this`table
      ensures Valid()
      ensures EntriesKept(old(table), table, first + Off(keys, w), End(), added - clobbered)
    {
      var where_ := first + Off(keys, w);
      EditPlace(before, e);
      if where_ > table[|table| - 1].offset {
        AllBelow(first, before, e, table);
        LastIsMost(table);
        assert table == old(table)[..|table|];
        AppendEntry(old(table), where_, added - clobbered);
      } else {
        FixWithin(w, where_, added - clobbered, e, before);
      }
    }

    method FixWithin(w: nat, at: nat, shift: int, ghost e: Edit, ghost before: seq<RunKey>)
      requires EditOk(before, e) && keys == Apply(before, e) && TableOk(first, before, table) && |table| <= capacity
      requires w == e.w <= |keys| && at == first + Off(keys, w) == first + Off(before, w) && shift == Shift(before, e)
      requires at <= table[|table| - 1].offset && at <= End()
      modifies this`table
      ensures Valid() && EntriesKept(old(table), table, at, End(), shift)
    {
      var idx, gone := SetEntry(w, at, e, before);
      if gone {
        AppendEntry(old(table), at, shift);
      } else {
        FixTail(idx, shift, e, before, old(table), at);
      }
    }

    /** Move what lies behind the edit and split the stretch it is in. */
    method FixTail(
      idx: nat, shift: int, ghost e: Edit, ghost before: seq<RunKey>, ghost was: seq<Entry>, ghost at: nat)
      requires EditOk(before, e) && keys == Apply(before, e) && HalfFixed(first, before, e, table, idx)
      requires |table| <= capacity && shift == Shift(before, e) && |table| == |was|
      requires forall j :: 0 <= j < |table| ==>
        table[j].offset == was[j].offset && (j < idx <==> table[j].offset <= at)
      modifies this`table
      ensures Valid() && EntriesKept(was, table, at, End(), shift)
    {
      ghost var mid := table;
      ShiftTail(shift, e, before, idx);
      ShiftKept(was, mid, table, idx, at, End(), shift);
      mid := table;
      InsertEntry(idx);
      SplitHas(first, keys, capacity, mid, table, idx);
      KeptMore(was, mid, table, at, End(), shift);
    }

    /** Let an entry at the edit stand for the key that took its place; drop it if there is none. */
    method SetEntry(w: nat, at: nat, ghost e: Edit, ghost before: seq<RunKey>) returns (idx: nat, gone: bool)
      requires EditOk(before, e) && keys == Apply(before, e) && TableOk(first, before, table) && |table| <= capacity
      requires w == e.w <= |keys| && at == first + Off(keys, w) == first + Off(before, w)
      requires at <= table[|table| - 1].offset && at <= End()
      modifies this`table
      ensures !gone ==> HalfFixed(first, before, e, table, idx) && |table| == |old(table)|
      ensures !gone ==> forall j :: 0 <= j < |table| ==>
        table[j].offset == old(table)[j].offset && (j < idx <==> table[j].offset <= at)
      ensures gone ==> Valid() && |table| + 1 == |old(table)| && table == old(table)[..|table|]
      ensures gone ==> forall j :: 0 <= j < |table| ==> table[j].offset < at
      ensures gone ==> old(table)[|table|].offset == at == End()
    {
      assert Right(first, before, table, 0);
      idx := Bsearch(at);
      gone := false;
      if table[idx].offset == at {
        if idx == 0 {
          idx := 1;
          NoEntryToSet(first, before, e, table, idx);
        } else if at < End() {
          OffIndex(keys, w, |keys|);
          EntrySet(first, before, e, table, idx);
          table := table[idx := Entry(at, keys[w].pos)];
          idx := idx + 1;
        } else {
          OffIndex(keys, w, |keys|);
          LastEntryGone(first, before, e, table, idx);
          table := table[..|table| - 1];
          gone := true;
        }
      } else {
        NoEntryToSet(first, before, e, table, idx);
      }
    }

    /** The edit left at most the last entry behind. */
    method AppendEntry(ghost was: seq<Entry>, ghost at: nat, ghost shift: int)
      requires Valid() && |table| <= |was| <= |table| + 1 && table == was[..|table|]
      requires forall j :: 0 <= j < |table| ==> was[j].offset < at
      requires |table| < |was| ==> was[|table|].offset == at == End()
      modifies this`table
      ensures Valid() && EntriesKept(was, table, at, End(), shift)
    {
      ghost var mid := table;
      PrefixKept(was, mid, at, End(), shift);
      InsertEntry(|table|);
      SplitHas(first, keys, capacity, mid, table, |mid|);
      KeptMore(was, mid, table, at, End(), shift);
    }

    /** Drop an entry that would meet its predecessor, and move the rest. */
    method ShiftTail(shift: int, ghost e: Edit, ghost before: seq<RunKey>, idx: nat)
      requires EditOk(before, e) && keys == Apply(before, e) && HalfFixed(first, before, e, table, idx)
      requires |table| <= capacity
      requires shift == Shift(before, e)
      modifies this`table
      ensures Valid() && idx <= |table|
      ensures forall j :: 0 <= j < |old(table)| ==>
        HasOffset(table, if j < idx then old(table)[j].offset else old(table)[j].offset + shift)
    {
      if idx < |table| {
        ShiftMeets(first, before, e, table, idx);
        if table[idx].offset + shift == table[idx - 1].offset {
          RemoveKeeps(first, before, e, table, idx);
          table := Remove(table, idx);
        }
      }
      ShiftFixes(first, before, e, table, idx);
      ghost var t := table;
      MoveFrom(idx, shift);
      ShiftHas(old(table), t, table, idx, shift);
    }

    method MoveFrom(idx: nat, shift: int)
      requires idx <= |table| && forall j :: idx <= j < |table| ==> table[j].offset + shift >= 0
      modifies this`table
      ensures table == ShiftFrom(old(table), idx, shift)
    {
      ghost var t := table;
      var j := idx;
      while j < |table|
        invariant idx <= j <= |t| && |table| == |t|
        invariant forall k :: 0 <= k < j ==> table[k] == ShiftFrom(t, idx, shift)[k]
        invariant forall k :: j <= k < |t| ==> table[k] == t[k]
      {
        table := table[j := Entry(table[j].offset + shift, table[j].pos)];
        j := j + 1;
      }
    }

    /**
     Put `key` at index `w`, over the key there if `clobber`.  The table stays right, except
     exactly when a key with an entry of its own is replaced by one of the same size at another
     position: the fix-up is skipped for equal sizes.
     */
    method Insert(w: nat, key: RunKey, clobber: bool)
      requires Valid() && key.u64s >= 1 && w <= |keys| && (clobber ==> w < |keys|)
      modifies this
      ensures keys == Splice(old(keys), w, if clobber then 1 else 0, [key])
      ensures clobber && key.u64s == old(keys)[w].u64s ==> table == old(table)
      ensures Valid() <==>
        !(clobber && key.u64s == old(keys)[w].u64s && key.pos != old(keys)[w].pos && old(HasEntry(w)))
    {
      ghost var before := keys;
      ghost var e := Edit(w, if clobber then 1 else 0, [key]);
      var clobbered := if clobber then keys[w].u64s else 0;
      keys := keys[..w] + [key] + keys[if clobber then w + 1 else w..];
      assert keys == Apply(before, e);
      if key.u64s != clobbered {
        Fix(w, clobbered, key.u64s, e, before);
      } else {
        assert keys == before[w := key];
        if j :| key.pos != before[w].pos && IsEntryOf(first, before, table, w, j) {
          SameSizeBreaks(first, before, w, key, table, j);
        } else {
          SameSizeKeeps(first, before, w, key, table);
        }
      }
    }

    /**
     A committed key goes where a search for its position stops, over a live key at that very
     position if there is one; a deletion takes that key out.  So the run changes as a map from
     positions to live keys would, and the table stays right and the run sorted, always.
     */
    method Commit(key: RunKey)
      requires Valid() && Sorted(keys) && key.u64s >= 1
      modifies this
      ensures Valid() && Sorted(keys)
      ensures exists m :: IsScan(old(keys), m, key.pos) && Replaced(old(keys), keys, m, key)
      ensures !key.deleted ==> exists m: nat :: IsScan(keys, m, key.pos) && m < |keys| && keys[m] == key
      ensures forall k: RunKey :: Live(keys, k) <==>
        if k.pos == key.pos then k == key && !key.deleted else Live(old(keys), k)
    {
      var m := Search(first, keys, table, key.pos);
      ghost var was := keys;
      if m < |keys| && keys[m].pos == key.pos {
        if key.deleted {
          Delete(m);
        } else {
          Insert(m, key, true);
        }
      } else if !key.deleted {
        Insert(m, key, false);
      }
      CommitSorted(was, keys, m, key);
      CommitLive(was, keys, m, key);
    }

    /** Entry `j >= 1` exists for key `w`. */
    ghost predicate HasEntry(w: nat)
      reads this
      requires w <= |keys|
    {
      exists j :: IsEntryOf(first, keys, table, w, j)
    }

    method Delete(w: nat)
      requires Valid() && w < |keys|
      modifies this
      ensures keys == Splice(old(keys), w, 1, [])
      ensures Valid()
    {
      ghost var before := keys;
      ghost var e := Edit(w, 1, []);
      var clobbered := keys[w].u64s;
      keys := keys[..w] + keys[w + 1..];
      assert keys == Apply(before, e);
      Fix(w, clobbered, 0, e, before);
    }
  }

  // ----- searching

  predicate Before(k: RunKey, search: Pos) {
    Precedes(k.pos, k.deleted, search)
  }

  predicate InOrder(k: RunKey, l: RunKey) {
    Precedes(k.pos, k.deleted, l.pos)
  }

  predicate Sorted(keys: seq<RunKey>) {
    forall i, j :: 0 <= i < j < |keys| ==> InOrder(keys[i], keys[j])
  }

  /** Where a scan from the first key stops. */
  predicate IsScan(keys: seq<RunKey>, r: nat, search: Pos) {
    r <= |keys| && (forall k :: 0 <= k < r ==> Before(keys[k], search)) && (r < |keys| ==> !Before(keys[r], search))
  }

  predicate Live(keys: seq<RunKey>, k: RunKey) { k in keys && !k.deleted }

  /** The keys a commit of `key` at index `m` leaves behind it: all but a live one at the very position. */
  function Kept(was: seq<RunKey>, m: nat, key: RunKey): seq<RunKey>
    requires m <= |was|
  {
    if m < |was| && was[m].pos == key.pos && !was[m].deleted then was[m + 1..] else was[m..]
  }

  /** The keys before and behind index `m` stay, and between them stands the new key unless it is a deletion. */
  predicate Replaced(was: seq<RunKey>, now: seq<RunKey>, m: nat, key: RunKey) {
    && m <= |was| && m <= |now| && now[..m] == was[..m]
    && if key.deleted then now[m..] == Kept(was, m, key)
       else m < |now| && now[m] == key && now[m + 1..] == Kept(was, m, key)
  }

  lemma {:induction false} CommitSorted(was: seq<RunKey>, now: seq<RunKey>, m: nat, key: RunKey)
    requires Sorted(was) && IsScan(was, m, key.pos) && Replaced(was, now, m, key)
    ensures Sorted(now)
    ensures !key.deleted ==> IsScan(now, m, key.pos)
  {
    KeptAfter(was, m, key);
    SpliceSorted(was, m, |was| - |Kept(was, m, key)|, key, key.deleted);
    ReplacedIsSplice(was, now, m, key);
    if !key.deleted {
      ReplacedScan(was, now, m, key);
    }
  }

  /** What is kept behind a committed key is at later positions. */
  lemma KeptAfter(was: seq<RunKey>, m: nat, key: RunKey)
    requires Sorted(was) && IsScan(was, m, key.pos)
    ensures m <= |was| - |Kept(was, m, key)|
    ensures forall j :: |was| - |Kept(was, m, key)| <= j < |was| ==> PosCmp(key.pos, was[j].pos) < 0
  {
    forall j | |was| - |Kept(was, m, key)| <= j < |was|
      ensures PosCmp(key.pos, was[j].pos) < 0
    {
      AfterKey(was, m, key, j);
    }
  }

  lemma ReplacedIsSplice(was: seq<RunKey>, now: seq<RunKey>, m: nat, key: RunKey)
    requires Replaced(was, now, m, key)
    ensures now == Splice(was, m, |was| - |Kept(was, m, key)| - m, if key.deleted then [] else [key])
  {
    var a, kept := was[..m], Kept(was, m, key);
    NowParts(now, m);
    Regroup(a, key, kept);
    KeptIsTail(was, m, key);
  }

  lemma Regroup(a: seq<RunKey>, key: RunKey, b: seq<RunKey>)
    ensures a + ([key] + b) == a + [key] + b && a + b == a + [] + b
  {
  }

  lemma KeptIsTail(was: seq<RunKey>, m: nat, key: RunKey)
    requires m <= |was|
    ensures |was| - |Kept(was, m, key)| >= m && Kept(was, m, key) == was[|was| - |Kept(was, m, key)|..]
  {
  }

  lemma NowParts(now: seq<RunKey>, m: nat)
    requires m <= |now|
    ensures now == now[..m] + now[m..] && (m < |now| ==> now[m..] == [now[m]] + now[m + 1..])
  {
  }

  lemma ReplacedScan(was: seq<RunKey>, now: seq<RunKey>, m: nat, key: RunKey)
    requires IsScan(was, m, key.pos) && Replaced(was, now, m, key) && !key.deleted
    ensures IsScan(now, m, key.pos)
  {
    forall k | 0 <= k < m
      ensures Before(now[k], key.pos)
    {
      assert now[k] == now[..m][k] == was[k];
    }
    NodeKeys.PosAntisymmetric(key.pos, key.pos);
  }

  lemma {:induction false} CommitLive(was: seq<RunKey>, now: seq<RunKey>, m: nat, key: RunKey)
    requires Sorted(was) && IsScan(was, m, key.pos) && Replaced(was, now, m, key)
    ensures forall k: RunKey :: Live(now, k) <==> if k.pos == key.pos then k == key && !key.deleted else Live(was, k)
  {
    var kept := Kept(was, m, key);
    KeptAfter(was, m, key);
    forall j | 0 <= j < |kept|
      ensures kept[j].pos != key.pos
    {
      assert PosCmp(key.pos, was[j + |was| - |kept|].pos) < 0;
    }
    forall k: RunKey
      ensures Live(now, k) <==> if k.pos == key.pos then k == key && !key.deleted else Live(was, k)
    {
      NowMembers(was, now, m, key, k);
      WasMembers(was, m, key, k);
      LiveBefore(was, m, key.pos, k);
    }
  }

  lemma NowMembers(was: seq<RunKey>, now: seq<RunKey>, m: nat, key: RunKey, k: RunKey)
    requires Replaced(was, now, m, key)
    ensures k in now <==> k in was[..m] || (!key.deleted && k == key) || k in Kept(was, m, key)
  {
    NowParts(now, m);
    assert k in now <==> k in now[..m] || k in now[m..];
  }

  lemma WasMembers(was: seq<RunKey>, m: nat, key: RunKey, k: RunKey)
    requires m <= |was|
    ensures k.pos != key.pos ==> (k in was <==> k in was[..m] || k in Kept(was, m, key))
  {
    NowParts(was, m);
    assert k in was <==> k in was[..m] || k in was[m..];
  }

  /** Of the keys a scan passes none at the position searched for is live. */
  lemma LiveBefore(keys: seq<RunKey>, m: nat, search: Pos, k: RunKey)
    requires IsScan(keys, m, search)
    ensures k in keys[..m] && k.pos == search ==> k.deleted
  {
    if k in keys[..m] && k.pos == search {
      var i :| 0 <= i < m && keys[i] == k;
      assert Before(keys[i], search);
      NodeKeys.PosAntisymmetric(k.pos, search);
    }
  }

  /** What a committed key does not replace lies behind it. */
  lemma AfterKey(keys: seq<RunKey>, m: nat, key: RunKey, j: nat)
    requires Sorted(keys) && IsScan(keys, m, key.pos) && m <= j < |keys| && (j == m ==> keys[m].pos != key.pos)
    ensures PosCmp(key.pos, keys[j].pos) < 0
  {
    if m < j {
      assert InOrder(keys[m], keys[j]);
      NodeKeys.PosTransitive(key.pos, keys[m].pos, keys[j].pos);
    }
    NodeKeys.PosAntisymmetric(key.pos, keys[m].pos);
  }

  lemma SpliceSorted(keys: seq<RunKey>, m: nat, n: nat, key: RunKey, gone: bool)
    requires Sorted(keys) && m <= n <= |keys|
    requires forall i :: 0 <= i < m ==> Before(keys[i], key.pos)
    requires forall j :: n <= j < |keys| ==> PosCmp(key.pos, keys[j].pos) < 0
    ensures Sorted(Splice(keys, m, n - m, if gone then [] else [key]))
  {
    var ins := if gone then [] else [key];
    var keys' := Splice(keys, m, n - m, ins);
    assert forall i :: 0 <= i < m ==> keys'[i] == keys[i];
    assert forall i :: m + |ins| <= i < |keys'| ==> keys'[i] == keys[i - m - |ins| + n];
  }

  lemma BelowMeansBefore(keys: seq<RunKey>, i: nat, search: Pos)
    requires Sorted(keys) && i < |keys| && PosCmp(keys[i].pos, search) < 0
    ensures forall k :: 0 <= k < i ==> Before(keys[k], search)
  {
    forall k | 0 <= k < i
      ensures Before(keys[k], search)
    {
      assert InOrder(keys[k], keys[i]);
      NodeKeys.PosTransitive(keys[k].pos, keys[i].pos, search);
    }
  }

  /** Where a binary search of the cached positions may land. */
  predicate Lands(t: seq<Entry>, search: Pos, l: nat) {
    && l < |t| && (l > 0 ==> PosCmp(t[l].pos, search) < 0)
    && (l + 1 < |t| ==> PosCmp(t[l + 1].pos, search) >= 0)
  }

  method SearchEntries(table: seq<Entry>, search: Pos) returns (l: nat)
    requires |table| >= 1
    ensures Lands(table, search, l)
  {
    l := 0;
    var r := |table|;
    while l + 1 != r
      invariant 0 <= l < r <= |table| && (l > 0 ==> PosCmp(table[l].pos, search) < 0)
      invariant r < |table| ==> PosCmp(table[r].pos, search) >= 0
    {
      var m := (l + r) / 2;
      if PosCmp(table[m].pos, search) < 0 {
        l := m;
      } else {
        r := m;
      }
    }
  }

  /** Cached positions rise with the entries. */
  lemma {:induction false} EntriesRise(first: nat, keys: seq<RunKey>, t: seq<Entry>, i: nat, j: nat)
    requires KeysOk(keys) && TableOk(first, keys, t) && Sorted(keys) && 1 <= i < j < |t|
    ensures PosCmp(t[i].pos, t[j].pos) <= 0
  {
    assert Right(first, keys, t, i) && Right(first, keys, t, j);
    var a := RightIndex(first, keys, t, i);
    var b := RightIndex(first, keys, t, j);
    OffIndex(keys, a, b);
    assert InOrder(keys[a], keys[b]);
    NodeKeys.PosAntisymmetric(keys[a].pos, keys[b].pos);
  }

  lemma LaterEntries(first: nat, keys: seq<RunKey>, t: seq<Entry>, search: Pos, l: nat, j: nat)
    requires KeysOk(keys) && TableOk(first, keys, t) && Sorted(keys) && Lands(t, search, l) && l < j < |t|
    ensures PosCmp(t[j].pos, search) >= 0
  {
    if l + 1 < j {
      EntriesRise(first, keys, t, l + 1, j);
      PosRises(search, t[l + 1].pos, t[j].pos);
    }
  }

  lemma PosRises(a: Pos, b: Pos, c: Pos)
    requires PosCmp(b, a) >= 0 && PosCmp(b, c) <= 0
    ensures PosCmp(c, a) >= 0
  {
  }

  /**
   Binary search of the cached positions: the entry found has only smaller keys before it, and
   every later one is at or behind the search.
   */
  method SearchWriteSet(first: nat, ghost keys: seq<RunKey>, table: seq<Entry>, search: Pos) returns (off: nat)
    requires KeysOk(keys) && TableOk(first, keys, table) && Sorted(keys)
    ensures off >= first && off == first + Off(keys, IndexOf(keys, off - first, 0))
    ensures forall k :: 0 <= k < IndexOf(keys, off - first, 0) ==> Before(keys[k], search)
    ensures forall j :: 0 <= j < |table| && table[j].offset > off ==> PosCmp(table[j].pos, search) >= 0
  {
    var l := SearchEntries(table, search);
    assert Right(first, keys, table, l);
    ghost var i := RightIndex(first, keys, table, l);
    off := table[l].offset;
    if l > 0 {
      BelowMeansBefore(keys, i, search);
    }
    forall j | 0 <= j < |table| && table[j].offset > off
      ensures PosCmp(table[j].pos, search) >= 0
    {
      LaterEntries(first, keys, table, search, l, j);
    }
  }

  /** The table search and the linear tail find what a scan of the whole run finds. */
  method Search(first: nat, keys: seq<RunKey>, table: seq<Entry>, search: Pos) returns (m: nat)
    requires KeysOk(keys) && TableOk(first, keys, table) && Sorted(keys)
    ensures IsScan(keys, m, search)
  {
    var off := SearchWriteSet(first, keys, table, search);
    m := IndexOf(keys, off - first, 0);
    while m != |keys| && Before(keys[m], search)
      invariant m <= |keys| && forall k :: 0 <= k < m ==> Before(keys[k], search)
    {
      m := m + 1;
    }
  }

  /** Key `i` lies within a cacheline of an entry at or before it. */
  predicate Near(first: nat, keys: seq<RunKey>, t: seq<Entry>, i: nat)
    requires i <= |keys|
  {
    NearAt(t, first + Off(keys, i))
  }

  predicate NearAt(t: seq<Entry>, o: int) {
    exists j :: 0 <= j < |t| && t[j].offset <= o <= t[j].offset + CacheWords
  }

  lemma NearAppend(t: seq<Entry>, x: Entry, o: int)
    ensures NearAt(t, o) ==> NearAt(t + [x], o)
    ensures NearAt(t + [x], x.offset)
  {
    if j :| 0 <= j < |t| && t[j].offset <= o <= t[j].offset + CacheWords {
      assert (t + [x])[j] == t[j];
    }
    assert (t + [x])[|t|] == x;
  }

  /**
   A new table: an entry whenever the run has gone more than a cacheline since the last.  Entries
   are that far apart, and no key is further from one while there is room for more.
   */
  method Build(first: nat, keys: seq<RunKey>, capacity: nat) returns (table: seq<Entry>)
    requires KeysOk(keys) && capacity >= 1
    ensures TableOk(first, keys, table) && |table| <= capacity
    ensures forall j :: 1 <= j < |table| ==> table[j].offset > table[j - 1].offset + CacheWords
    ensures forall i :: 0 <= i < |keys| && (|table| < capacity || first + Off(keys, i) < table[|table| - 1].offset) ==>
      Near(first, keys, table, i)
  {
    table := [Entry(first, Pos(0, 0, 0))];
    var k := 0;
    while k != |keys| && |table| != capacity
      invariant k <= |keys| && |table| <= capacity && BuiltTo(first, keys, table, k)
    {
      table := BuildStep(first, keys, table, k);
      k := k + 1;
    }
    BeforeLast(first, keys, table, k);
  }

  /** A table right and spaced so far, with every key before `k` near an entry. */
  ghost predicate BuiltTo(first: nat, keys: seq<RunKey>, t: seq<Entry>, k: nat) {
    && k <= |keys| && TableOk(first, keys, t) && t[|t| - 1].offset <= first + Off(keys, k)
    && (forall j :: 1 <= j < |t| ==> t[j].offset > t[j - 1].offset + CacheWords)
    && forall i :: 0 <= i < k ==> Near(first, keys, t, i)
  }

  method BuildStep(first: nat, keys: seq<RunKey>, t: seq<Entry>, k: nat) returns (table: seq<Entry>)
    requires KeysOk(keys) && k < |keys| && BuiltTo(first, keys, t, k)
    ensures BuiltTo(first, keys, table, k + 1) && |t| <= |table| <= |t| + 1
  {
    table := t;
    if first + Off(keys, k) - t[|t| - 1].offset > CacheWords {
      InsertKeeps(first, keys, t, |t|, k);
      var x := Entry(first + Off(keys, k), keys[k].pos);
      assert InsertAt(t, |t|, x) == t + [x];
      table := t + [x];
    }
    NearStep(first, keys, t, table, k);
  }

  lemma {:induction false} BeforeLast(first: nat, keys: seq<RunKey>, t: seq<Entry>, k: nat)
    requires KeysOk(keys) && k <= |keys| && |t| >= 1 && t[|t| - 1].offset <= first + Off(keys, k)
    ensures forall i :: 0 <= i < |keys| && first + Off(keys, i) < t[|t| - 1].offset ==> i < k
  {
    forall i | 0 <= i < |keys| && first + Off(keys, i) < t[|t| - 1].offset
      ensures i < k
    {
      OffIndex(keys, i, k);
    }
  }

  lemma {:induction false} NearStep(first: nat, keys: seq<RunKey>, t: seq<Entry>, t': seq<Entry>, k: nat)
    requires k < |keys| && |t| >= 1 && t[|t| - 1].offset <= first + Off(keys, k)
    requires || (t' == t && first + Off(keys, k) <= t[|t| - 1].offset + CacheWords)
             || t' == t + [Entry(first + Off(keys, k), keys[k].pos)]
    requires forall i :: 0 <= i < k ==> Near(first, keys, t, i)
    ensures forall i :: 0 <= i <= k ==> Near(first, keys, t', i)
  {
    forall i | 0 <= i <= k
      ensures Near(first, keys, t', i)
    {
      NearAppend(t, Entry(first + Off(keys, k), keys[k].pos), first + Off(keys, i));
      assert i < k ==> Near(first, keys, t, i);
    }
  }

  /** An entry of key `w`. */
  predicate IsEntryOf(first: nat, keys: seq<RunKey>, t: seq<Entry>, w: nat, j: int)
    requires w <= |keys|
  {
    1 <= j < |t| && t[j].offset == first + Off(keys, w)
  }

  /** Replacing a key by one of the same size moves nothing; only its own entry can become wrong. */
  lemma SameSizeKeeps(first: nat, keys: seq<RunKey>, w: nat, key: RunKey, t: seq<Entry>)
    requires KeysOk(keys) && TableOk(first, keys, t) && w < |keys| && key.u64s == keys[w].u64s
    requires key.pos == keys[w].pos || forall j :: !IsEntryOf(first, keys, t, w, j)
    ensures TableOk(first, keys[w := key], t)
  {
    var keys' := keys[w := key];
    forall j | 0 <= j < |t|
      ensures Right(first, keys', t, j)
    {
      assert Right(first, keys, t, j);
      if j > 0 {
        var i := RightIndex(first, keys, t, j);
        SameSizeOff(keys, w, key, i);
        assert !IsEntryOf(first, keys, t, w, j) || key.pos == keys[w].pos;
        assert AtKey(first, keys', t[j], i);
      }
    }
  }

  lemma SameSizeBreaks(first: nat, keys: seq<RunKey>, w: nat, key: RunKey, t: seq<Entry>, j: int)
    requires KeysOk(keys) && TableOk(first, keys, t) && w < |keys| && key.u64s == keys[w].u64s
    requires key.pos != keys[w].pos && IsEntryOf(first, keys, t, w, j)
    ensures !TableOk(first, keys[w := key], t)
  {
    var keys' := keys[w := key];
    assert Right(first, keys, t, j);
    var i := RightIndex(first, keys, t, j);
    OffIndex(keys, i, w);
    if Right(first, keys', t, j) {
      var i' := RightIndex(first, keys', t, j);
      SameSizeOff(keys, w, key, w);
      OffIndex(keys', i', w);
    }
  }

  lemma {:induction false} SameSizeOff(keys: seq<RunKey>, w: nat, key: RunKey, i: nat)
    requires w < |keys| && key.u64s == keys[w].u64s && i <= |keys|
    ensures Off(keys[w := key], i) == Off(keys, i)
  {
    if i > 0 {
      SameSizeOff(keys, w, key, i - 1);
    }
  }

  /** Three keys of five words. */
  function Row(a: Half, b: Half, c: Half): seq<RunKey> {
    [RunKey(Pos(0, 0, a), 5, false), RunKey(Pos(0, 0, b), 5, false), RunKey(Pos(0, 0, c), 5, false)]
  }

  lemma RowOk(a: Half, b: Half, c: Half)
    requires a < b < c
    ensures KeysOk(Row(a, b, c)) && Sorted(Row(a, b, c)) && Off(Row(a, b, c), 2) == 10
  {
    assert Off(Row(a, b, c), 1) == 5;
  }

  lemma RowSplice(a: Half, b: Half, c: Half, d: Half)
    ensures Splice(Row(a, b, c), 1, 1, [Row(a, d, c)[1]]) == Row(a, d, c)
    ensures Splice(Row(a, b, c), 2, 1, [Row(a, b, d)[2]]) == Row(a, b, d)
  {
  }

  /**
   Two replacements by keys of the same size at other positions, 5 by 9 and then 2 by 7: the run
   stays sorted, the entry of its last key keeps the old position, and a search for 6 starts
   behind the key at 7.
   */
  lemma StaleStartsLate()
    ensures var t := [Entry(0, Pos(0, 0, 0)), Entry(10, Pos(0, 0, 5))];
            && TableOk(0, Row(1, 2, 5), t) && Sorted(Row(1, 2, 5)) && Sorted(Row(1, 2, 9)) && Sorted(Row(1, 7, 9))
            && Row(1, 2, 9) == Splice(Row(1, 2, 5), 2, 1, [Row(1, 2, 9)[2]])
            && Row(1, 7, 9) == Splice(Row(1, 2, 9), 1, 1, [Row(1, 7, 9)[1]])
            && !Before(Row(1, 7, 9)[1], Pos(0, 0, 6))
            && forall l: nat :: Lands(t, Pos(0, 0, 6), l) ==> t[l].offset == Off(Row(1, 7, 9), 2)
  {
    var t := [Entry(0, Pos(0, 0, 0)), Entry(10, Pos(0, 0, 5))];
    RowOk(1, 2, 5);
    RowOk(1, 2, 9);
    RowOk(1, 7, 9);
    RowSplice(1, 2, 5, 9);
    RowSplice(1, 2, 9, 7);
    assert AtKey(0, Row(1, 2, 5), t[1], 2);
  }
}
