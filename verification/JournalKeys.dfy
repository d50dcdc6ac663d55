/**
 The keys read from the journal, laid over the btrees until replay is finished: sorted by
 btree, level and position, with keys already overwritten marked and skipped in ranges.
 Positions are given by their place in the position order.
 */
module JournalKeys {
  import opened Options

  datatype JKey = JKey(tree: nat, level: nat, pos: int, value: int, overwritten: bool, range: nat)

  datatype Range = Range(start: nat, end: nat)

  predicate SameGroup(a: JKey, b: JKey) { a.tree == b.tree && a.level == b.level }

  predicate Less(a: JKey, b: JKey) {
    a.tree < b.tree || (a.tree == b.tree && (a.level < b.level || (a.level == b.level && a.pos < b.pos)))
  }

  predicate Sorted(d: seq<JKey>) {
    forall i, j :: 0 <= i < j < |d| ==> Less(d[i], d[j])
  }

  /** A maximal run of overwritten keys of one btree and level. */
  predicate IsRun(d: seq<JKey>, s: int, e: int) {
    && 0 <= s < e <= |d| && (forall j :: s <= j < e ==> InRun(d, s, j))
    && (s > 0 ==> !InRun(d, s, s - 1)) && (e < |d| ==> !InRun(d, s, e))
  }

  predicate InRun(d: seq<JKey>, s: int, j: int) {
    0 <= s < |d| && 0 <= j < |d| && d[j].overwritten && SameGroup(d[j], d[s])
  }

  predicate RangeIs(d: seq<JKey>, j: int, r: nat) {
    0 <= j < |d| && d[j].range == r
  }

  /** An overwritten key's range is the maximal run it is in, shared by the whole run. */
  predicate KeyOk(d: seq<JKey>, over: seq<Range>, i: int)
    requires 0 <= i < |d|
  {
    d[i].overwritten ==>
      var r := d[i].range;
      && 0 < r < |over| && over[r].start <= i < over[r].end
      && IsRun(d, over[r].start, over[r].end) && forall j :: over[r].start <= j < over[r].end ==> RangeIs(d, j, r)
  }

  predicate RangesOk(d: seq<JKey>, over: seq<Range>) {
    forall i :: 0 <= i < |d| ==> KeyOk(d, over, i)
  }

  // ----- what a plain scan finds

  predicate Matches(k: JKey, tree: nat, level: nat, lo: int, hi: int) {
    k.tree == tree && k.level == level && lo <= k.pos <= hi && !k.overwritten
  }

  /** The first match from an index on. */
  predicate IsFirst(d: seq<JKey>, from: nat, r: Option<nat>, tree: nat, level: nat, lo: int, hi: int) {
    match r {
      case None => forall j :: from <= j < |d| ==> !Matches(d[j], tree, level, lo, hi)
      case Some(i) =>
        && from <= i < |d| && Matches(d[i], tree, level, lo, hi)
        && forall j :: from <= j < i ==> !Matches(d[j], tree, level, lo, hi)
    }
  }

  /** The last match below an index. */
  predicate IsLast(d: seq<JKey>, below: nat, r: Option<nat>, tree: nat, level: nat, lo: int, hi: int)
    requires below <= |d|
  {
    match r {
      case None => forall j :: 0 <= j < below ==> !Matches(d[j], tree, level, lo, hi)
      case Some(i) =>
        && i < below && Matches(d[i], tree, level, lo, hi)
        && forall j :: i < j < below ==> !Matches(d[j], tree, level, lo, hi)
    }
  }

  /** The same slot in two states of the overlay. */
  predicate SameSlot(a: JKey, b: JKey) { SameGroup(a, b) && a.pos == b.pos }

  // ----- marking

  /** Both neighbours' runs and the key itself make up the new run [s, e). */
  predicate Marking(d: seq<JKey>, idx: nat, s: int, e: int) {
    && idx < |d| && !d[idx].overwritten && 0 <= s <= idx < e <= |d|
    && (if s == idx then idx == 0 || !InRun(d, idx, idx - 1) else IsRun(d, s, idx) && SameGroup(d[s], d[idx]))
    && (if e == idx + 1 then idx + 1 == |d| || !InRun(d, idx, idx + 1)
        else IsRun(d, idx + 1, e) && SameGroup(d[idx + 1], d[idx]))
  }

  function Marked(d: seq<JKey>, idx: nat, s: int, e: int, r: nat): (t: seq<JKey>)
    requires idx < |d| && 0 <= s <= idx < e <= |d|
    ensures |t| == |d|
    ensures forall j :: 0 <= j < |d| ==>
      t[j] == if s <= j < e then d[j].(overwritten := d[j].overwritten || j == idx, range := r) else d[j]
  {
    seq(|d|, j requires 0 <= j < |d| =>
      if s <= j < e then d[j].(overwritten := d[j].overwritten || j == idx, range := r) else d[j])
  }

  lemma MarkedRun(d: seq<JKey>, idx: nat, s: int, e: int, r: nat)
    requires Marking(d, idx, s, e)
    ensures IsRun(Marked(d, idx, s, e, r), s, e)
  {
    var t := Marked(d, idx, s, e, r);
    forall j | s <= j < e
      ensures InRun(t, s, j)
    {
      assert j < idx ==> InRun(d, s, j);
      assert j > idx ==> InRun(d, idx + 1, j);
    }
    assert s > 0 && s < idx ==> !InRun(d, s, s - 1);
    assert e < |d| && e > idx + 1 ==> !InRun(d, idx + 1, e);
  }

  /** A run elsewhere is left alone. */
  lemma OtherRun(d: seq<JKey>, idx: nat, s: int, e: int, r: nat, s': int, e': int)
    requires Marking(d, idx, s, e) && IsRun(d, s', e') && (e' <= s || e <= s')
    ensures IsRun(Marked(d, idx, s, e, r), s', e')
  {
    var t := Marked(d, idx, s, e, r);
    forall j | s' <= j < e'
      ensures InRun(t, s', j)
    {
      assert InRun(d, s', j);
    }
    NotTouching(d, idx, s, e, s', e');
    assert s' > 0 && InRun(t, s', s' - 1) ==> InRun(d, s', s' - 1) || s' - 1 == idx;
    assert e' < |d| && InRun(t, s', e') ==> InRun(d, s', e') || e' == idx;
  }

  /** A run that touches the marked key is one of its neighbours' runs. */
  lemma NotTouching(d: seq<JKey>, idx: nat, s: int, e: int, s': int, e': int)
    requires Marking(d, idx, s, e) && IsRun(d, s', e') && (e' <= s || e <= s')
    ensures e' == idx ==> !SameGroup(d[s'], d[idx])
    ensures s' == idx + 1 ==> !SameGroup(d[s'], d[idx])
  {
    assert InRun(d, s', e' - 1) && InRun(d, s', s');
  }

  /** Runs are disjoint or equal. */
  lemma RunsDisjoint(d: seq<JKey>, s: int, e: int, s': int, e': int, i: int)
    requires IsRun(d, s, e) && IsRun(d, s', e') && s <= i < e && s' <= i < e'
    ensures s == s' && e == e'
  {
    assert InRun(d, s, i) && InRun(d, s', i);
    assert s <= s' - 1 < e ==> InRun(d, s, s' - 1);
    assert s' <= s - 1 < e' ==> InRun(d, s', s - 1);
    assert s' <= e < e' ==> InRun(d, s', e);
    assert s <= e' < e ==> InRun(d, s, e');
  }

  /** The run of an overwritten key, by its range. */
  lemma RunOf(d: seq<JKey>, over: seq<Range>, i: int)
    requires RangesOk(d, over) && 0 <= i < |d| && d[i].overwritten
    ensures var r := d[i].range;
            0 < r < |over| && over[r].start <= i < over[r].end && IsRun(d, over[r].start, over[r].end)
  {
    assert KeyOk(d, over, i);
  }

  /** Ranges after marking key `idx`: its run is range `r`, all others are as before. */
  lemma MarkKeeps(d: seq<JKey>, over: seq<Range>, idx: nat, s: int, e: int, r: nat, over': seq<Range>)
    requires RangesOk(d, over) && Marking(d, idx, s, e)
    requires |over| <= |over'| && 0 < r < |over'| && over'[r].start == s && over'[r].end == e
    requires forall q :: 0 <= q < |over| && q != r ==> over'[q] == over[q]
    requires r < |over| ==> s <= over[r].start < over[r].end <= e && IsRun(d, over[r].start, over[r].end)
    ensures RangesOk(Marked(d, idx, s, e, r), over')
  {
    var t := Marked(d, idx, s, e, r);
    MarkedRun(d, idx, s, e, r);
    forall i | 0 <= i < |t|
      ensures KeyOk(t, over', i)
    {
      if !(s <= i < e) && t[i].overwritten {
        MarkKeepsOther(d, over, idx, s, e, r, over', i);
      }
    }
  }

  lemma MarkKeepsOther(d: seq<JKey>, over: seq<Range>, idx: nat, s: int, e: int, r: nat, over': seq<Range>, i: int)
    requires RangesOk(d, over) && Marking(d, idx, s, e) && 0 <= i < |d| && !(s <= i < e) && d[i].overwritten
    requires |over| <= |over'| && 0 < r < |over'|
    requires forall q :: 0 <= q < |over| && q != r ==> over'[q] == over[q]
    requires r < |over| ==> s <= over[r].start < over[r].end <= e && IsRun(d, over[r].start, over[r].end)
    ensures KeyOk(Marked(d, idx, s, e, r), over', i)
  {
    assert KeyOk(d, over, i);
    var q := d[i].range;
    var s', e' := over[q].start, over[q].end;
    RunApart(d, idx, s, e, s', e', i);
    OtherRun(d, idx, s, e, r, s', e');
    forall j | s' <= j < e'
      ensures RangeIs(Marked(d, idx, s, e, r), j, q)
    {
      assert RangeIs(d, j, q);
    }
  }

  /** A run with a key outside the new one lies wholly outside it. */
  lemma RunApart(d: seq<JKey>, idx: nat, s: int, e: int, s': int, e': int, i: int)
    requires Marking(d, idx, s, e) && IsRun(d, s', e') && s' <= i < e' && !(s <= i < e)
    ensures e' <= s || e <= s'
  {
    assert s' <= idx < e' ==> InRun(d, s', idx);
    if s < idx && s' <= s < e' {
      RunsDisjoint(d, s, idx, s', e', s);
    }
    if s < idx && s <= s' < idx {
      RunsDisjoint(d, s, idx, s', e', s');
    }
    if idx + 1 < e && s' <= idx + 1 < e' {
      RunsDisjoint(d, idx + 1, e, s', e', idx + 1);
    }
    if idx + 1 < e && idx + 1 <= s' < e {
      RunsDisjoint(d, idx + 1, e, s', e', s');
    }
  }

  // ----- rebuilding the ranges

  /** The first `n` keys' ranges are done; no run crosses `n`. */
  predicate Rebuilt(d: seq<JKey>, over: seq<Range>, n: nat) {
    && n <= |d| && (forall i :: 0 <= i < n ==> KeyOk(d, over, i))
    && (0 < n < |d| ==> !(d[n - 1].overwritten && d[n].overwritten && SameGroup(d[n - 1], d[n])))
  }

  /** Give the keys of a run their range. */
  function WithRange(d: seq<JKey>, s: int, e: int, r: nat): (t: seq<JKey>)
    requires 0 <= s <= e <= |d|
    ensures |t| == |d| && forall j :: 0 <= j < |d| ==> t[j] == if s <= j < e then d[j].(range := r) else d[j]
  {
    seq(|d|, j requires 0 <= j < |d| => if s <= j < e then d[j].(range := r) else d[j])
  }

  lemma RunSame(d: seq<JKey>, t: seq<JKey>, s: int, e: int)
    requires |t| == |d| && (forall j :: 0 <= j < |d| ==> t[j].overwritten == d[j].overwritten && SameGroup(t[j], d[j]))
    ensures IsRun(d, s, e) <==> IsRun(t, s, e)
  {
    if IsRun(d, s, e) {
      forall j | s <= j < e
        ensures InRun(t, s, j)
      {
        assert InRun(d, s, j);
      }
    }
    if IsRun(t, s, e) {
      forall j | s <= j < e
        ensures InRun(d, s, j)
      {
        assert InRun(t, s, j);
      }
    }
  }

  lemma RebuiltStep(d: seq<JKey>, over: seq<Range>, s: nat, e: nat)
    requires Rebuilt(d, over, s) && IsRun(d, s, e) && |over| > 0
    ensures Rebuilt(WithRange(d, s, e, |over|), over + [Range(s, e)], e)
  {
    var r := |over|;
    var t, over' := WithRange(d, s, e, r), over + [Range(s, e)];
    forall i | 0 <= i < e
      ensures KeyOk(t, over', i)
    {
      if i < s {
        RebuiltOld(d, over, s, e, i);
      } else {
        RunSame(d, t, s, e);
      }
    }
    assert InRun(d, s, e - 1);
  }

  lemma RebuiltOld(d: seq<JKey>, over: seq<Range>, s: nat, e: nat, i: nat)
    requires Rebuilt(d, over, s) && IsRun(d, s, e) && i < s
    ensures KeyOk(WithRange(d, s, e, |over|), over + [Range(s, e)], i)
  {
    var t := WithRange(d, s, e, |over|);
    assert KeyOk(d, over, i);
    if d[i].overwritten {
      var q := d[i].range;
      var s', e' := over[q].start, over[q].end;
      RunSame(d, t, s', e');
      assert e' <= s by {
        assert s' <= s - 1 < e' ==> InRun(d, s', s - 1);
        assert s' <= s < e' ==> InRun(d, s', s);
      }
      forall j | s' <= j < e'
        ensures RangeIs(t, j, q)
      {
        assert RangeIs(d, j, q);
      }
    }
  }

  /** A key that is not overwritten needs no range. */
  lemma RebuiltSkip(d: seq<JKey>, over: seq<Range>, n: nat)
    requires Rebuilt(d, over, n) && n < |d| && !d[n].overwritten
    ensures Rebuilt(WithRange(d, n, n + 1, 0), over, n + 1)
  {
    var t := WithRange(d, n, n + 1, 0);
    forall i | 0 <= i < n + 1
      ensures KeyOk(t, over, i)
    {
      if i < n && d[i].overwritten {
        assert KeyOk(d, over, i);
        var q := d[i].range;
        var s', e' := over[q].start, over[q].end;
        RunSame(d, t, s', e');
        assert s' <= n < e' ==> InRun(d, s', n);
        forall j | s' <= j < e'
          ensures RangeIs(t, j, q)
        {
          assert RangeIs(d, j, q);
        }
      }
    }
  }

  // ----- the contents

  /** A key of this slot with this value and mark is present. */
  ghost predicate Has(d: seq<JKey>, tree: nat, level: nat, pos: int, value: int, overwritten: bool) {
    exists i :: 0 <= i < |d| && IsSlot(d[i], tree, level, pos) && d[i].value == value && d[i].overwritten == overwritten
  }

  predicate IsSlot(k: JKey, tree: nat, level: nat, pos: int) {
    k.tree == tree && k.level == level && k.pos == pos
  }

  /** The same keys, ranges aside. */
  predicate SameKeys(a: seq<JKey>, b: seq<JKey>) {
    |a| == |b| && forall j :: 0 <= j < |a| ==> SameBut(a[j], b[j])
  }

  predicate SameBut(a: JKey, b: JKey) {
    a.tree == b.tree && a.level == b.level && a.pos == b.pos && a.value == b.value && a.overwritten == b.overwritten
  }

  lemma SameKeysHas(a: seq<JKey>, b: seq<JKey>, tree: nat, level: nat, pos: int, value: int, overwritten: bool)
    requires SameKeys(a, b)
    ensures Has(a, tree, level, pos, value, overwritten) == Has(b, tree, level, pos, value, overwritten)
  {
    forall j | 0 <= j < |a|
      ensures SameBut(a[j], b[j])
    {
    }
  }

  lemma SameKeysSorted(a: seq<JKey>, b: seq<JKey>)
    requires SameKeys(a, b) && Sorted(a)
    ensures Sorted(b)
  {
    forall i, j | 0 <= i < j < |b|
      ensures Less(b[i], b[j])
    {
      assert SameBut(a[i], b[i]) && SameBut(a[j], b[j]) && Less(a[i], a[j]);
    }
  }

  /** What an insert makes of every slot: the new key in its own, the old contents elsewhere. */
  ghost predicate Inserted(before: seq<JKey>, after: seq<JKey>, k: JKey) {
    forall tree: nat, level: nat, pos: int, value: int, overwritten: bool ::
      Has(after, tree, level, pos, value, overwritten) <==>
        if IsSlot(k, tree, level, pos) then value == k.value && !overwritten
        else Has(before, tree, level, pos, value, overwritten)
  }

  /** Where a slot is or would be. */
  function Place(d: seq<JKey>, k: JKey, i: nat): (r: nat)
    requires i <= |d|
    ensures i <= r <= |d| && (r < |d| ==> !Less(d[r], k))
    ensures forall j :: i <= j < r ==> Less(d[j], k)
    decreases |d| - i
  {
    if i == |d| || !Less(d[i], k) then i else Place(d, k, i + 1)
  }

  /** What lies on either side of a key's place. */
  lemma {:induction false} AroundPlace(d: seq<JKey>, k: JKey, j: nat)
    requires Sorted(d) && j < |d| && !IsSlot(d[j], k.tree, k.level, k.pos)
    requires forall i :: 0 <= i < |d| ==> !IsSlot(d[i], k.tree, k.level, k.pos)
    ensures if j < Place(d, k, 0) then Less(d[j], k) else Less(k, d[j])
  {
    var p := Place(d, k, 0);
    if p < j {
      assert Less(d[p], d[j]);
    }
  }

  lemma {:induction false} SortedAround(d: seq<JKey>, k: JKey, p: nat)
    requires Sorted(d) && p <= |d|
    requires (forall j :: 0 <= j < p ==> Less(d[j], k)) && forall j :: p <= j < |d| ==> Less(k, d[j])
    ensures Sorted(d[..p] + [k] + d[p..])
  {
    var t := d[..p] + [k] + d[p..];
    assert forall i :: 0 <= i < |t| ==> t[i] == if i < p then d[i] else if i == p then k else d[i - 1];
  }

  /** The last key of a list whose others are sorted moves to its place. */
  lemma {:induction false} SortedIn(d: seq<JKey>, k: JKey)
    requires Sorted(d) && forall i :: 0 <= i < |d| ==> !IsSlot(d[i], k.tree, k.level, k.pos)
    ensures var p := Place(d, k, 0); Sorted(d[..p] + [k] + d[p..])
  {
    var p := Place(d, k, 0);
    forall j | 0 <= j < |d|
      ensures if j < p then Less(d[j], k) else Less(k, d[j])
    {
      AroundPlace(d, k, j);
    }
    SortedAround(d, k, p);
  }

  lemma InsertedNew(d: seq<JKey>, k: JKey, p: nat)
    requires p <= |d| && !k.overwritten && forall i :: 0 <= i < |d| ==> !IsSlot(d[i], k.tree, k.level, k.pos)
    ensures Inserted(d, d[..p] + [k] + d[p..], k)
  {
    var t := d[..p] + [k] + d[p..];
    assert t[p] == k;
    forall i | 0 <= i < |d|
      ensures t[if i < p then i else i + 1] == d[i]
    {
    }
    forall tree: nat, level: nat, pos: int, value: int, overwritten: bool
      ensures Has(t, tree, level, pos, value, overwritten) <==>
        if IsSlot(k, tree, level, pos) then value == k.value && !overwritten
        else Has(d, tree, level, pos, value, overwritten)
    {
      InsertedNewSlot(d, t, k, p, tree, level, pos, value, overwritten);
    }
  }

  lemma InsertedNewSlot(
      d: seq<JKey>, t: seq<JKey>, k: JKey, p: nat, tree: nat, level: nat, pos: int, value: int, overwritten: bool)
    requires p <= |d| && !k.overwritten && (forall i :: 0 <= i < |d| ==> !IsSlot(d[i], k.tree, k.level, k.pos))
    requires t == d[..p] + [k] + d[p..]
    ensures Has(t, tree, level, pos, value, overwritten) <==>
      if IsSlot(k, tree, level, pos) then value == k.value && !overwritten
      else Has(d, tree, level, pos, value, overwritten)
  {
    assert t[p] == k;
    if Has(d, tree, level, pos, value, overwritten) {
      var i :| 0 <= i < |d| && IsSlot(d[i], tree, level, pos) && d[i].value == value && d[i].overwritten == overwritten;
      assert t[if i < p then i else i + 1] == d[i];
    }
    if Has(t, tree, level, pos, value, overwritten) {
      var i :| 0 <= i < |t| && IsSlot(t[i], tree, level, pos) && t[i].value == value && t[i].overwritten == overwritten;
      assert i != p ==> t[i] == d[if i < p then i else i - 1];
    }
  }

  lemma InsertedOver(d: seq<JKey>, k: JKey, p: nat)
    requires Sorted(d) && p < |d| && IsSlot(d[p], k.tree, k.level, k.pos) && !k.overwritten
    ensures Sorted(d[p := k]) && Inserted(d, d[p := k], k)
  {
    var t := d[p := k];
    forall i, j | 0 <= i < j < |t|
      ensures Less(t[i], t[j])
    {
      assert Less(d[i], d[j]);
    }
    forall tree: nat, level: nat, pos: int, value: int, overwritten: bool
      ensures Has(t, tree, level, pos, value, overwritten) <==>
        if IsSlot(k, tree, level, pos) then value == k.value && !overwritten
        else Has(d, tree, level, pos, value, overwritten)
    {
      InsertedOverSlot(d, t, k, p, tree, level, pos, value, overwritten);
    }
  }

  lemma InsertedOverSlot(
      d: seq<JKey>, t: seq<JKey>, k: JKey, p: nat, tree: nat, level: nat, pos: int, value: int, overwritten: bool)
    requires Sorted(d) && p < |d| && IsSlot(d[p], k.tree, k.level, k.pos) && !k.overwritten && t == d[p := k]
    ensures Has(t, tree, level, pos, value, overwritten) <==>
      if IsSlot(k, tree, level, pos) then value == k.value && !overwritten
      else Has(d, tree, level, pos, value, overwritten)
  {
    assert t[p] == k;
    if Has(d, tree, level, pos, value, overwritten) && !IsSlot(k, tree, level, pos) {
      var i :| 0 <= i < |d| && IsSlot(d[i], tree, level, pos) && d[i].value == value && d[i].overwritten == overwritten;
      assert t[i] == d[i];
    }
    if Has(t, tree, level, pos, value, overwritten) {
      var i :| 0 <= i < |t| && IsSlot(t[i], tree, level, pos) && t[i].value == value && t[i].overwritten == overwritten;
      if i != p {
        OneSlot(d, p, i);
      }
    }
  }

  /** A slot has one key. */
  lemma OneSlot(d: seq<JKey>, p: nat, i: nat)
    requires Sorted(d) && p < |d| && i < |d| && i != p
    ensures !SameSlot(d[p], d[i])
  {
    assert i < p ==> Less(d[i], d[p]);
    assert p < i ==> Less(d[p], d[i]);
  }

  class Overlay {
    var data: seq<JKey>
    var over: seq<Range>

    ghost predicate Valid()
      reads this
    {
      Sorted(data) && RangesOk(data, over)
    }

    /** Recompute all ranges from the marks. */
    method Rebuild()
      modifies this
      ensures RangesOk(data, over) && SameKeys(old(data), data)
    {
      over := [];
      var idx := 0;
      while idx < |data|
        invariant Rebuilt(data, over, idx) && SameKeys(old(data), data)
      {
        if !data[idx].overwritten {
          RebuiltSkip(data, over, idx);
          data := WithRange(data, idx, idx + 1, 0);
          idx := idx + 1;
        } else {
          var e := RunEnd(idx);
          if |over| == 0 {
            PaddedRanges(data, idx);
            over := [Range(0, 0)];
          }
          RebuiltStep(data, over, idx, e);
          data, over := WithRange(data, idx, e, |over|), over + [Range(idx, e)];
          idx := e;
        }
      }
    }

    /** The end of the run that starts at an index. */
    method RunEnd(s: nat) returns (e: nat)
      requires Rebuilt(data, over, s) && s < |data| && data[s].overwritten
      ensures IsRun(data, s, e)
    {
      e := s + 1;
      while e < |data| && data[e].overwritten && SameGroup(data[e], data[s])
        invariant s < e <= |data| && forall j :: s <= j < e ==> InRun(data, s, j)
      {
        e := e + 1;
      }
    }

    /** The first key of a slot, or the number of keys. */
    method FindSlot(tree: nat, level: nat, pos: int) returns (p: nat)
      ensures p <= |data| && (p < |data| ==> IsSlot(data[p], tree, level, pos))
      ensures forall j :: 0 <= j < p ==> !IsSlot(data[j], tree, level, pos)
    {
      p := 0;
      while p < |data| && !IsSlot(data[p], tree, level, pos)
        invariant p <= |data| && forall j :: 0 <= j < p ==> !IsSlot(data[j], tree, level, pos)
      {
        p := p + 1;
      }
    }

    /** The latest insert of a slot wins, and is not overwritten. */
    method Insert(k: JKey)
      requires Valid() && !k.overwritten
      modifies this
      ensures Valid() && Inserted(old(data), data, k)
    {
      ghost var before := data;
      var p := FindSlot(k.tree, k.level, k.pos);
      if p < |data| {
        InsertedOver(data, k, p);
        data := data[p := k];
      } else {
        p := Place(data, k, 0);
        SortedIn(data, k);
        InsertedNew(data, k, p);
        data := data[..p] + [k] + data[p..];
      }
      ghost var mid := data;
      Rebuild();
      SameKeysSorted(mid, data);
      InsertedSame(before, mid, data, k);
    }

    /** Mark a slot's key as overwritten, joining the ranges on either side. */
    method Overwrite(tree: nat, level: nat, pos: int, check: bool)
      requires Valid()
      modifies this
      ensures Valid()
      ensures |data| == |old(data)| && forall j :: 0 <= j < |data| ==>
        SameBut(data[j], if !check && IsSlot(old(data)[j], tree, level, pos) then old(data)[j].(overwritten := true)
                         else old(data)[j])
    {
      var idx := FindSlot(tree, level, pos);
      if idx == |data| || data[idx].overwritten || check {
        forall j | idx < |data| && 0 <= j < |data| && j != idx
          ensures !IsSlot(data[j], tree, level, pos)
        {
          OneSlot(data, idx, j);
        }
        return;
      }
      MarkAt(idx);
      forall j | 0 <= j < |data| && j != idx
        ensures !IsSlot(old(data)[j], tree, level, pos)
      {
        OneSlot(old(data), idx, j);
      }
    }

    method MarkAt(idx: nat)
      requires Valid() && idx < |data| && !data[idx].overwritten
      modifies this
      ensures Valid()
      ensures |data| == |old(data)| && forall j :: 0 <= j < |data| ==>
        SameBut(data[j], if j == idx then old(data)[j].(overwritten := true) else old(data)[j])
    {
      ghost var d, over0 := data, over;
      var s, e, r := JoinAt(idx);
      MarkKeeps(data, over0, idx, s, e, r, over);
      data := Marked(data, idx, s, e, r);
      MarkedSorted(d, data);
    }

    /** The range of the run a newly marked key belongs to: a neighbour's, made longer, or a new one. */
    method JoinAt(idx: nat) returns (s: nat, e: nat, r: nat)
      requires RangesOk(data, over) && idx < |data| && !data[idx].overwritten
      modifies this`over
      ensures Marking(data, idx, s, e)
      ensures |old(over)| <= |over| && 0 < r < |over| && over[r] == Range(s, e)
      ensures forall q :: 0 <= q < |old(over)| && q != r ==> over[q] == old(over)[q]
      ensures r < |old(over)| ==>
        && s <= old(over)[r].start < old(over)[r].end <= e
        && IsRun(data, old(over)[r].start, old(over)[r].end)
    {
      var prev := idx > 0 && SameGroup(data[idx - 1], data[idx]) && data[idx - 1].overwritten;
      var next := idx + 1 < |data| && SameGroup(data[idx + 1], data[idx]) && data[idx + 1].overwritten;
      Neighbours(data, over, idx);
      s, e := idx, idx + 1;
      if prev {
        s := over[data[idx - 1].range].start;
      }
      if next {
        e := over[data[idx + 1].range].end;
      }
      if prev || next {
        r := if prev then data[idx - 1].range else data[idx + 1].range;
        over := over[r := Range(s, e)];
      } else {
        if |over| == 0 {
          over := [Range(0, 0)];
        }
        r := |over|;
        over := over + [Range(s, e)];
      }
    }

    /** The first key from `from` on in the given range that is not overwritten. */
    method PeekMax(tree: nat, level: nat, lo: int, hi: int, from: nat) returns (r: Option<nat>)
      requires Valid() && from <= |data|
      ensures IsFirst(data, from, r, tree, level, lo, hi)
      ensures r.Some? ==> forall j :: from <= j < |data| && j != r.value && Matches(data[j], tree, level, lo, hi) ==>
        data[r.value].pos < data[j].pos
    {
      var idx := from;
      while idx < |data|
        invariant from <= idx <= |data| && forall j :: from <= j < idx ==> !Matches(data[j], tree, level, lo, hi)
        decreases |data| - idx
      {
        var k := data[idx];
        if k.tree == tree && k.level == level && lo <= k.pos <= hi {
          if k.overwritten {
            RunOf(data, over, idx);
            RunSkipped(data, over[k.range].start, over[k.range].end, tree, level, lo, hi);
            idx := over[k.range].end;
          } else {
            FirstIsLeast(data, from, idx, tree, level, lo, hi);
            return Some(idx);
          }
        } else {
          idx := idx + 1;
        }
      }
      r := None;
    }

    /** The key of a slot unless it is overwritten. */
    method PeekSlot(tree: nat, level: nat, pos: int) returns (r: Option<nat>)
      requires Valid()
      ensures r.Some? ==> r.value < |data| && IsSlot(data[r.value], tree, level, pos) && !data[r.value].overwritten
      ensures r.None? ==> forall j :: 0 <= j < |data| && IsSlot(data[j], tree, level, pos) ==> data[j].overwritten
    {
      r := PeekMax(tree, level, pos, pos, 0);
    }

    /** One past the index a backward scan starts from: an index of 0 stands for the end. */
    function Below(at: nat): (n: nat)
      reads this
      ensures n <= |data|
    {
      if at == 0 || at + 1 > |data| then |data| else at + 1
    }

    /** The last key at or below `at` (or of all, from 0) in the given range that is not overwritten. */
    method PeekPrevMin(tree: nat, level: nat, lo: int, hi: int, at: nat) returns (r: Option<nat>)
      requires Valid() && at <= |data|
      ensures IsLast(data, Below(at), r, tree, level, lo, hi)
      ensures r.Some? ==> forall j :: 0 <= j < Below(at) && j != r.value && Matches(data[j], tree, level, lo, hi) ==>
        data[r.value].pos > data[j].pos
    {
      var below := Below(at);
      var cursor: nat := below;
      while cursor != 0
        invariant cursor <= below && forall j :: cursor <= j < below ==> !Matches(data[j], tree, level, lo, hi)
        decreases cursor
      {
        cursor := cursor - 1;
        var k := data[cursor];
        if k.tree == tree && k.level == level && lo <= k.pos <= hi {
          if k.overwritten {
            RunOf(data, over, cursor);
            RunSkipped(data, over[k.range].start, over[k.range].end, tree, level, lo, hi);
            cursor := over[k.range].start;
          } else {
            LastIsGreatest(data, below, cursor, tree, level, lo, hi);
            return Some(cursor);
          }
        }
      }
      r := None;
    }
  }

  /** In the order of the overlay the first match is the one at the least position. */
  lemma FirstIsLeast(d: seq<JKey>, from: nat, i: nat, tree: nat, level: nat, lo: int, hi: int)
    requires Sorted(d) && IsFirst(d, from, Some(i), tree, level, lo, hi)
    ensures forall j :: from <= j < |d| && j != i && Matches(d[j], tree, level, lo, hi) ==> d[i].pos < d[j].pos
  {
    forall j | from <= j < |d| && j != i && Matches(d[j], tree, level, lo, hi)
      ensures d[i].pos < d[j].pos
    {
      assert Less(d[i], d[j]);
    }
  }

  lemma LastIsGreatest(d: seq<JKey>, below: nat, i: nat, tree: nat, level: nat, lo: int, hi: int)
    requires Sorted(d) && below <= |d| && IsLast(d, below, Some(i), tree, level, lo, hi)
    ensures forall j :: 0 <= j < below && j != i && Matches(d[j], tree, level, lo, hi) ==> d[i].pos > d[j].pos
  {
    forall j | 0 <= j < below && j != i && Matches(d[j], tree, level, lo, hi)
      ensures d[i].pos > d[j].pos
    {
      assert Less(d[j], d[i]);
    }
  }

  lemma RunSkipped(d: seq<JKey>, s: int, e: int, tree: nat, level: nat, lo: int, hi: int)
    requires IsRun(d, s, e)
    ensures forall j :: s <= j < e ==> !Matches(d[j], tree, level, lo, hi)
  {
    forall j | s <= j < e
      ensures !Matches(d[j], tree, level, lo, hi)
    {
      assert InRun(d, s, j);
    }
  }

  /** No overwritten key has been seen while there are no ranges. */
  lemma PaddedRanges(d: seq<JKey>, n: nat)
    requires Rebuilt(d, [], n)
    ensures Rebuilt(d, [Range(0, 0)], n)
  {
    forall i | 0 <= i < n
      ensures KeyOk(d, [Range(0, 0)], i)
    {
      assert KeyOk(d, [], i);
    }
  }

  lemma InsertedSame(before: seq<JKey>, mid: seq<JKey>, after: seq<JKey>, k: JKey)
    requires Inserted(before, mid, k) && SameKeys(mid, after)
    ensures Inserted(before, after, k)
  {
    forall tree: nat, level: nat, pos: int, value: int, overwritten: bool
      ensures Has(after, tree, level, pos, value, overwritten) == Has(mid, tree, level, pos, value, overwritten)
    {
      SameKeysHas(mid, after, tree, level, pos, value, overwritten);
    }
  }

  /** The runs next to a key that is not overwritten. */
  lemma Neighbours(d: seq<JKey>, over: seq<Range>, idx: nat)
    requires RangesOk(d, over) && idx < |d| && !d[idx].overwritten
    ensures idx > 0 && d[idx - 1].overwritten ==> RunBefore(d, over, idx, d[idx - 1].range)
    ensures idx + 1 < |d| && d[idx + 1].overwritten ==> RunAfter(d, over, idx, d[idx + 1].range)
  {
    if idx > 0 && d[idx - 1].overwritten {
      RunOf(d, over, idx - 1);
      RunThrough(d, over[d[idx - 1].range], idx);
      RunThrough(d, over[d[idx - 1].range], idx - 1);
    }
    if idx + 1 < |d| && d[idx + 1].overwritten {
      RunOf(d, over, idx + 1);
      RunThrough(d, over[d[idx + 1].range], idx);
    }
  }

  predicate RunBefore(d: seq<JKey>, over: seq<Range>, idx: nat, r: nat) {
    && 0 < idx < |d| && 0 < r < |over| && IsRun(d, over[r].start, idx) && over[r].end == idx
    && SameGroup(d[over[r].start], d[idx - 1])
  }

  predicate RunAfter(d: seq<JKey>, over: seq<Range>, idx: nat, r: nat) {
    0 < r < |over| && IsRun(d, over[r].start, over[r].end) && over[r].start == idx + 1
  }

  lemma RunThrough(d: seq<JKey>, r: Range, i: int)
    requires IsRun(d, r.start, r.end)
    ensures r.start <= i < r.end ==> InRun(d, r.start, i)
  {
  }

  lemma MarkedSorted(d: seq<JKey>, t: seq<JKey>)
    requires Sorted(d) && |t| == |d| && forall j :: 0 <= j < |d| ==> SameSlot(d[j], t[j])
    ensures Sorted(t)
  {
    forall i, j | 0 <= i < j < |t|
      ensures Less(t[i], t[j])
    {
      assert Less(d[i], d[j]) && SameSlot(d[i], t[i]) && SameSlot(d[j], t[j]);
    }
  }
}
