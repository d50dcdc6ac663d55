/**
 Merging sorted runs of a node into one, newest key winning.  Runs are listed by address, so
 that of two keys at one position the one of the later run is the newer; a position is given
 by its place in the position order.
 */
module SortMerge {
  import opened Options

  datatype SortKey = SortKey(pos: int, deleted: bool, packed: bool, u64s: nat)

  /** The counters of a node's keys. */
  datatype Counts = Counts(live: nat, packed: nat, unpacked: nat)

  datatype Cursor = Cursor(run: nat, k: nat)

  predicate RunsOk(runs: seq<seq<SortKey>>) {
    forall r :: 0 <= r < |runs| ==> Strict(runs[r])
  }

  predicate Strict(s: seq<SortKey>) {
    forall i, j :: 0 <= i < j < |s| ==> s[i].pos < s[j].pos
  }

  // ----- what the merge is for

  /** The key at position `x` of a run, if it has one. */
  function FindPos(s: seq<SortKey>, x: int, n: nat): (r: Option<SortKey>)
    requires n <= |s|
    ensures r.Some? ==> r.value.pos == x && r.value in s
    ensures r.None? ==> forall i :: 0 <= i < n ==> s[i].pos != x
  {
    if n == 0 then None else if s[n - 1].pos == x then Some(s[n - 1]) else FindPos(s, x, n - 1)
  }

  /** The newest key at position `x` in the first `n` runs. */
  function Overlay(runs: seq<seq<SortKey>>, x: int, n: nat): Option<SortKey>
    requires n <= |runs|
  {
    if n == 0 then None
    else
      var k := FindPos(runs[n - 1], x, |runs[n - 1]|);
      if k.Some? then k else Overlay(runs, x, n - 1)
  }

  predicate NoneIn(s: seq<SortKey>, x: int) {
    forall i :: 0 <= i < |s| ==> s[i].pos != x
  }

  /** A key that no later run has a key over is the overlay's. */
  lemma {:induction false} NewestIsOverlay(runs: seq<seq<SortKey>>, r: nat, i: nat, n: nat)
    requires RunsOk(runs) && r < n <= |runs| && i < |runs[r]|
    requires forall q :: r < q < n ==> NoneIn(runs[q], runs[r][i].pos)
    ensures Overlay(runs, runs[r][i].pos, n) == Some(runs[r][i])
  {
    var x := runs[r][i].pos;
    var k := FindPos(runs[n - 1], x, |runs[n - 1]|);
    if n - 1 == r {
      assert Strict(runs[r]);
      var j :| 0 <= j < |runs[r]| && runs[r][j] == k.value;
    } else {
      assert NoneIn(runs[n - 1], x);
      NewestIsOverlay(runs, r, i, n - 1);
    }
  }

  /** Where the overlay's key comes from. */
  lemma {:induction false} OverlayFrom(runs: seq<seq<SortKey>>, x: int, n: nat) returns (r: nat, i: nat)
    requires n <= |runs| && Overlay(runs, x, n).Some?
    ensures r < n && i < |runs[r]| && runs[r][i] == Overlay(runs, x, n).value && runs[r][i].pos == x
  {
    var k := FindPos(runs[n - 1], x, |runs[n - 1]|);
    if k.Some? {
      r := n - 1;
      i :| 0 <= i < |runs[r]| && runs[r][i] == k.value;
    } else {
      r, i := OverlayFrom(runs, x, n - 1);
    }
  }

  // ----- cursors in order

  predicate Live(runs: seq<seq<SortKey>>, c: Cursor) {
    c.run < |runs| && c.k < |runs[c.run]|
  }

  /** key_sort_fix_overlapping_cmp() < 0 */
  predicate Less(runs: seq<seq<SortKey>>, c: Cursor, d: Cursor) {
    Live(runs, c) && Live(runs, d) && (Pos(runs, c) < Pos(runs, d) || (Pos(runs, c) == Pos(runs, d) && c.run < d.run))
  }

  function Pos(runs: seq<seq<SortKey>>, c: Cursor): int
    requires Live(runs, c)
  {
    runs[c.run][c.k].pos
  }

  predicate AllLive(runs: seq<seq<SortKey>>, cs: seq<Cursor>) {
    forall i :: 0 <= i < |cs| ==> Live(runs, cs[i])
  }

  predicate DistinctRuns(cs: seq<Cursor>) {
    forall i, j :: 0 <= i < j < |cs| ==> cs[i].run != cs[j].run
  }

  predicate Ordered(runs: seq<seq<SortKey>>, cs: seq<Cursor>, from: int) {
    forall i, j :: from <= i < j < |cs| && 0 <= i ==> Less(runs, cs[i], cs[j])
  }

  /** All but entry `i` are in order from `from` on, and those before `i` are before it. */
  predicate OrderedBut(runs: seq<seq<SortKey>>, cs: seq<Cursor>, from: int, i: int)
    requires 0 <= i < |cs|
  {
    && (forall u, v :: 0 <= from <= u < v < |cs| && u != i && v != i ==> Less(runs, cs[u], cs[v]))
    && (forall u :: 0 <= from <= u < i ==> Less(runs, cs[u], cs[i]))
  }

  function Exchange(cs: seq<Cursor>, i: nat): (ds: seq<Cursor>)
    requires i + 1 < |cs|
    ensures |ds| == |cs| && multiset(ds) == multiset(cs)
  {
    cs[i := cs[i + 1]][i + 1 := cs[i]]
  }

  lemma ExchangeKeeps(runs: seq<seq<SortKey>>, cs: seq<Cursor>, from: nat, i: nat)
    requires AllLive(runs, cs) && DistinctRuns(cs) && from <= i && i + 1 < |cs| && OrderedBut(runs, cs, from, i)
    requires Less(runs, cs[i + 1], cs[i])
    ensures AllLive(runs, Exchange(cs, i)) && DistinctRuns(Exchange(cs, i))
    ensures OrderedBut(runs, Exchange(cs, i), from, i + 1)
  {
  }

  /** Let entry `from` sink to its place. */
  method Sift(runs: seq<seq<SortKey>>, cs: seq<Cursor>, from: nat) returns (ds: seq<Cursor>)
    requires AllLive(runs, cs) && DistinctRuns(cs) && from < |cs| && Ordered(runs, cs, from + 1)
    ensures AllLive(runs, ds) && DistinctRuns(ds) && Ordered(runs, ds, from) && multiset(ds) == multiset(cs)
    ensures |ds| == |cs|
  {
    ds := cs;
    var i := from;
    while i + 1 < |ds| && Less(runs, ds[i + 1], ds[i])
      invariant from <= i < |ds| == |cs| && AllLive(runs, ds) && DistinctRuns(ds) && OrderedBut(runs, ds, from, i)
      invariant multiset(ds) == multiset(cs)
    {
      ExchangeKeeps(runs, ds, from, i);
      ds := Exchange(ds, i);
      i := i + 1;
    }
    SiftDone(runs, ds, from, i);
  }

  lemma SiftDone(runs: seq<seq<SortKey>>, cs: seq<Cursor>, from: nat, i: nat)
    requires AllLive(runs, cs) && DistinctRuns(cs) && from <= i < |cs| && OrderedBut(runs, cs, from, i)
    requires i + 1 < |cs| ==> !Less(runs, cs[i + 1], cs[i])
    ensures Ordered(runs, cs, from)
  {
    forall u, v | from <= u < v < |cs|
      ensures Less(runs, cs[u], cs[v])
    {
      if u == i {
        assert v != i + 1 ==> Less(runs, cs[i + 1], cs[v]);
      }
    }
  }

  method SortCursors(runs: seq<seq<SortKey>>, cs: seq<Cursor>) returns (ds: seq<Cursor>)
    requires AllLive(runs, cs) && DistinctRuns(cs)
    ensures AllLive(runs, ds) && Ordered(runs, ds, 0) && multiset(ds) == multiset(cs)
  {
    ds := cs;
    var i := |cs|;
    while i != 0
      invariant 0 <= i <= |ds| == |cs| && AllLive(runs, ds) && DistinctRuns(ds) && Ordered(runs, ds, i)
      invariant multiset(ds) == multiset(cs)
    {
      i := i - 1;
      ds := Sift(runs, ds, i);
    }
  }

  // ----- positions in the runs

  predicate PosOk(runs: seq<seq<SortKey>>, p: seq<nat>) {
    |p| == |runs| && forall r :: 0 <= r < |p| ==> p[r] <= |runs[r]|
  }

  predicate Rem(runs: seq<seq<SortKey>>, p: seq<nat>, c: Cursor)
    requires PosOk(runs, p)
  {
    Live(runs, c) && p[c.run] <= c.k
  }

  predicate Used(runs: seq<seq<SortKey>>, p: seq<nat>, c: Cursor)
    requires PosOk(runs, p)
  {
    Live(runs, c) && c.k < p[c.run]
  }

  /** The cursors stand at the heads of all unfinished runs, in order. */
  predicate CursorsOk(runs: seq<seq<SortKey>>, p: seq<nat>, cs: seq<Cursor>)
    requires PosOk(runs, p)
  {
    && AllLive(runs, cs) && Ordered(runs, cs, 0)
    && (forall i :: 0 <= i < |cs| ==> cs[i].k == p[cs[i].run])
    && (forall r :: 0 <= r < |p| && p[r] < |runs[r]| ==> Cursor(r, p[r]) in cs)
  }

  /** Used keys come before remaining ones. */
  ghost predicate Cut(runs: seq<seq<SortKey>>, p: seq<nat>)
    requires PosOk(runs, p)
  {
    forall c, d :: Used(runs, p, c) && Rem(runs, p, d) ==> Less(runs, c, d)
  }

  /** A remaining key's run has a cursor at or before it. */
  lemma HeadOf(runs: seq<seq<SortKey>>, p: seq<nat>, cs: seq<Cursor>, c: Cursor) returns (i: nat)
    requires RunsOk(runs) && PosOk(runs, p) && CursorsOk(runs, p, cs) && Rem(runs, p, c)
    ensures i < |cs| && cs[i].run == c.run && cs[i].k <= c.k
    ensures Pos(runs, cs[i]) <= Pos(runs, c) && (Pos(runs, cs[i]) == Pos(runs, c) ==> cs[i] == c)
  {
    i :| 0 <= i < |cs| && cs[i] == Cursor(c.run, p[c.run]);
    assert Strict(runs[c.run]);
  }

  lemma LeastRemaining(runs: seq<seq<SortKey>>, p: seq<nat>, cs: seq<Cursor>, c: Cursor)
    requires RunsOk(runs) && PosOk(runs, p) && CursorsOk(runs, p, cs) && Rem(runs, p, c)
    ensures |cs| > 0 && (c == cs[0] || Less(runs, cs[0], c))
  {
    var i := HeadOf(runs, p, cs, c);
    if i > 0 {
      assert Less(runs, cs[0], cs[i]);
    }
  }

  /** If another remaining key shares the first one's position, so does the second cursor. */
  lemma SharedPosition(runs: seq<seq<SortKey>>, p: seq<nat>, cs: seq<Cursor>, c: Cursor)
    requires RunsOk(runs) && PosOk(runs, p) && CursorsOk(runs, p, cs) && Rem(runs, p, c) && |cs| > 0
    requires c != cs[0] && Pos(runs, c) == Pos(runs, cs[0])
    ensures |cs| >= 2 && Pos(runs, cs[1]) == Pos(runs, cs[0])
  {
    var i := HeadOf(runs, p, cs, c);
    if i > 0 {
      assert Less(runs, cs[0], cs[1]);
      assert i > 1 ==> Less(runs, cs[1], cs[i]);
    }
  }

  // ----- consuming the first key

  function Past(p: seq<nat>, c: Cursor): seq<nat>
    requires c.run < |p|
  {
    p[c.run := c.k + 1]
  }

  lemma PastSets(runs: seq<seq<SortKey>>, p: seq<nat>, x: Cursor, c: Cursor)
    requires PosOk(runs, p) && Live(runs, x) && p[x.run] == x.k
    ensures PosOk(runs, Past(p, x))
    ensures Used(runs, Past(p, x), c) <==> Used(runs, p, c) || c == x
    ensures Rem(runs, Past(p, x), c) <==> Rem(runs, p, c) && c != x
  {
  }

  lemma CutStep(runs: seq<seq<SortKey>>, p: seq<nat>, cs: seq<Cursor>)
    requires RunsOk(runs) && PosOk(runs, p) && CursorsOk(runs, p, cs) && Cut(runs, p) && |cs| > 0
    ensures PosOk(runs, Past(p, cs[0])) && Cut(runs, Past(p, cs[0]))
  {
    PastSets(runs, p, cs[0], cs[0]);
    forall c, d | Used(runs, Past(p, cs[0]), c) && Rem(runs, Past(p, cs[0]), d)
      ensures Less(runs, c, d)
    {
      PastSets(runs, p, cs[0], c);
      PastSets(runs, p, cs[0], d);
      LeastRemaining(runs, p, cs, d);
    }
  }

  lemma OrderedDistinct(runs: seq<seq<SortKey>>, p: seq<nat>, cs: seq<Cursor>)
    requires PosOk(runs, p) && CursorsOk(runs, p, cs)
    ensures DistinctRuns(cs)
  {
    forall i, j | 0 <= i < j < |cs|
      ensures cs[i].run != cs[j].run
    {
      assert Less(runs, cs[i], cs[j]);
    }
  }

  method Advance(runs: seq<seq<SortKey>>, cs: seq<Cursor>, ghost p: seq<nat>) returns (ds: seq<Cursor>)
    requires RunsOk(runs) && PosOk(runs, p) && CursorsOk(runs, p, cs) && |cs| > 0
    ensures PosOk(runs, Past(p, cs[0])) && CursorsOk(runs, Past(p, cs[0]), ds)
  {
    PastSets(runs, p, cs[0], cs[0]);
    OrderedDistinct(runs, p, cs);
    if cs[0].k + 1 == |runs[cs[0].run]| {
      ds := cs[1..];
      NewCursors(runs, p, cs, ds);
    } else {
      var moved := cs[0 := Cursor(cs[0].run, cs[0].k + 1)];
      MovedOrder(runs, cs, moved);
      ds := Sift(runs, moved, 0);
      NewCursors(runs, p, cs, ds);
    }
  }

  lemma MovedOrder(runs: seq<seq<SortKey>>, cs: seq<Cursor>, moved: seq<Cursor>)
    requires AllLive(runs, cs) && Ordered(runs, cs, 0) && DistinctRuns(cs) && |cs| > 0
    requires cs[0].k + 1 < |runs[cs[0].run]|
    requires moved == cs[0 := Cursor(cs[0].run, cs[0].k + 1)]
    ensures AllLive(runs, moved) && DistinctRuns(moved) && Ordered(runs, moved, 1)
  {
  }

  function Moved(runs: seq<seq<SortKey>>, cs: seq<Cursor>): seq<Cursor>
    requires AllLive(runs, cs) && |cs| > 0
  {
    if cs[0].k + 1 == |runs[cs[0].run]| then cs[1..] else cs[0 := Cursor(cs[0].run, cs[0].k + 1)]
  }

  lemma NewCursors(runs: seq<seq<SortKey>>, p: seq<nat>, cs: seq<Cursor>, ds: seq<Cursor>)
    requires PosOk(runs, p) && CursorsOk(runs, p, cs) && DistinctRuns(cs) && |cs| > 0 && PosOk(runs, Past(p, cs[0]))
    requires AllLive(runs, ds) && Ordered(runs, ds, 0) && multiset(ds) == multiset(Moved(runs, cs))
    ensures CursorsOk(runs, Past(p, cs[0]), ds)
  {
    var p', ms := Past(p, cs[0]), Moved(runs, cs);
    forall i | 0 <= i < |ds|
      ensures ds[i].k == p'[ds[i].run]
    {
      assert ds[i] in multiset(ms);
      var j :| 0 <= j < |ms| && ms[j] == ds[i];
      MovedAtHead(runs, p, cs, j);
    }
    forall r | 0 <= r < |p'| && p'[r] < |runs[r]|
      ensures Cursor(r, p'[r]) in ds
    {
      HeadListed(runs, p, cs, ms, r);
      assert Cursor(r, p'[r]) in multiset(ms);
    }
  }

  lemma MovedAtHead(runs: seq<seq<SortKey>>, p: seq<nat>, cs: seq<Cursor>, j: nat)
    requires PosOk(runs, p) && CursorsOk(runs, p, cs) && DistinctRuns(cs) && |cs| > 0 && j < |Moved(runs, cs)|
    ensures var m := Moved(runs, cs)[j]; m.run < |p| && m.k == Past(p, cs[0])[m.run]
  {
    var i := if |Moved(runs, cs)| == |cs| then j else j + 1;
    assert i > 0 ==> Moved(runs, cs)[j] == cs[i];
  }

  lemma HeadListed(runs: seq<seq<SortKey>>, p: seq<nat>, cs: seq<Cursor>, ms: seq<Cursor>, r: nat)
    requires PosOk(runs, p) && CursorsOk(runs, p, cs) && |cs| > 0
    requires ms == Moved(runs, cs)
    requires r < |p| && Past(p, cs[0])[r] < |runs[r]|
    ensures Cursor(r, Past(p, cs[0])[r]) in ms
  {
    if r == cs[0].run {
      assert ms[0] == Cursor(r, cs[0].k + 1);
    } else {
      var j :| 0 <= j < |cs| && cs[j] == Cursor(r, p[r]);
      assert j > 0;
      assert ms[if |ms| == |cs| then j else j - 1] == cs[j];
    }
  }

  // ----- the merge

  /** What has been written: live overlay keys below everything that remains. */
  ghost predicate Merged(runs: seq<seq<SortKey>>, p: seq<nat>, out: seq<SortKey>)
    requires PosOk(runs, p)
  {
    && Strict(out)
    && (forall i :: 0 <= i < |out| ==> !out[i].deleted && Overlay(runs, out[i].pos, |runs|) == Some(out[i]))
    && (forall i, c :: 0 <= i < |out| && Rem(runs, p, c) ==> out[i].pos < Pos(runs, c))
    && (forall x :: Wanted(runs, x) ==> Written(out, x) || Waiting(runs, p, x))
  }

  /** Position `x` has a live newest key. */
  predicate Wanted(runs: seq<seq<SortKey>>, x: int) {
    var k := Overlay(runs, x, |runs|); k.Some? && !k.value.deleted
  }

  predicate Written(out: seq<SortKey>, x: int) {
    exists i :: 0 <= i < |out| && out[i].pos == x
  }

  ghost predicate Waiting(runs: seq<seq<SortKey>>, p: seq<nat>, x: int)
    requires PosOk(runs, p)
  {
    exists c :: Rem(runs, p, c) && Pos(runs, c) == x
  }

  /** With no other remaining key at its position, the first key is the newest there. */
  lemma FirstIsNewest(runs: seq<seq<SortKey>>, p: seq<nat>, cs: seq<Cursor>)
    requires RunsOk(runs) && PosOk(runs, p) && CursorsOk(runs, p, cs) && Cut(runs, p) && |cs| > 0
    requires !(|cs| >= 2 && Pos(runs, cs[0]) == Pos(runs, cs[1]))
    ensures Overlay(runs, Pos(runs, cs[0]), |runs|) == Some(runs[cs[0].run][cs[0].k])
  {
    var a := cs[0];
    forall q | a.run < q < |runs|
      ensures NoneIn(runs[q], Pos(runs, a))
    {
      forall j | 0 <= j < |runs[q]|
        ensures runs[q][j].pos != Pos(runs, a)
      {
        NotShared(runs, p, cs, Cursor(q, j));
      }
    }
    NewestIsOverlay(runs, a.run, a.k, |runs|);
  }

  lemma NotShared(runs: seq<seq<SortKey>>, p: seq<nat>, cs: seq<Cursor>, c: Cursor)
    requires RunsOk(runs) && PosOk(runs, p) && CursorsOk(runs, p, cs) && Cut(runs, p) && |cs| > 0 && Live(runs, c)
    requires c.run > cs[0].run
    requires !(|cs| >= 2 && Pos(runs, cs[0]) == Pos(runs, cs[1]))
    ensures Pos(runs, c) != Pos(runs, cs[0])
  {
    assert Rem(runs, p, cs[0]);
    if Used(runs, p, c) {
      assert Less(runs, c, cs[0]);
    } else if Pos(runs, c) == Pos(runs, cs[0]) {
      SharedPosition(runs, p, cs, c);
    }
  }

  lemma MergedStep(
      runs: seq<seq<SortKey>>, p: seq<nat>, cs: seq<Cursor>, out: seq<SortKey>, out': seq<SortKey>, drop: bool)
    requires RunsOk(runs) && PosOk(runs, p) && CursorsOk(runs, p, cs) && Cut(runs, p) && |cs| > 0
    requires Merged(runs, p, out)
    requires drop == (|cs| >= 2 && Pos(runs, cs[0]) == Pos(runs, cs[1]))
    requires var k := runs[cs[0].run][cs[0].k]; out' == if !k.deleted && !drop then out + [k] else out
    ensures PosOk(runs, Past(p, cs[0])) && Merged(runs, Past(p, cs[0]), out')
  {
    var a, p' := cs[0], Past(p, cs[0]);
    var k := runs[a.run][a.k];
    PastSets(runs, p, a, a);
    if !drop {
      FirstIsNewest(runs, p, cs);
    }
    forall i, c | 0 <= i < |out'| && Rem(runs, p', c)
      ensures out'[i].pos < Pos(runs, c)
    {
      PastSets(runs, p, a, c);
      StepBelow(runs, p, cs, out, out', i, c);
    }
    forall x | Wanted(runs, x)
      ensures Written(out', x) || Waiting(runs, p', x)
    {
      StepKeepsWanted(runs, p, cs, out, out', x, drop);
    }
  }

  lemma StepBelow(
      runs: seq<seq<SortKey>>, p: seq<nat>, cs: seq<Cursor>, out: seq<SortKey>, out': seq<SortKey>, i: nat, c: Cursor)
    requires RunsOk(runs) && PosOk(runs, p) && CursorsOk(runs, p, cs) && |cs| > 0 && Merged(runs, p, out)
    requires var k := runs[cs[0].run][cs[0].k];
             out' == out || (out' == out + [k] && !(|cs| >= 2 && Pos(runs, cs[0]) == Pos(runs, cs[1])))
    requires i < |out'| && Rem(runs, p, c) && c != cs[0]
    ensures out'[i].pos < Pos(runs, c)
  {
    if i == |out| {
      LeastRemaining(runs, p, cs, c);
      if Pos(runs, c) == Pos(runs, cs[0]) {
        SharedPosition(runs, p, cs, c);
      }
    }
  }

  lemma StepKeepsWanted(
      runs: seq<seq<SortKey>>, p: seq<nat>, cs: seq<Cursor>, out: seq<SortKey>, out': seq<SortKey>, x: int, drop: bool)
    requires PosOk(runs, p) && CursorsOk(runs, p, cs) && |cs| > 0 && Merged(runs, p, out) && Wanted(runs, x)
    requires drop == (|cs| >= 2 && Pos(runs, cs[0]) == Pos(runs, cs[1]))
    requires !drop ==> Overlay(runs, Pos(runs, cs[0]), |runs|) == Some(runs[cs[0].run][cs[0].k])
    requires var k := runs[cs[0].run][cs[0].k]; out' == if !k.deleted && !drop then out + [k] else out
    ensures PosOk(runs, Past(p, cs[0])) && (Written(out', x) || Waiting(runs, Past(p, cs[0]), x))
  {
    var a := cs[0];
    PastSets(runs, p, a, a);
    if Written(out, x) {
      var i :| 0 <= i < |out| && out[i].pos == x;
      assert out'[i].pos == x;
    } else {
      var c :| Rem(runs, p, c) && Pos(runs, c) == x;
      PastSets(runs, p, a, c);
      if c == a {
        if drop {
          assert Less(runs, cs[0], cs[1]);
          PastSets(runs, p, a, cs[1]);
          assert Rem(runs, Past(p, a), cs[1]);
        } else {
          assert out'[|out|].pos == x;
        }
      }
    }
  }

  // ----- counters

  function Words(s: seq<SortKey>, n: nat): nat
    requires n <= |s|
  {
    if n == 0 then 0 else Words(s, n - 1) + s[n - 1].u64s
  }

  function PackedKeys(s: seq<SortKey>, n: nat): nat
    requires n <= |s|
  {
    if n == 0 then 0 else PackedKeys(s, n - 1) + if s[n - 1].packed then 1 else 0
  }

  predicate Counted(s: seq<SortKey>, nr: Counts) {
    nr.live == Words(s, |s|) && nr.packed == PackedKeys(s, |s|) && nr.packed + nr.unpacked == |s|
  }

  lemma {:induction false} CountPrefix(s: seq<SortKey>, k: SortKey, n: nat)
    requires n <= |s|
    ensures Words(s + [k], n) == Words(s, n) && PackedKeys(s + [k], n) == PackedKeys(s, n)
  {
    if n > 0 {
      CountPrefix(s, k, n - 1);
    }
  }

  /** btree_keys_account_key with sign 1 */
  function Account(nr: Counts, k: SortKey): Counts {
    Counts(nr.live + k.u64s, nr.packed + (if k.packed then 1 else 0), nr.unpacked + (if k.packed then 0 else 1))
  }

  lemma CountStep(s: seq<SortKey>, nr: Counts, k: SortKey)
    requires Counted(s, nr)
    ensures Counted(s + [k], Account(nr, k))
  {
    CountPrefix(s, k, |s|);
  }

  // ----- the operation

  function Left(runs: seq<seq<SortKey>>, p: seq<nat>, n: nat): nat
    requires PosOk(runs, p) && n <= |p|
  {
    if n == 0 then 0 else Left(runs, p, n - 1) + |runs[n - 1]| - p[n - 1]
  }

  lemma {:induction false} LeftPast(runs: seq<seq<SortKey>>, p: seq<nat>, c: Cursor, n: nat)
    requires PosOk(runs, p) && Live(runs, c) && p[c.run] == c.k && PosOk(runs, Past(p, c)) && n <= |p|
    ensures Left(runs, Past(p, c), n) == Left(runs, p, n) - (if c.run < n then 1 else 0)
  {
    if n > 0 {
      LeftPast(runs, p, c, n - 1);
    }
  }

  method Heads(runs: seq<seq<SortKey>>) returns (cs: seq<Cursor>)
    ensures AllLive(runs, cs) && DistinctRuns(cs)
    ensures forall i :: 0 <= i < |cs| ==> cs[i].k == 0
    ensures forall r :: 0 <= r < |runs| && |runs[r]| > 0 ==> Cursor(r, 0) in cs
  {
    cs := [];
    for r := 0 to |runs|
      invariant AllLive(runs, cs) && DistinctRuns(cs)
      invariant forall i :: 0 <= i < |cs| ==> cs[i].k == 0 && cs[i].run < r
      invariant forall q :: 0 <= q < r && |runs[q]| > 0 ==> Cursor(q, 0) in cs
    {
      if |runs[r]| > 0 {
        cs := cs + [Cursor(r, 0)];
      }
    }
  }

  /**
   The overlay of the runs: strictly sorted, at each position the newest key unless that is
   deleted, with counters to match.
   */
  method FixOverlapping(runs: seq<seq<SortKey>>) returns (out: seq<SortKey>, nr: Counts)
    requires RunsOk(runs)
    ensures Strict(out)
    ensures forall i :: 0 <= i < |out| ==> !out[i].deleted && Overlay(runs, out[i].pos, |runs|) == Some(out[i])
    ensures forall x :: Wanted(runs, x) <==> Written(out, x)
    ensures Counted(out, nr)
  {
    var hs := Heads(runs);
    var cs := SortCursors(runs, hs);
    ghost var p: seq<nat> := seq(|runs|, r => 0);
    StartCursors(runs, p, hs, cs);
    out, nr := [], Counts(0, 0, 0);
    while |cs| != 0
      invariant PosOk(runs, p) && CursorsOk(runs, p, cs) && Cut(runs, p) && Merged(runs, p, out) && Counted(out, nr)
      decreases Left(runs, p, |p|)
    {
      out, nr, cs, p := MergeOne(runs, p, cs, out, nr);
    }
    MergeEnds(runs, p, cs, out);
  }

  method MergeOne(runs: seq<seq<SortKey>>, ghost p: seq<nat>, cs: seq<Cursor>, out: seq<SortKey>, nr: Counts)
      returns (out': seq<SortKey>, nr': Counts, cs': seq<Cursor>, ghost p': seq<nat>)
    requires RunsOk(runs) && PosOk(runs, p) && CursorsOk(runs, p, cs) && Cut(runs, p) && Merged(runs, p, out)
    requires Counted(out, nr) && |cs| > 0
    ensures PosOk(runs, p') && CursorsOk(runs, p', cs') && Cut(runs, p') && Merged(runs, p', out') && Counted(out', nr')
    ensures |p'| == |p| && Left(runs, p', |p'|) < Left(runs, p, |p|)
  {
    var k := runs[cs[0].run][cs[0].k];
    var drop := |cs| >= 2 && runs[cs[0].run][cs[0].k].pos == runs[cs[1].run][cs[1].k].pos;
    out', nr' := out, nr;
    if !k.deleted && !drop {
      CountStep(out, nr, k);
      out', nr' := out + [k], Account(nr, k);
    }
    MergedStep(runs, p, cs, out, out', drop);
    CutStep(runs, p, cs);
    LeftPast(runs, p, cs[0], |p|);
    cs' := Advance(runs, cs, p);
    p' := Past(p, cs[0]);
  }

  lemma StartCursors(runs: seq<seq<SortKey>>, p: seq<nat>, hs: seq<Cursor>, cs: seq<Cursor>)
    requires |p| == |runs| && (forall r :: 0 <= r < |p| ==> p[r] == 0) && multiset(cs) == multiset(hs)
    requires AllLive(runs, hs) && AllLive(runs, cs) && Ordered(runs, cs, 0)
    requires forall i :: 0 <= i < |hs| ==> hs[i].k == 0
    requires forall r :: 0 <= r < |runs| && |runs[r]| > 0 ==> Cursor(r, 0) in hs
    ensures PosOk(runs, p) && CursorsOk(runs, p, cs) && Cut(runs, p) && Merged(runs, p, [])
  {
    forall i | 0 <= i < |cs|
      ensures cs[i].k == p[cs[i].run]
    {
      assert cs[i] in multiset(hs);
    }
    forall r | 0 <= r < |p| && p[r] < |runs[r]|
      ensures Cursor(r, p[r]) in cs
    {
      assert Cursor(r, 0) in multiset(hs);
    }
    forall x | Wanted(runs, x)
      ensures Waiting(runs, p, x)
    {
      var r, i := OverlayFrom(runs, x, |runs|);
      assert Rem(runs, p, Cursor(r, i));
    }
  }

  lemma MergeEnds(runs: seq<seq<SortKey>>, p: seq<nat>, cs: seq<Cursor>, out: seq<SortKey>)
    requires PosOk(runs, p) && CursorsOk(runs, p, cs) && |cs| == 0 && Merged(runs, p, out)
    ensures forall x :: Wanted(runs, x) <==> Written(out, x)
  {
    forall x
      ensures Wanted(runs, x) <==> Written(out, x)
    {
      if Written(out, x) {
        var i :| 0 <= i < |out| && out[i].pos == x;
      }
    }
  }
}
