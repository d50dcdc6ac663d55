/**
 The node iterator: a merge of up to three sorted runs through a three-slot array kept in
 order.  Keys are addressed by offsets, counted in keys; between runs lies at least one offset
 that is no key (a run's header), and offset 0 is never a key.
 */
module NodeIter {
  import opened PackedKeys
  import NodeKeys

  const MaxRuns: nat := 3

  datatype IterKey = IterKey(pos: Pos, deleted: bool)

  datatype Runs = Runs(keys: seq<seq<IterKey>>, base: seq<nat>)

  function End(n: Runs, r: nat): nat
    requires r < |n.keys| == |n.base|
  {
    n.base[r] + |n.keys[r]|
  }

  /** Offsets of later runs are larger, and no two runs touch. */
  predicate Placed(n: Runs) {
    && |n.keys| == |n.base| <= MaxRuns
    && (forall r :: 0 <= r < |n.base| ==> n.base[r] >= 1)
    && (forall r, q :: 0 <= r < q < |n.base| ==> End(n, r) < n.base[q])
  }

  /** The first run that ends after an offset. */
  function RunOf(n: Runs, o: nat, r: nat): (q: nat)
    requires Placed(n) && r <= |n.keys|
    ensures r <= q <= |n.keys|
    ensures q < |n.keys| ==> o < End(n, q)
    decreases |n.keys| - r
  {
    if r == |n.keys| || o < End(n, r) then r else RunOf(n, o, r + 1)
  }

  predicate IsKey(n: Runs, o: nat)
    requires Placed(n)
  {
    var r := RunOf(n, o, 0);
    r < |n.keys| && n.base[r] <= o
  }

  function RunAt(n: Runs, o: nat): (r: nat)
    requires Placed(n) && IsKey(n, o)
    ensures r < |n.keys| && n.base[r] <= o < End(n, r)
  {
    RunOf(n, o, 0)
  }

  lemma InRun(n: Runs, r: nat, o: nat)
    requires Placed(n) && r < |n.keys| && n.base[r] <= o < End(n, r)
    ensures IsKey(n, o) && RunAt(n, o) == r
  {
    RunOfFrom(n, r, o, 0);
  }

  lemma {:induction false} RunOfFrom(n: Runs, r: nat, o: nat, i: nat)
    requires Placed(n) && i <= r < |n.keys| && n.base[r] <= o < End(n, r)
    ensures RunOf(n, o, i) == r
    decreases r - i
  {
    if i < r {
      assert End(n, i) < n.base[r];
      RunOfFrom(n, r, o, i + 1);
    }
  }

  function KeyAt(n: Runs, o: nat): IterKey
    requires Placed(n) && IsKey(n, o)
  {
    n.keys[RunAt(n, o)][o - n.base[RunAt(n, o)]]
  }

  /** bkey_iter_cmp() < 0: by position, deleted keys first, then by address. */
  predicate KeyLess(a: IterKey, oa: int, b: IterKey, ob: int) {
    || PosCmp(a.pos, b.pos) < 0
    || (PosCmp(a.pos, b.pos) == 0 && ((a.deleted && !b.deleted) || (a.deleted == b.deleted && oa < ob)))
  }

  predicate Less(n: Runs, a: nat, b: nat)
    requires Placed(n) && IsKey(n, a) && IsKey(n, b)
  {
    KeyLess(KeyAt(n, a), a, KeyAt(n, b), b)
  }

  /** Every run is sorted: of keys at one position only the last may be live. */
  predicate RunsOk(n: Runs) {
    && Placed(n)
    && forall r, i, j :: 0 <= r < |n.keys| && 0 <= i < j < |n.keys[r]| ==> InOrder(n.keys[r][i], n.keys[r][j])
  }

  predicate InOrder(k: IterKey, l: IterKey) {
    Precedes(k.pos, k.deleted, l.pos)
  }

  lemma RunSorted(n: Runs, a: nat, b: nat)
    requires RunsOk(n) && IsKey(n, a) && IsKey(n, b) && RunAt(n, a) == RunAt(n, b) && a < b
    ensures Less(n, a, b)
  {
    var r := RunAt(n, a);
    assert InOrder(n.keys[r][a - n.base[r]], n.keys[r][b - n.base[r]]);
    NodeKeys.PosAntisymmetric(KeyAt(n, a).pos, KeyAt(n, b).pos);
  }

  // ----- the order is total, so keys can be numbered by it

  lemma LessTransitive(n: Runs, a: nat, b: nat, c: nat)
    requires Placed(n) && IsKey(n, a) && IsKey(n, b) && IsKey(n, c) && Less(n, a, b) && Less(n, b, c)
    ensures Less(n, a, c)
  {
    KeyLessTransitive(KeyAt(n, a), a, KeyAt(n, b), b, KeyAt(n, c), c);
  }

  lemma KeyLessTransitive(a: IterKey, oa: int, b: IterKey, ob: int, c: IterKey, oc: int)
    requires KeyLess(a, oa, b, ob) && KeyLess(b, ob, c, oc)
    ensures KeyLess(a, oa, c, oc)
  {
    NodeKeys.PosTransitive(a.pos, b.pos, c.pos);
  }

  lemma LessTotal(n: Runs, a: nat, b: nat)
    requires Placed(n) && IsKey(n, a) && IsKey(n, b)
    ensures a != b ==> (Less(n, a, b) <==> !Less(n, b, a))
    ensures !Less(n, a, a)
  {
    NodeKeys.PosAntisymmetric(KeyAt(n, a).pos, KeyAt(n, b).pos);
  }

  /** `rk` numbers the keys in their order. */
  ghost predicate Ranked(n: Runs, rk: nat -> int)
    requires Placed(n)
  {
    forall a: nat, b: nat {:trigger Less(n, a, b)} :: IsKey(n, a) && IsKey(n, b) ==> (Less(n, a, b) <==> rk(a) < rk(b))
  }

  lemma RankTotal(n: Runs, rk: nat -> int, a: nat, b: nat)
    requires Placed(n) && Ranked(n, rk) && IsKey(n, a) && IsKey(n, b)
    ensures a != b ==> rk(a) != rk(b)
    ensures Less(n, a, b) <==> rk(a) < rk(b)
    ensures Less(n, b, a) <==> rk(b) < rk(a)
  {
    LessTotal(n, a, b);
  }

  /** An offset past every key. */
  function Limit(n: Runs, r: nat): nat
    requires Placed(n) && r <= |n.keys|
  {
    if r == 0 then 0 else Limit(n, r - 1) + End(n, r - 1)
  }

  lemma {:induction false} BelowLimit(n: Runs, r: nat, q: nat)
    requires Placed(n) && q < r <= |n.keys|
    ensures End(n, q) <= Limit(n, r)
  {
    if q < r - 1 {
      BelowLimit(n, r - 1, q);
    }
  }

  ghost function KeysBelow(n: Runs, a: nat): set<nat>
    requires Placed(n) && IsKey(n, a)
  {
    set b: nat | b < Limit(n, |n.keys|) && IsKey(n, b) && Less(n, b, a)
  }

  lemma RankGrows(n: Runs, a: nat, b: nat)
    requires Placed(n) && IsKey(n, a) && IsKey(n, b) && Less(n, a, b)
    ensures |KeysBelow(n, a)| < |KeysBelow(n, b)|
  {
    var sa, sb := KeysBelow(n, a), KeysBelow(n, b);
    forall x | x in sa
      ensures x in sb
    {
      LessTransitive(n, x, a, b);
    }
    BelowLimit(n, |n.keys|, RunAt(n, a));
    LessTotal(n, a, a);
    assert a in sb && a !in sa;
    SmallerSet(sa, sb);
  }

  lemma SmallerSet(a: set<nat>, b: set<nat>)
    requires a < b
    ensures |a| < |b|
  {
    assert b == a + (b - a) && |b - a| > 0;
  }

  lemma RankExists(n: Runs) returns (rk: nat -> int)
    requires Placed(n)
    ensures Ranked(n, rk)
  {
    rk := (a: nat) => if IsKey(n, a) then |KeysBelow(n, a)| else 0;
    forall a: nat, b: nat | IsKey(n, a) && IsKey(n, b)
      ensures Less(n, a, b) <==> rk(a) < rk(b)
    {
      LessTotal(n, a, b);
      if Less(n, a, b) {
        RankGrows(n, a, b);
      } else if a != b {
        RankGrows(n, b, a);
      }
    }
  }

  /** Ranks rise along every run. */
  ghost predicate Rises(n: Runs, rk: nat -> int)
    requires Placed(n)
  {
    forall a: nat, b: nat {:trigger SameRun(n, a, b)} :: SameRun(n, a, b) && a < b ==> rk(a) < rk(b)
  }

  predicate SameRun(n: Runs, a: nat, b: nat)
    requires Placed(n)
  {
    IsKey(n, a) && IsKey(n, b) && RunAt(n, a) == RunAt(n, b)
  }

  lemma RankRises(n: Runs, rk: nat -> int)
    requires RunsOk(n) && Ranked(n, rk)
    ensures Rises(n, rk)
  {
    forall a: nat, b: nat | SameRun(n, a, b) && a < b
      ensures rk(a) < rk(b)
    {
      RunSorted(n, a, b);
    }
  }

  // ----- positions in every run, and the heads they leave

  predicate PosOk(n: Runs, p: seq<nat>)
    requires Placed(n)
  {
    |p| == |n.keys| && forall r :: 0 <= r < |p| ==> n.base[r] <= p[r] <= End(n, r)
  }

  predicate Remaining(n: Runs, p: seq<nat>, o: nat)
    requires Placed(n) && PosOk(n, p)
  {
    IsKey(n, o) && o >= p[RunAt(n, o)]
  }

  predicate Consumed(n: Runs, p: seq<nat>, o: nat)
    requires Placed(n) && PosOk(n, p)
  {
    IsKey(n, o) && o < p[RunAt(n, o)]
  }

  predicate IsHead(n: Runs, p: seq<nat>, x: nat)
    requires Placed(n) && PosOk(n, p)
  {
    IsKey(n, x) && p[RunAt(n, x)] == x
  }

  predicate AllKeys(n: Runs, s: seq<nat>)
    requires Placed(n)
  {
    forall i :: 0 <= i < |s| ==> IsKey(n, s[i])
  }

  predicate Ascending(rk: nat -> int, s: seq<nat>) {
    forall i, j :: 0 <= i < j < |s| ==> rk(s[i]) < rk(s[j])
  }

  /** `s` lists the heads of all unfinished runs in order. */
  predicate HeadsOk(n: Runs, rk: nat -> int, p: seq<nat>, s: seq<nat>)
    requires Placed(n) && PosOk(n, p)
  {
    && Ascending(rk, s)
    && (forall i :: 0 <= i < |s| ==> IsHead(n, p, s[i]))
    && (forall r :: 0 <= r < |p| && p[r] < End(n, r) ==> p[r] in s)
  }

  /** Consumed keys come before remaining ones. */
  ghost predicate Cut(n: Runs, rk: nat -> int, p: seq<nat>)
    requires Placed(n) && PosOk(n, p)
  {
    forall a: nat, b: nat :: Consumed(n, p, a) && Remaining(n, p, b) ==> rk(a) < rk(b)
  }

  /** The first head is the least remaining key. */
  lemma FirstIsLeast(n: Runs, rk: nat -> int, p: seq<nat>, s: seq<nat>, o: nat)
    requires Placed(n) && Rises(n, rk) && PosOk(n, p) && HeadsOk(n, rk, p, s) && Remaining(n, p, o)
    ensures |s| > 0 && Remaining(n, p, s[0]) && rk(s[0]) <= rk(o) && (rk(s[0]) == rk(o) ==> o == s[0])
  {
    var r := RunAt(n, o);
    InRun(n, r, p[r]);
    var i :| 0 <= i < |s| && s[i] == p[r];
    assert IsHead(n, p, s[0]);
    assert p[r] < o ==> SameRun(n, p[r], o);
  }

  /** The positions after consuming a head. */
  function Past(n: Runs, p: seq<nat>, x: nat): (p': seq<nat>)
    requires Placed(n) && PosOk(n, p) && IsHead(n, p, x)
    ensures PosOk(n, p')
  {
    p[RunAt(n, x) := x + 1]
  }

  lemma PastSets(n: Runs, p: seq<nat>, x: nat, o: nat)
    requires Placed(n) && PosOk(n, p) && IsHead(n, p, x)
    ensures Consumed(n, Past(n, p, x), o) <==> Consumed(n, p, o) || o == x
    ensures Remaining(n, Past(n, p, x), o) <==> Remaining(n, p, o) && o != x
    ensures IsKey(n, o) && RunAt(n, o) != RunAt(n, x) ==> (IsHead(n, Past(n, p, x), o) <==> IsHead(n, p, o))
  {
  }

  /** Consuming the least remaining key. */
  lemma AdvanceCut(n: Runs, rk: nat -> int, p: seq<nat>, s: seq<nat>)
    requires Placed(n) && Rises(n, rk) && PosOk(n, p) && HeadsOk(n, rk, p, s) && Cut(n, rk, p) && |s| > 0
    ensures IsHead(n, p, s[0]) && Cut(n, rk, Past(n, p, s[0]))
  {
    assert IsHead(n, p, s[0]);
    var p' := Past(n, p, s[0]);
    forall a: nat, b: nat | Consumed(n, p', a) && Remaining(n, p', b)
      ensures rk(a) < rk(b)
    {
      PastSets(n, p, s[0], a);
      PastSets(n, p, s[0], b);
      FirstIsLeast(n, rk, p, s, b);
    }
  }

  /** The heads after the first one's run has moved on. */
  lemma AdvanceHeads(n: Runs, rk: nat -> int, p: seq<nat>, s: seq<nat>, s': seq<nat>)
    requires Placed(n) && PosOk(n, p) && HeadsOk(n, rk, p, s) && |s| > 0 && IsHead(n, p, s[0])
    requires Ascending(rk, s')
    requires forall x :: x in s' <==> x in s[1..] || (x == s[0] + 1 && x < End(n, RunAt(n, s[0])))
    ensures HeadsOk(n, rk, Past(n, p, s[0]), s')
  {
    var q := RunAt(n, s[0]);
    var p' := Past(n, p, s[0]);
    forall i | 0 <= i < |s'|
      ensures IsHead(n, p', s'[i])
    {
      assert s'[i] in s';
      if s'[i] in s[1..] {
        OtherHead(n, rk, p, s, s'[i]);
        PastSets(n, p, s[0], s'[i]);
      } else {
        InRun(n, q, s[0] + 1);
      }
    }
    forall r | 0 <= r < |p'| && p'[r] < End(n, r)
      ensures p'[r] in s'
    {
      if r != q {
        HeadStays(n, rk, p, s, r);
      }
    }
  }

  lemma HeadStays(n: Runs, rk: nat -> int, p: seq<nat>, s: seq<nat>, r: nat)
    requires Placed(n) && PosOk(n, p) && HeadsOk(n, rk, p, s) && |s| > 0 && IsKey(n, s[0])
    requires r < |p| && p[r] < End(n, r) && r != RunAt(n, s[0])
    ensures p[r] in s[1..]
  {
    InRun(n, r, p[r]);
    var i :| 0 <= i < |s| && s[i] == p[r];
    assert i > 0;
    assert s[1..][i - 1] == p[r];
  }

  /** A later head belongs to another run than the first. */
  lemma OtherHead(n: Runs, rk: nat -> int, p: seq<nat>, s: seq<nat>, x: nat)
    requires Placed(n) && PosOk(n, p) && HeadsOk(n, rk, p, s) && |s| > 0 && x in s[1..]
    ensures IsHead(n, p, s[0]) && IsHead(n, p, x) && RunAt(n, x) != RunAt(n, s[0])
  {
    var j :| 1 <= j < |s| && s[j] == x;
    assert IsHead(n, p, s[0]) && IsHead(n, p, s[j]) && rk(s[0]) < rk(s[j]);
  }

  /** Ascending lists of the same keys are the same list. */
  lemma {:induction false} AscendingUnique(rk: nat -> int, s: seq<nat>, t: seq<nat>)
    requires Ascending(rk, s) && Ascending(rk, t) && forall x :: x in s <==> x in t
    ensures s == t
  {
    assert |s| > 0 ==> s[0] in s;
    assert |t| > 0 ==> t[0] in t;
    if s != [] && t != [] {
      FirstSame(rk, s, t);
      forall x
        ensures x in s[1..] <==> x in t[1..]
      {
        TailIn(rk, s, t, x);
        TailIn(rk, t, s, x);
      }
      AscendingUnique(rk, s[1..], t[1..]);
    }
  }

  lemma TailIn(rk: nat -> int, s: seq<nat>, t: seq<nat>, x: nat)
    requires Ascending(rk, s) && |s| > 0 && |t| > 0 && s[0] == t[0] && forall x :: x in s <==> x in t
    ensures x in s[1..] ==> x in t[1..]
  {
    if x in s[1..] {
      var i :| 1 <= i < |s| && s[i] == x;
      assert x in s && x in t && x != s[0];
    }
  }

  lemma FirstSame(rk: nat -> int, s: seq<nat>, t: seq<nat>)
    requires Ascending(rk, s) && Ascending(rk, t) && |s| > 0 && |t| > 0 && forall x :: x in s <==> x in t
    ensures s[0] == t[0]
  {
    assert s[0] in s && t[0] in t;
    var i :| 0 <= i < |t| && t[i] == s[0];
    var j :| 0 <= j < |s| && s[j] == t[0];
    FirstLeast(rk, s, j);
    FirstLeast(rk, t, i);
  }

  lemma FirstLeast(rk: nat -> int, s: seq<nat>, j: nat)
    requires Ascending(rk, s) && j < |s|
    ensures rk(s[0]) <= rk(s[j]) && (j > 0 ==> rk(s[0]) < rk(s[j]))
  {
  }

  /** The heads are determined by the positions. */
  lemma HeadsUnique(n: Runs, rk: nat -> int, p: seq<nat>, s: seq<nat>, t: seq<nat>)
    requires Placed(n) && PosOk(n, p) && HeadsOk(n, rk, p, s) && HeadsOk(n, rk, p, t)
    ensures s == t
  {
    forall x
      ensures x in s <==> x in t
    {
      HeadIn(n, rk, p, s, t, x);
      HeadIn(n, rk, p, t, s, x);
    }
    AscendingUnique(rk, s, t);
  }

  lemma HeadIn(n: Runs, rk: nat -> int, p: seq<nat>, s: seq<nat>, t: seq<nat>, x: nat)
    requires Placed(n) && PosOk(n, p) && HeadsOk(n, rk, p, s) && HeadsOk(n, rk, p, t)
    ensures x in s ==> x in t
  {
    if x in s {
      var i :| 0 <= i < |s| && s[i] == x;
      assert IsHead(n, p, s[i]);
    }
  }

  // ----- at most one head per run

  predicate Distinct(s: seq<nat>) {
    forall i, j :: 0 <= i < j < |s| ==> s[i] != s[j]
  }

  lemma {:induction false} Pigeonhole(s: seq<nat>, m: nat)
    requires Distinct(s) && forall i :: 0 <= i < |s| ==> s[i] < m
    ensures |s| <= m
  {
    assert |s| > 0 ==> s[0] < m;
    if m > 0 {
      if k :| 0 <= k < |s| && s[k] == m - 1 {
        Pigeonhole(s[..k] + s[k + 1..], m - 1);
      } else {
        Pigeonhole(s, m - 1);
      }
    }
  }

  function RunsOf(n: Runs, s: seq<nat>): (q: seq<nat>)
    requires Placed(n) && AllKeys(n, s)
    ensures |q| == |s| && forall i :: 0 <= i < |s| ==> q[i] == RunAt(n, s[i])
  {
    seq(|s|, i requires 0 <= i < |s| => RunAt(n, s[i]))
  }

  lemma HeadsBound(n: Runs, rk: nat -> int, p: seq<nat>, s: seq<nat>)
    requires Placed(n) && PosOk(n, p) && HeadsOk(n, rk, p, s)
    ensures |s| <= |n.keys|
    ensures forall r :: 0 <= r < |p| && p[r] == End(n, r) ==> |s| < |n.keys|
  {
    var q := RunsOf(n, s);
    forall i, j | 0 <= i < j < |s|
      ensures q[i] != q[j]
    {
      assert IsHead(n, p, s[i]) && IsHead(n, p, s[j]) && rk(s[i]) < rk(s[j]);
    }
    Pigeonhole(q, |n.keys|);
    forall r | 0 <= r < |p| && p[r] == End(n, r)
      ensures |s| < |n.keys|
    {
      forall i | 0 <= i < |s|
        ensures q[i] != r
      {
        assert IsHead(n, p, s[i]);
      }
      Pigeonhole(q + [r], |n.keys|);
    }
  }
}
