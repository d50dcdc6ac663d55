/** What the node iterator yields: a merge of its runs, from the start or from a search position. */
module NodeWalk {
  import opened Options
  import opened PackedKeys
  import opened NodeIter
  import opened NodeMerge
  import NodeKeys

  // ----- a whole walk

  /** Keys not yet consumed in the first `r` runs. */
  function Left(n: Runs, p: seq<nat>, r: nat): nat
    requires Placed(n) && PosOk(n, p) && r <= |p|
  {
    if r == 0 then 0 else Left(n, p, r - 1) + End(n, r - 1) - p[r - 1]
  }

  lemma {:induction false} LeftPast(n: Runs, p: seq<nat>, x: nat, r: nat)
    requires Placed(n) && PosOk(n, p) && IsHead(n, p, x) && r <= |p|
    ensures Left(n, Past(n, p, x), r) == Left(n, p, r) - (if RunAt(n, x) < r then 1 else 0)
  {
    if r > 0 {
      LeftPast(n, p, x, r - 1);
    }
  }

  /** The keys yielded so far are the consumed ones, in order. */
  ghost predicate Yielded(n: Runs, rk: nat -> int, p: seq<nat>, out: seq<nat>)
    requires Placed(n) && PosOk(n, p)
  {
    Ascending(rk, out) && forall o: nat :: o in out <==> Consumed(n, p, o)
  }

  lemma YieldStep(n: Runs, rk: nat -> int, p: seq<nat>, s: seq<nat>, out: seq<nat>)
    requires Placed(n) && PosOk(n, p) && HeadsOk(n, rk, p, s) && Cut(n, rk, p) && |s| > 0 && IsHead(n, p, s[0])
    requires Yielded(n, rk, p, out)
    ensures Yielded(n, rk, Past(n, p, s[0]), out + [s[0]])
  {
    forall o: nat
      ensures o in out + [s[0]] <==> Consumed(n, Past(n, p, s[0]), o)
    {
      PastSets(n, p, s[0], o);
    }
    forall i | 0 <= i < |out|
      ensures rk(out[i]) < rk(s[0])
    {
      assert out[i] in out && Consumed(n, p, out[i]) && Remaining(n, p, s[0]);
    }
  }

  /** From the start, the iterator yields every key exactly once, in order. */
  method WalkAll(n: Runs) returns (out: seq<nat>)
    requires RunsOk(n)
    ensures forall o: nat :: o in out <==> IsKey(n, o)
    ensures forall i, j :: 0 <= i < j < |out| ==> Less(n, out[i], out[j])
  {
    var it := new NodeIterator(n);
    out := [];
    while true
      invariant it.n == n && it.Valid() && Yielded(n, it.rk, it.at, out) && fresh(it)
      decreases Left(n, it.at, |it.at|)
    {
      var k := it.PeekAll();
      ghost var p, s := it.at, it.heads;
      if k.None? {
        NothingLeft(n, it.rk, p, s);
        break;
      }
      it.Advance();
      YieldStep(n, it.rk, p, s, out);
      LeftPast(n, p, s[0], |p|);
      out := out + [k.value];
    }
    YieldedAll(n, it.rk, it.at, out);
  }

  lemma NothingLeft(n: Runs, rk: nat -> int, p: seq<nat>, s: seq<nat>)
    requires Placed(n) && PosOk(n, p) && HeadsOk(n, rk, p, s) && |s| == 0
    ensures forall o: nat :: IsKey(n, o) <==> Consumed(n, p, o)
  {
  }

  lemma YieldedAll(n: Runs, rk: nat -> int, p: seq<nat>, out: seq<nat>)
    requires Placed(n) && Ranked(n, rk) && PosOk(n, p) && Yielded(n, rk, p, out)
    requires forall o: nat :: IsKey(n, o) <==> Consumed(n, p, o)
    ensures forall o: nat :: o in out <==> IsKey(n, o)
    ensures forall i, j :: 0 <= i < j < |out| ==> Less(n, out[i], out[j])
  {
    forall i, j | 0 <= i < j < |out|
      ensures IsKey(n, out[i]) && IsKey(n, out[j]) && Less(n, out[i], out[j])
    {
      assert out[i] in out && out[j] in out;
      RankTotal(n, rk, out[i], out[j]);
    }
  }

  // ----- back and forth

  lemma LayoutUnique(n: Runs, s: seq<nat>, d: seq<Slot>, e: seq<Slot>)
    requires Layout(n, s, d) && Layout(n, s, e)
    ensures d == e
  {
  }

  /** The positions determine the slots. */
  lemma SameState(n: Runs, rk: nat -> int, p: seq<nat>, s: seq<nat>, d: seq<Slot>, t: seq<nat>, e: seq<Slot>)
    requires StateOk(n, rk, p, s, d) && StateOk(n, rk, p, t, e)
    ensures s == t && d == e
  {
    HeadsUnique(n, rk, p, s, t);
    LayoutUnique(n, s, d, e);
  }

  /** After consuming x, the last consumed key is x. */
  lemma LastIsHead(n: Runs, rk: nat -> int, p: seq<nat>, x: nat, o: nat)
    requires Placed(n) && PosOk(n, p) && Cut(n, rk, p) && IsHead(n, p, x) && IsLastConsumed(n, rk, Past(n, p, x), o)
    ensures o == x
  {
    PastSets(n, p, x, x);
    PastSets(n, p, x, o);
    assert Remaining(n, p, x);
  }

  /** Stepping back undoes stepping forward, slot for slot. */
  method ForthAndBack(it: NodeIterator) returns (k: Option<nat>, back: Option<nat>)
    requires it.Valid() && |it.heads| > 0
    modifies it
    ensures it.Valid() && it.at == old(it.at) && it.data == old(it.data)
    ensures k.Some? && back == k
  {
    ghost var n, rk, p, s, d := it.n, it.rk, it.at, it.heads, it.data;
    k := it.PeekAll();
    it.Advance();
    PastSets(n, p, s[0], s[0]);
    back := it.PrevAll();
    LastIsHead(n, rk, p, s[0], back.value);
    assert it.at == p;
    SameState(n, rk, p, s, d, it.heads, it.data);
  }

  /** And the other way round. */
  method BackAndForth(it: NodeIterator) returns (back: Option<nat>, k: Option<nat>)
    requires it.Valid()
    modifies it
    ensures it.Valid() && it.at == old(it.at) && it.data == old(it.data)
    ensures back.Some? ==> k == back
  {
    ghost var n, rk, p, s, d := it.n, it.rk, it.at, it.heads, it.data;
    back := it.PrevAll();
    k := it.PeekAll();
    if back.Some? {
      ghost var p', x := it.at, back.value;
      RankRises(n, rk);
      FirstAfterBack(n, rk, p, p', it.heads, x);
      it.Advance();
      SameState(n, rk, p, s, d, it.heads, it.data);
    }
  }

  /** The last consumed key is the one just before its run's position. */
  lemma LastAtPosition(n: Runs, rk: nat -> int, p: seq<nat>, x: nat)
    requires Placed(n) && Rises(n, rk) && PosOk(n, p) && IsLastConsumed(n, rk, p, x)
    ensures p[RunAt(n, x)] == x + 1
  {
    var r := RunAt(n, x);
    InRun(n, r, p[r] - 1);
    assert Consumed(n, p, p[r] - 1) && SameRun(n, x, p[r] - 1);
  }

  /** The key stepped back to is the first again, and consuming it leads back. */
  lemma FirstAfterBack(n: Runs, rk: nat -> int, p: seq<nat>, p': seq<nat>, s: seq<nat>, x: nat)
    requires Placed(n) && Rises(n, rk) && PosOk(n, p) && Cut(n, rk, p) && IsLastConsumed(n, rk, p, x)
    requires p' == p[RunAt(n, x) := x] && PosOk(n, p') && HeadsOk(n, rk, p', s)
    ensures |s| > 0 && s[0] == x && IsHead(n, p', x) && Past(n, p', x) == p
  {
    LastAtPosition(n, rk, p, x);
    FirstIsLeast(n, rk, p', s, x);
    HeadsAfter(n, rk, p, p', x, s[0]);
  }

  lemma HeadsAfter(n: Runs, rk: nat -> int, p: seq<nat>, p': seq<nat>, x: nat, h: nat)
    requires Placed(n) && PosOk(n, p) && Cut(n, rk, p) && Consumed(n, p, x) && p[RunAt(n, x)] == x + 1
    requires p' == p[RunAt(n, x) := x] && PosOk(n, p') && Remaining(n, p', h) && rk(h) <= rk(x)
    ensures h == x
  {
    RemainingBack(n, p, p', x, h);
  }

  lemma RemainingBack(n: Runs, p: seq<nat>, p': seq<nat>, x: nat, h: nat)
    requires Placed(n) && PosOk(n, p) && IsKey(n, x) && p[RunAt(n, x)] == x + 1 && p' == p[RunAt(n, x) := x]
    requires PosOk(n, p')
    ensures Remaining(n, p', h) ==> h == x || Remaining(n, p, h)
  {
  }

  // ----- from a search position

  predicate Before(k: IterKey, search: Pos) {
    Precedes(k.pos, k.deleted, search)
  }

  /** Position p[r] is where a scan of run r for the search stops. */
  predicate IsSearch(n: Runs, p: seq<nat>, search: Pos)
    requires Placed(n) && PosOk(n, p)
  {
    forall r :: 0 <= r < |p| ==> RunSearched(n, p, r, search)
  }

  predicate RunSearched(n: Runs, p: seq<nat>, r: nat, search: Pos)
    requires Placed(n) && PosOk(n, p) && r < |p|
  {
    && (forall i :: 0 <= i < p[r] - n.base[r] ==> Before(n.keys[r][i], search))
    && (p[r] < End(n, r) ==> !Before(n.keys[r][p[r] - n.base[r]], search))
  }

  lemma BeforeDown(a: IterKey, oa: int, b: IterKey, ob: int, search: Pos)
    requires KeyLess(a, oa, b, ob)
    ensures Before(b, search) ==> Before(a, search)
  {
    if PosCmp(b.pos, search) <= 0 {
      NodeKeys.PosTransitive(a.pos, b.pos, search);
    }
    NodeKeys.PosAntisymmetric(b.pos, search);
    NodeKeys.PosAntisymmetric(a.pos, search);
    NodeKeys.PosAntisymmetric(a.pos, b.pos);
  }

  lemma SearchSplits(n: Runs, p: seq<nat>, search: Pos, o: nat)
    requires RunsOk(n) && PosOk(n, p) && IsSearch(n, p, search) && IsKey(n, o)
    ensures Consumed(n, p, o) <==> Before(KeyAt(n, o), search)
  {
    var r := RunAt(n, o);
    assert RunSearched(n, p, r, search);
    if p[r] < o {
      InRun(n, r, p[r]);
      RunSorted(n, p[r], o);
      BeforeDown(KeyAt(n, p[r]), p[r], KeyAt(n, o), o, search);
    }
  }

  lemma SearchCut(n: Runs, rk: nat -> int, p: seq<nat>, search: Pos)
    requires RunsOk(n) && Ranked(n, rk) && PosOk(n, p) && IsSearch(n, p, search)
    ensures Cut(n, rk, p)
  {
    forall a: nat, b: nat | Consumed(n, p, a) && Remaining(n, p, b)
      ensures rk(a) < rk(b)
    {
      SearchSplits(n, p, search, a);
      SearchSplits(n, p, search, b);
      RankTotal(n, rk, a, b);
      if Less(n, b, a) {
        BeforeDown(KeyAt(n, b), b, KeyAt(n, a), a, search);
      }
    }
  }

  /** Starting where the searches of the runs stop, what is left is every key not before the search. */
  method InitAt(it: NodeIterator, p: seq<nat>, search: Pos)
    requires it.Ready() && PosOk(it.n, p) && IsSearch(it.n, p, search)
    modifies it
    ensures it.Valid() && it.at == p
    ensures forall o: nat :: Remaining(it.n, it.at, o) <==> IsKey(it.n, o) && !Before(KeyAt(it.n, o), search)
  {
    SearchCut(it.n, it.rk, p, search);
    it.Fill(p);
    forall o: nat
      ensures Remaining(it.n, p, o) <==> IsKey(it.n, o) && !Before(KeyAt(it.n, o), search)
    {
      if IsKey(it.n, o) {
        SearchSplits(it.n, p, search, o);
      }
    }
  }

  /** Everything consumed so far is deleted or before the search. */
  ghost predicate OnlySkipped(n: Runs, p: seq<nat>, search: Pos)
    requires Placed(n) && PosOk(n, p)
  {
    forall o: nat :: Consumed(n, p, o) ==> KeyAt(n, o).deleted || Before(KeyAt(n, o), search)
  }

  /**
   The path for a search that packs to nothing: walk from the start to the first live key that
   is not before the search.  Live keys are exactly those not before the search; deleted ones
   ahead of the first of them are skipped.
   */
  method InitUnpackable(it: NodeIterator, search: Pos)
    requires it.Ready()
    modifies it
    ensures it.Valid()
    ensures forall o: nat :: Remaining(it.n, it.at, o) ==> !Before(KeyAt(it.n, o), search)
    ensures forall o: nat :: IsKey(it.n, o) && !KeyAt(it.n, o).deleted && !Before(KeyAt(it.n, o), search) ==>
      Remaining(it.n, it.at, o)
    ensures |it.heads| > 0 ==> IsKey(it.n, it.heads[0]) && !KeyAt(it.n, it.heads[0]).deleted
  {
    it.InitFromStart();
    while true
      invariant it.Valid() && OnlySkipped(it.n, it.at, search)
      decreases Left(it.n, it.at, |it.at|)
    {
      var k := it.PeekAll();
      if k.None? {
        NothingLeft(it.n, it.rk, it.at, it.heads);
        return;
      }
      HeadSlot(it.n, it.rk, it.at, it.heads, it.data);
      var key := KeyAt(it.n, k.value);
      if !key.deleted && !Before(key, search) {
        StopsHere(it.n, it.rk, it.at, it.heads, search);
        return;
      }
      ghost var p := it.at;
      SkipStep(it.n, p, k.value, search);
      LeftPast(it.n, p, k.value, |p|);
      it.Advance();
    }
  }

  lemma SkipStep(n: Runs, p: seq<nat>, x: nat, search: Pos)
    requires Placed(n) && PosOk(n, p) && IsHead(n, p, x) && OnlySkipped(n, p, search)
    requires KeyAt(n, x).deleted || Before(KeyAt(n, x), search)
    ensures OnlySkipped(n, Past(n, p, x), search)
  {
    forall o: nat | Consumed(n, Past(n, p, x), o)
      ensures KeyAt(n, o).deleted || Before(KeyAt(n, o), search)
    {
      PastSets(n, p, x, o);
    }
  }

  lemma StopsHere(n: Runs, rk: nat -> int, p: seq<nat>, s: seq<nat>, search: Pos)
    requires RunsOk(n) && Ranked(n, rk) && PosOk(n, p) && HeadsOk(n, rk, p, s) && |s| > 0 && IsHead(n, p, s[0])
    requires !Before(KeyAt(n, s[0]), search)
    ensures forall o: nat :: Remaining(n, p, o) ==> !Before(KeyAt(n, o), search)
  {
    RankRises(n, rk);
    forall o: nat | Remaining(n, p, o)
      ensures !Before(KeyAt(n, o), search)
    {
      FirstIsLeast(n, rk, p, s, o);
      RankTotal(n, rk, s[0], o);
      if o != s[0] {
        BeforeDown(KeyAt(n, s[0]), s[0], KeyAt(n, o), o, search);
      }
    }
  }
}
