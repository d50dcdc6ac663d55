/** The iterator's three-slot array and the operations that keep it in order. */
module NodeMerge {
  import opened Options
  import opened NodeIter

  datatype Slot = Slot(k: nat, end: nat)

  function SlotAt(n: Runs, x: nat): Slot
    requires Placed(n) && IsKey(n, x)
  {
    Slot(x, End(n, RunAt(n, x)))
  }

  /** Slots that hold these heads in order; unused slots are empty. */
  predicate Layout(n: Runs, h: seq<nat>, data: seq<Slot>) {
    && Placed(n) && AllKeys(n, h) && |h| <= MaxRuns == |data|
    && (forall i :: 0 <= i < |h| ==> data[i] == SlotAt(n, h[i]))
    && (forall i :: |h| <= i < MaxRuns ==> data[i] == Slot(0, 0))
  }

  /** The slots list the heads left by positions that cut every run at one place in the merged order. */
  ghost predicate StateOk(n: Runs, rk: nat -> int, p: seq<nat>, s: seq<nat>, data: seq<Slot>) {
    Placed(n) && PosOk(n, p) && HeadsOk(n, rk, p, s) && Cut(n, rk, p) && Layout(n, s, data)
  }

  function Swap(h: seq<nat>, i: nat): seq<nat>
    requires i + 1 < |h|
  {
    h[i := h[i + 1]][i + 1 := h[i]]
  }

  predicate Exchanged(h: seq<nat>, t: seq<nat>, i: nat, swapped: bool) {
    && i + 1 < |h| == |t| && (forall k :: 0 <= k < |h| && k != i && k != i + 1 ==> t[k] == h[k])
    && if swapped then t[i] == h[i + 1] && t[i + 1] == h[i] else t[i] == h[i] && t[i + 1] == h[i + 1]
  }

  lemma SwapSame(h: seq<nat>, i: nat)
    requires i + 1 < |h|
    ensures |Swap(h, i)| == |h| && multiset(Swap(h, i)) == multiset(h) && (Distinct(h) ==> Distinct(Swap(h, i)))
  {
  }

  lemma SwapHolds(n: Runs, h: seq<nat>, data: seq<Slot>, i: nat)
    requires Layout(n, h, data) && i + 1 < |h|
    ensures Layout(n, Swap(h, i), data[i := data[i + 1]][i + 1 := data[i]])
  {
  }

  lemma DistinctHeads(n: Runs, rk: nat -> int, p: seq<nat>, s: seq<nat>)
    requires Placed(n) && PosOk(n, p) && HeadsOk(n, rk, p, s)
    ensures Distinct(s) && |s| <= MaxRuns
  {
    HeadsBound(n, rk, p, s);
    forall i, j | 0 <= i < j < |s|
      ensures s[i] != s[j]
    {
      assert rk(s[i]) < rk(s[j]);
    }
  }

  /** Slots in use are those of the heads. */
  lemma EndedIff(n: Runs, h: seq<nat>, data: seq<Slot>)
    requires Layout(n, h, data)
    ensures forall i :: 0 <= i < MaxRuns ==> (data[i].k == data[i].end <==> i >= |h|)
  {
  }

  /** An iterator over a node that does not change while it is in use. */
  class NodeIterator {
    const n: Runs
    ghost const rk: nat -> int
    var data: seq<Slot>
    ghost var at: seq<nat>
    ghost var heads: seq<nat>

    ghost predicate Ready() {
      RunsOk(n) && Ranked(n, rk)
    }

    ghost predicate Valid()
      reads this
    {
      Ready() && StateOk(n, rk, at, heads, data)
    }

    constructor (n: Runs)
      requires RunsOk(n)
      ensures this.n == n && Valid() && at == n.base
    {
      this.n := n;
      ghost var rank := RankExists(n);
      rk := rank;
      data := [Slot(0, 0), Slot(0, 0), Slot(0, 0)];
      new;
      InitFromStart();
    }

    predicate Ended(i: nat)
      reads this
      requires i < |data|
    {
      data[i].k == data[i].end
    }

    /** Compare two keys of the node. */
    method KeyLessThan(a: nat, b: nat) returns (less: bool)
      requires Ready() && IsKey(n, a) && IsKey(n, b)
      ensures less == (rk(a) < rk(b)) && (a != b ==> rk(a) != rk(b))
    {
      RankTotal(n, rk, a, b);
      less := Less(n, a, b);
    }

    /** Order two neighbouring slots. */
    method SortTwo(i: nat, ghost h: seq<nat>) returns (swapped: bool, ghost h': seq<nat>)
      requires Ready() && Layout(n, h, data) && Distinct(h) && i + 1 < |h|
      modifies this`data
      ensures Layout(n, h', data) && Distinct(h') && multiset(h) == multiset(h')
      ensures Exchanged(h, h', i, swapped) && rk(h'[i]) < rk(h'[i + 1])
    {
      SwapSame(h, i);
      SwapHolds(n, h, data, i);
      swapped := KeyLessThan(data[i + 1].k, data[i].k);
      h' := h;
      if swapped {
        h' := Swap(h, i);
        data := data[i := data[i + 1]][i + 1 := data[i]];
      }
    }

    /** Bubble sort of at most three slots. */
    method Sort(ghost h: seq<nat>) returns (ghost h': seq<nat>)
      requires Ready() && Layout(n, h, data) && Distinct(h)
      modifies this`data
      ensures Layout(n, h', data) && multiset(h) == multiset(h') && Ascending(rk, h')
    {
      h' := h;
      EndedIff(n, h, data);
      if !Ended(2) {
        h' := BubbleTwice(h);
        EndedIff(n, h', data);
      }
      ghost var mid := h';
      if !Ended(1) {
        var swapped;
        swapped, h' := SortTwo(0, mid);
        RestSorted(rk, mid, h', swapped);
      }
    }

    method BubbleTwice(ghost h: seq<nat>) returns (ghost h': seq<nat>)
      requires Ready() && Layout(n, h, data) && Distinct(h) && |h| == 3
      modifies this`data
      ensures Layout(n, h', data) && Distinct(h') && multiset(h) == multiset(h') && |h'| == 3
      ensures rk(h'[0]) < rk(h'[2]) && rk(h'[1]) < rk(h'[2])
    {
      var swapped, first := SortTwo(0, h);
      swapped, h' := SortTwo(1, first);
    }

    /** The number of slots in use. */
    method Used(ghost h: seq<nat>) returns (u: nat)
      requires Layout(n, h, data)
      ensures u == |h|
    {
      EndedIff(n, h, data);
      u := MaxRuns;
      while u != 0 && Ended(u - 1)
        invariant |h| <= u <= MaxRuns
      {
        u := u - 1;
      }
    }

    /** Start from given positions, one in every run. */
    method Fill(p: seq<nat>)
      requires Ready() && PosOk(n, p) && Cut(n, rk, p)
      modifies this
      ensures Valid() && at == p
    {
      ghost var h := PushAll(p);
      PushedDistinct(n, p, h, |n.keys|);
      ghost var s := Sort(h);
      PushedHeads(n, rk, p, h, s);
      at, heads := p, s;
    }

    method PushAll(p: seq<nat>) returns (ghost h: seq<nat>)
      requires Placed(n) && PosOk(n, p)
      modifies this`data
      ensures Layout(n, h, data) && Pushed(n, p, h, |n.keys|)
    {
      data := [Slot(0, 0), Slot(0, 0), Slot(0, 0)];
      h := [];
      for r := 0 to |n.keys|
        invariant Layout(n, h, data) && Pushed(n, p, h, r)
      {
        if p[r] != End(n, r) {
          PushedStep(n, p, h, r);
          var u := Used(h);
          PushHolds(n, h, data, p[r]);
          data := data[u := Slot(p[r], End(n, r))];
          h := h + [p[r]];
        }
      }
    }

    method InitFromStart()
      requires Ready()
      modifies this
      ensures Valid() && at == n.base
    {
      Fill(n.base);
    }

    method PeekAll() returns (k: Option<nat>)
      requires Valid()
      ensures k == if |heads| == 0 then None else Some(heads[0])
    {
      EndedIff(n, heads, data);
      k := if !Ended(0) then Some(data[0].k) else None;
    }

    /** Consume the first key. */
    method Advance()
      requires Valid() && |heads| > 0
      modifies this
      ensures IsHead(n, old(at), old(heads)[0])
      ensures Valid() && at == Past(n, old(at), old(heads)[0])
    {
      ghost var x, p, s, d := heads[0], at, heads, data;
      HeadSlot(n, rk, p, s, d);
      RankRises(n, rk);
      data := data[0 := Slot(data[0].k + 1, data[0].end)];
      if Ended(0) {
        DropHead(n, rk, p, s, d);
        data := [data[1], data[2], Slot(0, 0)];
        at, heads := Past(n, p, x), s[1..];
      } else {
        ghost var h := [x + 1] + s[1..];
        MovedHead(n, rk, p, s, h, d);
        h := Sink(h);
        SunkHeads(n, rk, p, s, h, data);
        at, heads := Past(n, p, x), h;
      }
    }

    /** Let the first slot sink to its place among the others. */
    method Sink(ghost h: seq<nat>) returns (ghost h': seq<nat>)
      requires Ready() && Layout(n, h, data) && Distinct(h) && |h| >= 1 && Ascending(rk, h[1..])
      modifies this`data
      ensures Layout(n, h', data) && multiset(h') == multiset(h) && Ascending(rk, h')
    {
      h' := h;
      EndedIff(n, h, data);
      if Ended(1) {
        return;
      }
      var swapped;
      swapped, h' := SortTwo(0, h);
      if !swapped {
        StayedFirst(rk, h, h');
        return;
      }
      h' := SinkOn(h, h');
    }

    /** The second half of the sinking, after a swap of the first two slots. */
    method SinkOn(ghost h: seq<nat>, ghost mid: seq<nat>) returns (ghost h': seq<nat>)
      requires Ready() && Layout(n, mid, data) && Distinct(mid)
      requires Exchanged(h, mid, 0, true) && rk(mid[0]) < rk(mid[1]) && Ascending(rk, h[1..])
      modifies this`data
      ensures Layout(n, h', data) && multiset(h') == multiset(mid) && Ascending(rk, h')
    {
      h' := mid;
      EndedIff(n, mid, data);
      if Ended(2) {
        return;
      }
      var swapped;
      swapped, h' := SortTwo(1, mid);
      SankTwice(rk, h, mid, h', swapped);
    }

    /** The slot of a run, if it is in use. */
    method Find(r: nat) returns (i: nat)
      requires Valid() && r < |n.keys|
      ensures at[r] < End(n, r) ==> i < |heads| && heads[i] == at[r]
      ensures at[r] == End(n, r) ==> i == MaxRuns
    {
      EndedIff(n, heads, data);
      i := 0;
      while i < MaxRuns && !Ended(i)
        invariant i <= MaxRuns
        invariant forall k :: 0 <= k < i ==> data[k].end != End(n, r)
      {
        if data[i].end == End(n, r) {
          SlotRun(n, rk, at, heads, data, i, r);
          return;
        }
        i := i + 1;
      }
      HasSlot(n, rk, at, heads, data, r);
      i := MaxRuns;
    }

    /** The iterator's position in a run. */
    method PosIn(r: nat) returns (k: nat)
      requires Valid() && r < |n.keys|
      ensures k == at[r]
    {
      var i := Find(r);
      k := if i < MaxRuns then data[i].k else End(n, r);
    }

    /** The greatest consumed key, and its run. */
    method LastConsumed() returns (prev: Option<nat>, run: nat)
      requires Valid()
      ensures prev.None? ==> forall o: nat :: !Consumed(n, at, o)
      ensures prev.Some? ==>
        run < |at| && at[run] == prev.value + 1 && IsLastConsumed(n, rk, at, prev.value) && RunAt(n, prev.value) == run
    {
      prev, run := None, 0;
      for r := 0 to |n.keys|
        invariant Best(n, rk, at, r, prev, run)
      {
        var k := PosIn(r);
        prev, run := Consider(r, k, prev, run, at);
      }
      RankRises(n, rk);
      BestOfAll(n, rk, at, prev, run);
    }

    /** The greater of the best candidate so far and the key before position `k` of run `r`. */
    method Consider(r: nat, k: nat, best: Option<nat>, bestRun: nat, ghost p: seq<nat>)
        returns (prev: Option<nat>, run: nat)
      requires Ready() && PosOk(n, p) && r < |p| && k == p[r] && Best(n, rk, p, r, best, bestRun)
      ensures Best(n, rk, p, r + 1, prev, run)
    {
      prev, run := best, bestRun;
      if k != n.base[r] {
        var better := IsBetter(r, k, best, bestRun, p);
        BestStep(n, rk, p, r, best, bestRun, better);
        if better {
          prev, run := Some(k - 1), r;
        }
      } else {
        BestSkip(n, rk, p, r, best, bestRun);
      }
    }

    /** The key before position `k` of run `r` beats the best candidate so far. */
    method IsBetter(r: nat, k: nat, best: Option<nat>, ghost bestRun: nat, ghost p: seq<nat>) returns (better: bool)
      requires Ready() && PosOk(n, p) && r < |p| && k == p[r] > n.base[r] && Best(n, rk, p, r, best, bestRun)
      ensures best.None? ==> better
      ensures best.Some? ==>
        better == (rk(best.value) < rk(k - 1)) && (k - 1 == best.value || rk(best.value) != rk(k - 1))
    {
      better := true;
      if best.Some? {
        KeyBefore(n, p, r);
        KeyBefore(n, p, bestRun);
        better := KeyLessThan(best.value, k - 1);
      }
    }

    /** Step back to the greatest consumed key. */
    method PrevAll() returns (prev: Option<nat>)
      requires Valid()
      modifies this
      ensures Valid()
      ensures prev.None? ==> at == old(at) && data == old(data) && forall o: nat :: !Consumed(n, at, o)
      ensures prev.Some? ==>
        IsLastConsumed(n, rk, old(at), prev.value) && at == old(at)[RunAt(n, prev.value) := prev.value]
    {
      var run;
      prev, run := LastConsumed();
      if prev.Some? {
        ghost var p, s, d := at, heads, data;
        var i := Find(run);
        if i == MaxRuns {
          HeadsBound(n, rk, p, s);
          i := Used(s);
        }
        BackState(n, rk, p, s, d, prev.value, i);
        data := [Slot(prev.value, End(n, run))] + data[..i] + data[i + 1..];
        at, heads := p[run := prev.value], Back(s, prev.value, i);
      }
    }
  }

  /** One more exchange puts the first two in order. */
  lemma RestSorted(rk: nat -> int, h: seq<nat>, t: seq<nat>, swapped: bool)
    requires 2 <= |h| <= 3 && (|h| == 3 ==> rk(h[0]) < rk(h[2]) && rk(h[1]) < rk(h[2]))
    requires Exchanged(h, t, 0, swapped) && rk(t[0]) < rk(t[1])
    ensures Ascending(rk, t)
  {
  }

  lemma StayedFirst(rk: nat -> int, h: seq<nat>, t: seq<nat>)
    requires 2 <= |h| <= 3 && Exchanged(h, t, 0, false) && Ascending(rk, h[1..]) && rk(t[0]) < rk(t[1])
    ensures Ascending(rk, t)
  {
    assert |h| == 3 ==> rk(h[1..][0]) < rk(h[1..][1]);
  }

  lemma SankTwice(rk: nat -> int, h: seq<nat>, mid: seq<nat>, t: seq<nat>, swapped: bool)
    requires |h| == 3 && Exchanged(h, mid, 0, true) && Exchanged(mid, t, 1, swapped)
    requires Ascending(rk, h[1..]) && rk(mid[0]) < rk(mid[1]) && rk(t[1]) < rk(t[2])
    ensures Ascending(rk, t)
  {
    assert rk(h[1..][0]) < rk(h[1..][1]);
  }

  // ----- filling the slots

  /** The heads of the first `r` runs, in offset order. */
  predicate Pushed(n: Runs, p: seq<nat>, h: seq<nat>, r: nat) {
    && Placed(n) && PosOk(n, p) && r <= |n.keys| && |h| <= r
    && (forall i :: 0 <= i < |h| ==> IsHead(n, p, h[i]) && RunAt(n, h[i]) < r)
    && (forall i, j :: 0 <= i < j < |h| ==> h[i] < h[j])
    && (forall q :: 0 <= q < r && p[q] < End(n, q) ==> p[q] in h)
  }

  lemma PushedStep(n: Runs, p: seq<nat>, h: seq<nat>, r: nat)
    requires Pushed(n, p, h, r) && r < |n.keys| && p[r] < End(n, r)
    ensures Pushed(n, p, h + [p[r]], r + 1) && IsKey(n, p[r]) && SlotAt(n, p[r]) == Slot(p[r], End(n, r))
  {
    InRun(n, r, p[r]);
    PushedBelow(n, p, h, r);
    var h' := h + [p[r]];
    forall q | 0 <= q < r + 1 && p[q] < End(n, q)
      ensures p[q] in h'
    {
      assert q < r ==> p[q] in h;
      assert h'[|h|] == p[r];
    }
  }

  lemma PushedBelow(n: Runs, p: seq<nat>, h: seq<nat>, r: nat)
    requires Pushed(n, p, h, r) && r < |n.keys|
    ensures forall i :: 0 <= i < |h| ==> h[i] < p[r]
  {
    forall i | 0 <= i < |h|
      ensures h[i] < p[r]
    {
      assert IsHead(n, p, h[i]) && End(n, RunAt(n, h[i])) < n.base[r];
    }
  }

  lemma PushedDistinct(n: Runs, p: seq<nat>, h: seq<nat>, r: nat)
    requires Pushed(n, p, h, r)
    ensures Distinct(h)
  {
  }

  lemma PushedHeads(n: Runs, rk: nat -> int, p: seq<nat>, h: seq<nat>, s: seq<nat>)
    requires Pushed(n, p, h, |n.keys|) && Ascending(rk, s) && multiset(h) == multiset(s)
    ensures HeadsOk(n, rk, p, s)
  {
    forall i | 0 <= i < |s|
      ensures IsHead(n, p, s[i])
    {
      assert s[i] in multiset(s) && s[i] in multiset(h) && s[i] in h;
    }
    forall r | 0 <= r < |p| && p[r] < End(n, r)
      ensures p[r] in s
    {
      assert p[r] in h && p[r] in multiset(h) && p[r] in multiset(s);
    }
  }

  lemma PushHolds(n: Runs, h: seq<nat>, data: seq<Slot>, x: nat)
    requires Layout(n, h, data) && |h| < MaxRuns && IsKey(n, x)
    ensures Layout(n, h + [x], data[|h| := SlotAt(n, x)])
  {
  }

  // ----- advancing

  lemma HeadSlot(n: Runs, rk: nat -> int, p: seq<nat>, s: seq<nat>, data: seq<Slot>)
    requires StateOk(n, rk, p, s, data) && |s| > 0
    ensures IsHead(n, p, s[0]) && data[0] == SlotAt(n, s[0])
  {
  }

  /** The slots after the first run's last key is consumed. */
  lemma DroppedSlot(n: Runs, s: seq<nat>, data: seq<Slot>)
    requires Layout(n, s, data) && |s| > 0
    ensures Layout(n, s[1..], [data[1], data[2], Slot(0, 0)])
  {
    var t, d := s[1..], [data[1], data[2], Slot(0, 0)];
    forall i | 0 <= i < |t|
      ensures IsKey(n, t[i]) && d[i] == SlotAt(n, t[i])
    {
      assert t[i] == s[i + 1] && d[i] == data[i + 1];
    }
  }

  /** The slots after another key of the first run is consumed. */
  lemma MovedSlot(n: Runs, s: seq<nat>, data: seq<Slot>)
    requires Layout(n, s, data) && |s| > 0 && s[0] + 1 < End(n, RunAt(n, s[0]))
    ensures Layout(n, [s[0] + 1] + s[1..], data[0 := Slot(s[0] + 1, data[0].end)])
  {
    InRun(n, RunAt(n, s[0]), s[0] + 1);
    var t := [s[0] + 1] + s[1..];
    forall i | 0 <= i < |t|
      ensures IsKey(n, t[i]) && data[0 := Slot(s[0] + 1, data[0].end)][i] == SlotAt(n, t[i])
    {
      assert i > 0 ==> t[i] == s[i];
    }
  }

  lemma TailAscending(rk: nat -> int, s: seq<nat>)
    requires Ascending(rk, s) && |s| > 0
    ensures Ascending(rk, s[1..])
  {
  }

  /** The first run is finished. */
  lemma DropHead(n: Runs, rk: nat -> int, p: seq<nat>, s: seq<nat>, data: seq<Slot>)
    requires StateOk(n, rk, p, s, data) && Rises(n, rk) && |s| > 0 && IsHead(n, p, s[0])
    requires s[0] + 1 == End(n, RunAt(n, s[0]))
    ensures StateOk(n, rk, Past(n, p, s[0]), s[1..], [data[1], data[2], Slot(0, 0)])
  {
    TailAscending(rk, s);
    AdvanceHeads(n, rk, p, s, s[1..]);
    AdvanceCut(n, rk, p, s);
    DroppedSlot(n, s, data);
  }

  /** The first run goes on: its next key takes the first slot. */
  lemma MovedHead(n: Runs, rk: nat -> int, p: seq<nat>, s: seq<nat>, h: seq<nat>, data: seq<Slot>)
    requires StateOk(n, rk, p, s, data) && |s| > 0 && IsHead(n, p, s[0]) && s[0] + 1 < End(n, RunAt(n, s[0]))
    requires h == [s[0] + 1] + s[1..]
    ensures Layout(n, h, data[0 := Slot(s[0] + 1, data[0].end)]) && Distinct(h) && Ascending(rk, h[1..])
  {
    MovedSlot(n, s, data);
    TailAscending(rk, s);
    assert h[1..] == s[1..];
    NextIsNew(n, rk, p, s);
    DistinctHeads(n, rk, p, s);
    DistinctFirst(s, s[0] + 1);
  }

  lemma DistinctFirst(s: seq<nat>, x: nat)
    requires Distinct(s) && |s| > 0 && forall i :: 1 <= i < |s| ==> s[i] != x
    ensures Distinct([x] + s[1..])
  {
  }

  lemma NextIsNew(n: Runs, rk: nat -> int, p: seq<nat>, s: seq<nat>)
    requires Placed(n) && PosOk(n, p) && HeadsOk(n, rk, p, s) && |s| > 0 && IsHead(n, p, s[0])
    requires s[0] + 1 < End(n, RunAt(n, s[0]))
    ensures forall i :: 1 <= i < |s| ==> s[i] != s[0] + 1
  {
    InRun(n, RunAt(n, s[0]), s[0] + 1);
    forall i | 1 <= i < |s|
      ensures s[i] != s[0] + 1
    {
      assert s[1..][i - 1] == s[i];
      OtherHead(n, rk, p, s, s[i]);
    }
  }

  lemma SunkHeads(n: Runs, rk: nat -> int, p: seq<nat>, s: seq<nat>, h: seq<nat>, data: seq<Slot>)
    requires Placed(n) && Rises(n, rk) && PosOk(n, p) && HeadsOk(n, rk, p, s) && Cut(n, rk, p) && Layout(n, h, data)
    requires |s| > 0 && IsHead(n, p, s[0]) && s[0] + 1 < End(n, RunAt(n, s[0]))
    requires Ascending(rk, h) && multiset(h) == multiset([s[0] + 1] + s[1..])
    ensures StateOk(n, rk, Past(n, p, s[0]), h, data)
  {
    AdvanceCut(n, rk, p, s);
    var t := [s[0] + 1] + s[1..];
    forall x
      ensures x in h <==> x in s[1..] || x == s[0] + 1
    {
      assert x in h <==> x in multiset(h);
      assert x in t <==> x in multiset(t);
    }
    AdvanceHeads(n, rk, p, s, h);
  }

  // ----- finding a run's slot

  lemma EndsDiffer(n: Runs, q: nat, r: nat)
    requires Placed(n) && q < |n.keys| && r < |n.keys|
    ensures End(n, q) == End(n, r) ==> q == r
  {
  }

  lemma SlotRun(n: Runs, rk: nat -> int, p: seq<nat>, s: seq<nat>, data: seq<Slot>, i: nat, r: nat)
    requires StateOk(n, rk, p, s, data) && i < |s| && r < |n.keys| && data[i].end == End(n, r)
    ensures s[i] == p[r] && p[r] < End(n, r)
  {
    assert IsHead(n, p, s[i]);
    EndsDiffer(n, RunAt(n, s[i]), r);
  }

  /** A run that is in use has a slot. */
  lemma HasSlot(n: Runs, rk: nat -> int, p: seq<nat>, s: seq<nat>, data: seq<Slot>, r: nat)
    requires StateOk(n, rk, p, s, data) && r < |n.keys|
    ensures p[r] < End(n, r) ==> exists k :: 0 <= k < |s| && data[k].end == End(n, r)
  {
    if p[r] < End(n, r) {
      InRun(n, r, p[r]);
      var k :| 0 <= k < |s| && s[k] == p[r];
      assert data[k] == SlotAt(n, s[k]);
    }
  }

  // ----- stepping back

  /** The key just before a position. */
  lemma KeyBefore(n: Runs, p: seq<nat>, r: nat)
    requires Placed(n) && PosOk(n, p) && r < |p| && n.base[r] < p[r]
    ensures IsKey(n, p[r] - 1) && RunAt(n, p[r] - 1) == r && Consumed(n, p, p[r] - 1)
  {
    InRun(n, r, p[r] - 1);
  }

  ghost predicate IsLastConsumed(n: Runs, rk: nat -> int, p: seq<nat>, o: nat)
    requires Placed(n) && PosOk(n, p)
  {
    Consumed(n, p, o) && forall a: nat :: Consumed(n, p, a) && a != o ==> rk(a) < rk(o)
  }

  /** The key just before run q's position, if any, is not after `o`. */
  predicate TopBelow(n: Runs, rk: nat -> int, p: seq<nat>, q: nat, o: nat)
    requires q < |p| == |n.base|
  {
    n.base[q] < p[q] ==> p[q] - 1 == o || rk(p[q] - 1) < rk(o)
  }

  /** Of the keys just before the first `r` positions, the greatest is `prev`, in run `run`. */
  ghost predicate Best(n: Runs, rk: nat -> int, p: seq<nat>, r: nat, prev: Option<nat>, run: nat) {
    && |n.base| == |n.keys| == |p| && r <= |p|
    && match prev {
         case None => forall q :: 0 <= q < r ==> p[q] == n.base[q]
         case Some(o) =>
           && run < r && p[run] == o + 1 && n.base[run] < p[run]
           && forall q :: 0 <= q < r ==> TopBelow(n, rk, p, q, o)
       }
  }

  lemma BestSkip(n: Runs, rk: nat -> int, p: seq<nat>, r: nat, prev: Option<nat>, run: nat)
    requires r < |p| && Best(n, rk, p, r, prev, run) && n.base[r] == p[r]
    ensures Best(n, rk, p, r + 1, prev, run)
  {
  }

  lemma BestStep(n: Runs, rk: nat -> int, p: seq<nat>, r: nat, prev: Option<nat>, run: nat, better: bool)
    requires r < |p| && Best(n, rk, p, r, prev, run) && n.base[r] < p[r]
    requires prev.None? ==> better
    requires prev.Some? ==>
      better == (rk(prev.value) < rk(p[r] - 1)) && (p[r] - 1 == prev.value || rk(prev.value) != rk(p[r] - 1))
    ensures better ==> Best(n, rk, p, r + 1, Some(p[r] - 1), r)
    ensures !better ==> Best(n, rk, p, r + 1, prev, run)
  {
    if better {
      var k := p[r] - 1;
      forall q | 0 <= q < r
        ensures TopBelow(n, rk, p, q, k)
      {
        assert prev.Some? ==> TopBelow(n, rk, p, q, prev.value);
      }
    }
  }

  lemma BestOfAll(n: Runs, rk: nat -> int, p: seq<nat>, prev: Option<nat>, run: nat)
    requires Placed(n) && Rises(n, rk) && PosOk(n, p) && Best(n, rk, p, |p|, prev, run)
    ensures prev.None? ==> forall o: nat :: !Consumed(n, p, o)
    ensures prev.Some? ==>
      run < |p| && IsLastConsumed(n, rk, p, prev.value) && RunAt(n, prev.value) == run && p[run] == prev.value + 1
  {
    if prev.Some? {
      KeyBefore(n, p, run);
      forall a: nat | Consumed(n, p, a) && a != prev.value
        ensures rk(a) < rk(prev.value)
      {
        assert TopBelow(n, rk, p, RunAt(n, a), prev.value);
        RunTop(n, rk, p, a);
      }
    }
  }

  /** The key just before a position is the greatest consumed one of its run. */
  lemma RunTop(n: Runs, rk: nat -> int, p: seq<nat>, a: nat)
    requires Placed(n) && Rises(n, rk) && PosOk(n, p) && Consumed(n, p, a)
    ensures var q := RunAt(n, a); n.base[q] < p[q] && (a == p[q] - 1 || rk(a) < rk(p[q] - 1))
  {
    KeyBefore(n, p, RunAt(n, a));
    assert SameRun(n, a, p[RunAt(n, a)] - 1);
  }

  /** Where entry `k` of the new list comes from. */
  function Source(k: int, i: int): int { if k - 1 < i then k - 1 else k }

  /** `o` in front, and the entry it replaces (if i < |s|) taken out. */
  function Back(s: seq<nat>, o: nat, i: nat): (t: seq<nat>)
    requires i <= |s|
    ensures |t| == (if i < |s| then |s| else |s| + 1) && t[0] == o
    ensures forall k :: 1 <= k < |t| ==> t[k] == s[Source(k, i)]
  {
    [o] + s[..i] + if i < |s| then s[i + 1..] else []
  }

  /** Slots and heads after stepping back to `o`. */
  lemma BackState(n: Runs, rk: nat -> int, p: seq<nat>, s: seq<nat>, data: seq<Slot>, o: nat, i: nat)
    requires StateOk(n, rk, p, s, data) && IsLastConsumed(n, rk, p, o) && p[RunAt(n, o)] == o + 1 && i < MaxRuns
    requires HeadAt(n, s, o, i)
    ensures StateOk(n, rk, p[RunAt(n, o) := o], Back(s, o, i), [SlotAt(n, o)] + data[..i] + data[i + 1..])
  {
    BackCut(n, rk, p, o);
    BackLayout(n, s, data, o, i);
    BackOrder(n, rk, p, s, o, i);
    BackHeads(n, rk, p, p[RunAt(n, o) := o], s, Back(s, o, i), o, i);
    BackComplete(n, p, s, o, i);
  }

  /** Slot `i` is that of `o`'s run, or the first free one if that run was finished. */
  predicate HeadAt(n: Runs, s: seq<nat>, o: nat, i: nat) {
    Placed(n) && IsKey(n, o) && if o + 1 < End(n, RunAt(n, o)) then i < |s| && s[i] == o + 1 else i == |s|
  }

  lemma BackCut(n: Runs, rk: nat -> int, p: seq<nat>, o: nat)
    requires Placed(n) && PosOk(n, p) && Cut(n, rk, p) && IsLastConsumed(n, rk, p, o) && p[RunAt(n, o)] == o + 1
    ensures PosOk(n, p[RunAt(n, o) := o]) && Cut(n, rk, p[RunAt(n, o) := o])
  {
    var p' := p[RunAt(n, o) := o];
    forall a: nat, b: nat | Consumed(n, p', a) && Remaining(n, p', b)
      ensures rk(a) < rk(b)
    {
      assert Consumed(n, p, a) && a != o;
      assert b == o || Remaining(n, p, b);
    }
  }

  lemma BackLayout(n: Runs, s: seq<nat>, data: seq<Slot>, o: nat, i: nat)
    requires Layout(n, s, data) && IsKey(n, o) && i < MaxRuns && i <= |s|
    ensures Layout(n, Back(s, o, i), [SlotAt(n, o)] + data[..i] + data[i + 1..])
  {
    var t, d := Back(s, o, i), [SlotAt(n, o)] + data[..i] + data[i + 1..];
    forall k | 1 <= k < MaxRuns
      ensures d[k] == data[Source(k, i)]
    {
    }
    forall k | 1 <= k < |t|
      ensures IsKey(n, t[k]) && d[k] == SlotAt(n, t[k])
    {
      assert d[k] == data[Source(k, i)] == SlotAt(n, s[Source(k, i)]);
    }
  }

  lemma BackOrder(n: Runs, rk: nat -> int, p: seq<nat>, s: seq<nat>, o: nat, i: nat)
    requires Placed(n) && PosOk(n, p) && HeadsOk(n, rk, p, s) && Cut(n, rk, p) && Consumed(n, p, o) && i <= |s|
    ensures Ascending(rk, Back(s, o, i))
  {
    var t := Back(s, o, i);
    forall k | 1 <= k < |t|
      ensures rk(o) < rk(t[k])
    {
      assert IsHead(n, p, s[Source(k, i)]);
      assert Remaining(n, p, t[k]);
    }
  }

  lemma BackHeads(n: Runs, rk: nat -> int, p: seq<nat>, p': seq<nat>, s: seq<nat>, t: seq<nat>, o: nat, i: nat)
    requires Placed(n) && PosOk(n, p) && HeadsOk(n, rk, p, s) && Consumed(n, p, o) && p[RunAt(n, o)] == o + 1
    requires HeadAt(n, s, o, i)
    requires p' == p[RunAt(n, o) := o] && PosOk(n, p') && t == Back(s, o, i)
    ensures forall k :: 0 <= k < |t| ==> IsHead(n, p', t[k])
  {
    forall k | 0 <= k < |t|
      ensures IsHead(n, p', t[k])
    {
      if k > 0 {
        HeadsDiffer(n, rk, p, s, i, Source(k, i), o);
      }
    }
  }

  lemma BackComplete(n: Runs, p: seq<nat>, s: seq<nat>, o: nat, i: nat)
    requires Placed(n) && PosOk(n, p) && Consumed(n, p, o) && p[RunAt(n, o)] == o + 1 && HeadAt(n, s, o, i)
    requires forall r :: 0 <= r < |p| && p[r] < End(n, r) ==> p[r] in s
    ensures forall r :: 0 <= r < |p| && p[RunAt(n, o) := o][r] < End(n, r) ==> p[RunAt(n, o) := o][r] in Back(s, o, i)
  {
    var q, t := RunAt(n, o), Back(s, o, i);
    forall r | 0 <= r < |p| && p[q := o][r] < End(n, r)
      ensures p[q := o][r] in t
    {
      if r == q {
        assert t[0] == o;
      } else {
        InBack(n, p, s, o, i, r);
      }
    }
  }

  lemma InBack(n: Runs, p: seq<nat>, s: seq<nat>, o: nat, i: nat, r: nat)
    requires Placed(n) && PosOk(n, p) && HeadAt(n, s, o, i) && r < |p| && p[r] < End(n, r) && r != RunAt(n, o)
    requires p[r] in s
    ensures p[r] in Back(s, o, i)
  {
    var q, t := RunAt(n, o), Back(s, o, i);
    InRun(n, r, p[r]);
    var j :| 0 <= j < |s| && s[j] == p[r];
    if o + 1 < End(n, q) {
      InRun(n, q, o + 1);
    }
    assert j != i;
    assert t[if j < i then j + 1 else j] == s[j];
  }

  /** Another head than the stepped-back run's belongs to another run. */
  lemma HeadsDiffer(n: Runs, rk: nat -> int, p: seq<nat>, s: seq<nat>, i: nat, j: nat, o: nat)
    requires Placed(n) && PosOk(n, p) && HeadsOk(n, rk, p, s) && Consumed(n, p, o) && p[RunAt(n, o)] == o + 1
    requires HeadAt(n, s, o, i)
    requires j < |s| && j != i
    ensures IsHead(n, p, s[j]) && RunAt(n, s[j]) != RunAt(n, o)
  {
    assert IsHead(n, p, s[j]);
    DistinctHeads(n, rk, p, s);
  }
}
