/**
 Snapshot ancestry: every node knows its parent, three larger ancestors to skip to, and a
 bitmap of which of the next 128 ids are ancestors.  Ids grow towards the root; 0 is no id.
 */
module Snapshots {

  const BitmapSize: nat := 128
  const IdMax: nat := 0xFFFF_FFFF

  /** The bitmap is the set of its bits; ids without an entry read as the blank one. */
  datatype Entry = Entry(parent: nat, skip: seq<nat>, bits: set<nat>)

  datatype Node = Node(id: nat, parent: nat, skip: seq<nat>)

  type Table = map<nat, Entry>

  function Blank(): Entry { Entry(0, [0, 0, 0], {}) }

  function Get(t: Table, id: nat): Entry {
    if id in t then t[id] else Blank()
  }

  /** Parents are larger ids, and skip entries either are or are absent. */
  predicate EntryOk(id: nat, e: Entry) {
    && (e.parent == 0 || id < e.parent <= IdMax)
    && |e.skip| == 3 && forall i :: 0 <= i < 3 ==> e.skip[i] == 0 || id < e.skip[i] <= IdMax
  }

  predicate Rising(t: Table) {
    forall id | id in t :: id <= IdMax && EntryOk(id, t[id])
  }

  lemma RisingAt(t: Table, id: nat)
    requires Rising(t)
    ensures EntryOk(id, Get(t, id))
  {
  }

  // ----- the two walks

  /** How far a walk can still go. */
  function Height(id: nat): nat { if id == 0 || id > IdMax then 0 else IdMax + 1 - id }

  /** The plain walk along parents. */
  function Early(t: Table, id: nat, a: nat): bool
    requires Rising(t)
    decreases Height(id)
  {
    RisingAt(t, id);
    if id != 0 && id < a && id <= IdMax then Early(t, Get(t, id).parent, a) else id == a
  }

  /** The farthest known ancestor that is not past `a`, or the parent. */
  function Below(t: Table, id: nat, a: nat): nat
    requires Rising(t)
  {
    RisingAt(t, id);
    var e := Get(t, id);
    if e.skip[2] <= a then e.skip[2]
    else if e.skip[1] <= a then e.skip[1]
    else if e.skip[0] <= a then e.skip[0]
    else e.parent
  }

  lemma BelowRises(t: Table, id: nat, a: nat)
    requires Rising(t)
    ensures Below(t, id, a) == 0 || id < Below(t, id, a) <= IdMax
  {
    RisingAt(t, id);
  }

  /** The skipping part of the fast walk. */
  function Skip(t: Table, id: nat, a: nat): nat
    requires Rising(t)
    decreases Height(id)
  {
    BelowRises(t, id, a);
    if id != 0 && id + BitmapSize < a && id <= IdMax then Skip(t, Below(t, id, a), a) else id
  }

  function Fast(t: Table, id: nat, a: nat): bool
    requires Rising(t)
  {
    var x := if a >= BitmapSize then Skip(t, id, a) else id;
    if x != 0 && x < a then a - x - 1 in Get(t, x).bits else x == a
  }

  method IsAncestorEarly(t: Table, id0: nat, a: nat) returns (r: bool)
    requires Rising(t) && id0 <= IdMax && a <= IdMax
    ensures r == Early(t, id0, a)
  {
    var id: nat := id0;
    while id != 0 && id < a
      invariant id <= IdMax && Early(t, id, a) == Early(t, id0, a)
      decreases Height(id)
    {
      RisingAt(t, id);
      id := Get(t, id).parent;
    }
    r := id == a;
  }

  method IsAncestor(t: Table, id0: nat, a: nat) returns (r: bool)
    requires Rising(t) && id0 <= IdMax && a <= IdMax
    ensures r == Fast(t, id0, a)
  {
    var id: nat := id0;
    if a >= BitmapSize {
      while id != 0 && id < a - BitmapSize
        invariant id <= IdMax && Skip(t, id, a) == Skip(t, id0, a)
        decreases Height(id)
      {
        BelowRises(t, id, a);
        id := Below(t, id, a);
      }
    }
    r := if id != 0 && id < a then a - id - 1 in Get(t, id).bits else id == a;
  }

  // ----- when they agree

  /** `s` is an ancestor of `id`. */
  predicate IsAbove(t: Table, id: nat, s: nat)
    requires Rising(t)
  {
    id < s && Early(t, id, s)
  }

  /** Passing over an ancestor at or below `a` does not change whether `a` is one. */
  lemma {:induction false} EarlyThrough(t: Table, id: nat, s: nat, a: nat)
    requires Rising(t) && 0 < id <= IdMax && s <= a && Early(t, id, s) && id <= s
    ensures Early(t, id, a) == Early(t, s, a)
    decreases Height(id)
  {
    if id < s {
      RisingAt(t, id);
      EarlyThrough(t, Get(t, id).parent, s, a);
    }
  }

  /** Each skip entry is an ancestor, or 0 because none was stored. */
  predicate SkipsOk(t: Table, id: nat)
    requires Rising(t)
  {
    RisingAt(t, id);
    forall i :: 0 <= i < 3 ==> SkipOk(t, id, Get(t, id).skip[i])
  }

  predicate SkipOk(t: Table, id: nat, s: nat)
    requires Rising(t)
  {
    s == 0 || IsAbove(t, id, s)
  }

  /** The bitmap tells for each of the next 128 ids whether it is an ancestor. */
  predicate BitsOk(t: Table, id: nat)
    requires Rising(t)
  {
    forall a :: id < a <= id + BitmapSize ==> (a - id - 1 in Get(t, id).bits <==> Early(t, id, a))
  }

  /** A table as marking builds it. */
  predicate Marked(t: Table) {
    && Rising(t) && 0 !in t
    && (forall id | id in t :: BitsOk(t, id))
    && (forall id | id in t :: SkipsOk(t, id))
  }

  lemma BitsAt(t: Table, id: nat)
    requires Marked(t) && 0 < id
    ensures BitsOk(t, id) && SkipsOk(t, id)
  {
    if id !in t {
      forall a | id < a <= id + BitmapSize
        ensures !Early(t, id, a)
      {
        assert id <= IdMax ==> Early(t, id, a) == Early(t, 0, a);
      }
    }
  }

  /** One skip keeps the answer, unless it ends the walk while `a` is an ancestor. */
  lemma BelowKeeps(t: Table, id: nat, a: nat)
    requires Marked(t) && 0 < id <= IdMax && id < a && (Below(t, id, a) == 0 ==> !Early(t, id, a))
    ensures Early(t, Below(t, id, a), a) == Early(t, id, a)
  {
    BitsAt(t, id);
    RisingAt(t, id);
    var s := Below(t, id, a);
    if s != 0 && s != Get(t, id).parent {
      assert SkipOk(t, id, s);
      EarlyThrough(t, id, s, a);
    }
  }

  lemma {:induction false} SkipKeeps(t: Table, id: nat, a: nat)
    requires Marked(t) && id <= IdMax && NoFarMissing(t)
    ensures Early(t, Skip(t, id, a), a) == Early(t, id, a)
    ensures var x := Skip(t, id, a); x == 0 || (x + BitmapSize >= a && x <= IdMax)
    decreases Height(id)
  {
    BelowRises(t, id, a);
    if id != 0 && id + BitmapSize < a {
      assert Below(t, id, a) == 0 ==> !Far(t, id, a);
      BelowKeeps(t, id, a);
      SkipKeeps(t, Below(t, id, a), a);
    }
  }

  predicate Far(t: Table, id: nat, a: nat)
    requires Rising(t)
  {
    id + BitmapSize < a && Early(t, id, a)
  }

  /** No walk is ended by a missing skip entry while it still has an ancestor beyond the bitmap to find. */
  ghost predicate NoFarMissing(t: Table)
    requires Rising(t)
  {
    forall id: nat, a: nat :: 0 < id <= IdMax && Below(t, id, a) == 0 ==> !Far(t, id, a)
  }

  lemma FastIsEarly(t: Table, id: nat, a: nat)
    requires Marked(t) && NoFarMissing(t) && id <= IdMax
    ensures Fast(t, id, a) == Early(t, id, a)
  {
    var x := if a >= BitmapSize then Skip(t, id, a) else id;
    SkipKeeps(t, id, a);
    LastStep(t, x, a);
  }

  lemma LastStep(t: Table, x: nat, a: nat)
    requires Marked(t) && x <= IdMax && (x == 0 || x + BitmapSize >= a)
    ensures (if x != 0 && x < a then a - x - 1 in Get(t, x).bits else x == a) == Early(t, x, a)
  {
    if x != 0 && x < a {
      BitsAt(t, x);
    }
  }

  ghost predicate Agree(t: Table)
    requires Rising(t)
  {
    forall id: nat, a: nat :: id <= IdMax ==> Fast(t, id, a) == Early(t, id, a)
  }

  /**
   The fast walk agrees with the parent walk on all ids exactly when no node has an ancestor more
   than 128 ids above it for which the entry it would skip by is missing.
   */
  lemma FastAgreesIff(t: Table)
    requires Marked(t)
    ensures Agree(t) <==> NoFarMissing(t)
  {
    if NoFarMissing(t) {
      forall id: nat, a: nat | id <= IdMax
        ensures Fast(t, id, a) == Early(t, id, a)
      {
        FastIsEarly(t, id, a);
      }
    }
    if id, a :| 0 < id <= IdMax && Below(t, id, a) == 0 && Far(t, id, a) {
      MissingStops(t, id, a);
      assert Fast(t, id, a) != Early(t, id, a);
    }
  }

  /** A missing skip entry ends a far walk at once. */
  lemma MissingStops(t: Table, id: nat, a: nat)
    requires Rising(t) && 0 < id <= IdMax && Below(t, id, a) == 0 && id + BitmapSize < a
    ensures !Fast(t, id, a)
  {
    assert Skip(t, id, a) == Skip(t, 0, a) == 0;
  }

  /** All three skip entries are stored. */
  predicate SkipsStored(skip: seq<nat>) {
    |skip| == 3 && skip[0] != 0 && skip[1] != 0 && skip[2] != 0
  }

  /** They are, at every node but a root. */
  predicate LinksStored(t: Table) {
    forall id | id in t :: t[id].parent == 0 || SkipsStored(t[id].skip)
  }

  /** In particular, with the skip entries stored everywhere but at roots, the two always agree. */
  lemma StoredSkipsAgree(t: Table)
    requires Marked(t) && LinksStored(t)
    ensures Agree(t)
  {
    forall id: nat, a: nat | 0 < id <= IdMax && Below(t, id, a) == 0
      ensures !Far(t, id, a)
    {
      RootsEnd(t, id, a);
    }
    FastAgreesIff(t);
  }

  lemma RootsEnd(t: Table, id: nat, a: nat)
    requires Marked(t) && LinksStored(t) && 0 < id <= IdMax && Below(t, id, a) == 0
    ensures !Far(t, id, a)
  {
    assert Get(t, id).parent == 0;
    if id < a {
      assert Early(t, id, a) == Early(t, 0, a);
    }
  }

  // ----- marking

  /** Walks above `id` do not see its entry. */
  lemma {:induction false} EarlyAbove(t: Table, id: nat, e: Entry, x: nat, a: nat)
    requires Rising(t) && Rising(t[id := e]) && (x == 0 || x > id)
    ensures Early(t[id := e], x, a) == Early(t, x, a)
    decreases Height(x)
  {
    RisingAt(t, x);
    if x != 0 && x < a && x <= IdMax {
      EarlyAbove(t, id, e, Get(t, x).parent, a);
    }
  }

  lemma EarlyMarked(t: Table, id: nat, e: Entry, a: nat)
    requires Rising(t) && Rising(t[id := e]) && 0 < id <= IdMax && id < a
    ensures Early(t[id := e], id, a) == Early(t, e.parent, a)
  {
    RisingAt(t[id := e], id);
    EarlyAbove(t, id, e, e.parent, a);
  }

  /** A node whose skip entries, if stored, are ancestors already in the table. */
  predicate NodeOk(t: Table, n: Node)
    requires Rising(t)
  {
    && 0 < n.id <= IdMax && EntryOk(n.id, Entry(n.parent, n.skip, {}))
    && forall i :: 0 <= i < 3 ==> n.skip[i] == 0 || Early(t, n.parent, n.skip[i])
  }

  /** The ancestors found so far on the walk from `from`, which has got to `q`. */
  ghost predicate Walked(t: Table, id: nat, from: nat, q: nat, bits: set<nat>)
    requires Rising(t)
  {
    && (q == 0 || id < q <= IdMax)
    && forall a: nat :: id < a <= id + BitmapSize ==> (Early(t, from, a) <==> a - id - 1 in bits || Early(t, q, a))
  }

  lemma WalkStep(t: Table, id: nat, from: nat, q: nat, bits: set<nat>)
    requires Rising(t) && Walked(t, id, from, q, bits) && q != 0
    ensures Walked(t, id, from, Get(t, q).parent, bits + {q - id - 1})
  {
    RisingAt(t, q);
    var bits' := bits + {q - id - 1};
    forall a: nat | id < a <= id + BitmapSize
      ensures Early(t, from, a) <==> a - id - 1 in bits' || Early(t, Get(t, q).parent, a)
    {
      RisingAt(t, Get(t, q).parent);
      assert a == q <==> a - id - 1 == q - id - 1;
    }
  }

  class SnapshotTable {
    var t: Table

    /** Enter a node: its parent and skip entries, and a bitmap from the ancestors already entered. */
    method Mark(n: Node)
      requires Rising(t) && NodeOk(t, n)
      modifies this
      ensures exists bits: set<nat> :: t == old(t)[n.id := Entry(n.parent, n.skip, bits)]
      ensures Rising(t) && BitsOk(t, n.id)
    {
      var bits: set<nat> := {};
      var q: nat := n.parent;
      while q != 0 && q - n.id - 1 < BitmapSize
        invariant t == old(t) && Walked(t, n.id, n.parent, q, bits)
        decreases Height(q)
      {
        WalkStep(t, n.id, n.parent, q, bits);
        RisingAt(t, q);
        bits := bits + {q - n.id - 1};
        q := Get(t, q).parent;
      }
      var e := Entry(n.parent, n.skip, bits);
      MarkedBits(t, n, q, e);
      t := t[n.id := e];
    }

    /**
     Enter all nodes of a tree, largest ids first, as the start-up scan does.  With every skip
     entry stored but at roots, the fast walk of the finished table agrees with the parent walk.
     */
    method Fill(nodes: seq<Node>)
      requires t == map[] && Descending(nodes) && Rising(Parents(nodes, |nodes|))
      requires forall i :: 0 <= i < |nodes| ==> NodeFits(nodes, i)
      modifies this
      ensures Marked(t) && SameLinks(t, Parents(nodes, |nodes|))
      ensures AllStored(nodes) ==> Agree(t)
    {
      for i := 0 to |nodes|
        invariant Marked(t) && SameLinks(t, Parents(nodes, i))
      {
        ghost var before := t;
        FitsTable(t, nodes, i);
        Mark(nodes[i]);
        ghost var bits: set<nat> :| t == before[nodes[i].id := Entry(nodes[i].parent, nodes[i].skip, bits)];
        MarkKeeps(before, nodes[i], Entry(nodes[i].parent, nodes[i].skip, bits));
      }
      if AllStored(nodes) {
        StoredLinks(nodes, |nodes|);
        StoredSkipsAgree(t);
      }
    }
  }

  lemma MarkedBits(t: Table, n: Node, q: nat, e: Entry)
    requires Rising(t) && NodeOk(t, n) && e.parent == n.parent && e.skip == n.skip
    requires Walked(t, n.id, n.parent, q, e.bits) && (q == 0 || q - n.id - 1 >= BitmapSize)
    ensures Rising(t[n.id := e]) && BitsOk(t[n.id := e], n.id)
  {
    var t' := t[n.id := e];
    forall a: nat | n.id < a <= n.id + BitmapSize
      ensures a - n.id - 1 in Get(t', n.id).bits <==> Early(t', n.id, a)
    {
      EarlyMarked(t, n.id, e, a);
      assert !Early(t, q, a);
    }
  }

  predicate Descending(nodes: seq<Node>) {
    forall i, j :: 0 <= i < j < |nodes| ==> nodes[i].id > nodes[j].id
  }

  /** The parents of the first `n` nodes. */
  function Parents(nodes: seq<Node>, n: nat): Table
    requires n <= |nodes|
  {
    if n == 0 then map[]
    else Parents(nodes, n - 1)[nodes[n - 1].id := Entry(nodes[n - 1].parent, nodes[n - 1].skip, {})]
  }

  /** Every node but a root comes with its skip entries. */
  predicate AllStored(nodes: seq<Node>) {
    forall i :: 0 <= i < |nodes| ==> nodes[i].parent == 0 || SkipsStored(nodes[i].skip)
  }

  lemma {:induction false} StoredLinks(nodes: seq<Node>, n: nat)
    requires n <= |nodes| && AllStored(nodes)
    ensures LinksStored(Parents(nodes, n))
  {
    if n > 0 {
      StoredLinks(nodes, n - 1);
    }
  }

  /** Node `i` is well formed with respect to the nodes before it. */
  predicate NodeFits(nodes: seq<Node>, i: nat)
    requires i < |nodes|
  {
    Rising(Parents(nodes, i)) && NodeOk(Parents(nodes, i), nodes[i])
  }

  predicate SameParents(t: Table, u: Table) {
    t.Keys == u.Keys && forall id | id in t :: t[id].parent == u[id].parent
  }

  predicate SameLinks(t: Table, u: Table) {
    SameParents(t, u) && forall id | id in t :: t[id].skip == u[id].skip
  }

  lemma {:induction false} EarlySame(t: Table, u: Table, x: nat, a: nat)
    requires Rising(t) && Rising(u) && SameParents(t, u)
    ensures Early(t, x, a) == Early(u, x, a)
    decreases Height(x)
  {
    RisingAt(t, x);
    if x != 0 && x < a && x <= IdMax {
      EarlySame(t, u, Get(t, x).parent, a);
    }
  }

  lemma {:induction false} ParentsAbove(nodes: seq<Node>, n: nat, i: nat)
    requires Descending(nodes) && n <= i < |nodes|
    ensures forall id | id in Parents(nodes, n) :: id > nodes[i].id
  {
    if n > 0 {
      ParentsAbove(nodes, n - 1, i);
    }
  }

  lemma FitsTable(t: Table, nodes: seq<Node>, i: nat)
    requires i < |nodes| && Descending(nodes) && NodeFits(nodes, i) && Rising(t) && SameLinks(t, Parents(nodes, i))
    ensures NodeOk(t, nodes[i]) && forall id | id in t :: id > nodes[i].id
  {
    ParentsAbove(nodes, i, i);
    var n, u := nodes[i], Parents(nodes, i);
    forall k | 0 <= k < 3
      ensures n.skip[k] == 0 || Early(t, n.parent, n.skip[k])
    {
      EarlySame(t, u, n.parent, n.skip[k]);
    }
  }

  /** Marking a smaller id keeps all that was marked. */
  lemma MarkKeeps(t: Table, n: Node, e: Entry)
    requires Marked(t) && NodeOk(t, n) && (forall id | id in t :: id > n.id) && e.parent == n.parent && e.skip == n.skip
    requires Rising(t[n.id := e]) && BitsOk(t[n.id := e], n.id)
    ensures Marked(t[n.id := e])
  {
    var t' := t[n.id := e];
    forall id | id in t'
      ensures BitsOk(t', id) && SkipsOk(t', id)
    {
      if id == n.id {
        NewSkips(t, n, e);
      } else {
        OldEntry(t, n, e, id);
      }
    }
  }

  /** Marking an id again, with the parent it had, keeps all that was marked. */
  lemma RemarkKeeps(t: Table, n: Node, e: Entry)
    requires Marked(t) && NodeOk(t, n) && n.id in t && t[n.id].parent == n.parent
    requires e.parent == n.parent && e.skip == n.skip
    requires Rising(t[n.id := e]) && BitsOk(t[n.id := e], n.id)
    ensures Marked(t[n.id := e])
  {
    var t' := t[n.id := e];
    forall id | id in t'
      ensures BitsOk(t', id) && SkipsOk(t', id)
    {
      if id == n.id {
        NewSkips(t, n, e);
      } else {
        OtherEntry(t, t', id);
      }
    }
  }

  lemma OtherEntry(t: Table, t': Table, id: nat)
    requires Marked(t) && Rising(t') && SameParents(t, t') && id in t && t'[id] == t[id]
    ensures BitsOk(t', id) && SkipsOk(t', id)
  {
    assert BitsOk(t, id) && SkipsOk(t, id);
    forall a: nat
      ensures Early(t', id, a) == Early(t, id, a)
    {
      EarlySame(t, t', id, a);
    }
  }

  lemma NewSkips(t: Table, n: Node, e: Entry)
    requires Rising(t) && NodeOk(t, n) && e.parent == n.parent && e.skip == n.skip && Rising(t[n.id := e])
    ensures SkipsOk(t[n.id := e], n.id)
  {
    var t' := t[n.id := e];
    forall i | 0 <= i < 3
      ensures SkipOk(t', n.id, Get(t', n.id).skip[i])
    {
      if n.skip[i] != 0 {
        EarlyMarked(t, n.id, e, n.skip[i]);
      }
    }
  }

  lemma OldEntry(t: Table, n: Node, e: Entry, id: nat)
    requires Marked(t) && id in t && id > n.id && Rising(t[n.id := e])
    ensures BitsOk(t[n.id := e], id) && SkipsOk(t[n.id := e], id)
  {
    var t' := t[n.id := e];
    assert SkipsOk(t, id);
    forall i | 0 <= i < 3
      ensures SkipOk(t', id, Get(t', id).skip[i])
    {
      assert SkipOk(t, id, Get(t, id).skip[i]);
      EarlyAbove(t, n.id, e, id, Get(t, id).skip[i]);
    }
    forall a: nat
      ensures Early(t', id, a) == Early(t, id, a)
    {
      EarlyAbove(t, n.id, e, id, a);
    }
  }

  // ----- a table the two walks disagree on

  /** A node stored without skip entries, 200 ids below its parent. */
  lemma MissingSkipsDisagree()
    ensures var t := map[201 := Entry(0, [0, 0, 0], {}), 1 := Entry(201, [0, 0, 0], {})];
            Marked(t) && Early(t, 1, 201) && !Fast(t, 1, 201)
  {
    var t := map[201 := Entry(0, [0, 0, 0], {}), 1 := Entry(201, [0, 0, 0], {})];
    assert t[1].parent == 201 && t[201].parent == 0;
    forall id | id in t
      ensures BitsOk(t, id)
    {
      forall a | id < a <= id + BitmapSize
        ensures !Early(t, id, a)
      {
        assert id == 1 || id == 201;
        assert id == 201 ==> Early(t, 201, a) == Early(t, 0, a);
        assert id == 1 ==> Early(t, 1, a) == Early(t, 201, a);
      }
    }
    assert Early(t, 1, 201) == Early(t, 201, 201);
    MissingStops(t, 1, 201);
  }
}
