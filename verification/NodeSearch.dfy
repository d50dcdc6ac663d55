/**
 Positioning a node iterator at a search position: each run of the node is searched through
 whatever index it has, and the iterator starts where the searches stop.
 */
module NodeSearch {
  import opened Options
  import opened PackedKeys
  import opened PosPacking
  import opened NodeKeys
  import opened SearchTree
  import opened SearchTreeBuild
  import opened KeyPrev
  import opened NodeMerge
  import NodeIter
  import NodeWalk
  import LookupTable

  /** What helps to search a run: nothing, a search tree, or a write set's table. */
  datatype Aux =
    | NoTree
    | ReadTree(tree: seq<Float>, minKey: NodeKey, maxKey: NodeKey)
    | WriteTable(table: seq<LookupTable.Entry>)

  datatype KeySet = KeySet(keys: seq<NodeKey>, at: seq<nat>, aux: Aux)

  datatype BtreeNode = BtreeNode(f: Format, min: Pos, max: Pos, sets: seq<KeySet>)

  function Run(b: BtreeNode, r: nat): Node
    requires r < |b.sets|
  {
    Node(b.f, b.sets[r].keys, b.sets[r].at, b.min, b.max)
  }

  ghost predicate AuxOk(node: Node, aux: Aux)
    requires NodeOk(node)
  {
    match aux
    case NoTree => true
    case ReadTree(tree, minKey, maxKey) => TreeOk(node, tree, minKey, maxKey)
    case WriteTable(table) => LookupTable.TableOk(node.at[0], TableKeys(node), table)
  }

  ghost predicate SetOk(b: BtreeNode, r: nat)
    requires r < |b.sets|
  {
    NodeOk(Run(b, r)) && AuxOk(Run(b, r), b.sets[r].aux)
  }

  ghost predicate BtreeOk(b: BtreeNode) {
    FormatGood(b.f) && |b.sets| <= NodeIter.MaxRuns && forall r :: 0 <= r < |b.sets| ==> SetOk(b, r)
  }

  // ----- the run as the write set's table and as the iterator see it

  function TableKeys(node: Node): (keys: seq<LookupTable.RunKey>)
    requires |node.at| == |node.keys| + 1 && Readable(node)
    ensures |keys| == |node.keys|
    ensures forall i :: 0 <= i < |keys| ==>
      keys[i] == LookupTable.RunKey(KeyPos(node.f, node.keys[i]), Words(node, i), node.keys[i].deleted)
  {
    seq(|node.keys|, i requires 0 <= i < |node.keys| =>
      LookupTable.RunKey(KeyPos(node.f, node.keys[i]), Words(node, i), node.keys[i].deleted))
  }

  predicate Readable(node: Node) {
    forall i :: 0 <= i < |node.keys| ==> KeyOk(node.f, node.keys[i])
  }

  /** The words key `i` takes up. */
  function Words(node: Node, i: nat): nat
    requires i + 1 < |node.at|
  {
    if node.at[i] < node.at[i + 1] then node.at[i + 1] - node.at[i] else 0
  }

  function IterKeys(node: Node): (keys: seq<NodeIter.IterKey>)
    requires Readable(node)
    ensures |keys| == |node.keys|
    ensures forall i :: 0 <= i < |keys| ==>
      keys[i] == NodeIter.IterKey(KeyPos(node.f, node.keys[i]), node.keys[i].deleted)
  {
    seq(|node.keys|, i requires 0 <= i < |node.keys| =>
      NodeIter.IterKey(KeyPos(node.f, node.keys[i]), node.keys[i].deleted))
  }

  /** An iterator's runs are those of the node. */
  ghost predicate SameRuns(n: NodeIter.Runs, b: BtreeNode) {
    && |n.keys| == |b.sets|
    && forall r :: 0 <= r < |n.keys| ==> Readable(Run(b, r)) && n.keys[r] == IterKeys(Run(b, r))
  }

  /** The runs of a good node are sorted as the iterator needs them, wherever they lie. */
  lemma GoodRuns(n: NodeIter.Runs, b: BtreeNode)
    requires BtreeOk(b) && SameRuns(n, b) && NodeIter.Placed(n)
    ensures NodeIter.RunsOk(n)
  {
    forall r, i, j | 0 <= r < |n.keys| && 0 <= i < j < |n.keys[r]|
      ensures NodeIter.InOrder(n.keys[r][i], n.keys[r][j])
    {
      assert SetOk(b, r);
      assert InOrder(b.f, Run(b, r).keys[i], Run(b, r).keys[j]);
    }
  }

  lemma {:induction false} TableOffsets(node: Node, i: nat)
    requires NodeOk(node) && i <= |node.keys|
    ensures node.at[0] + LookupTable.Off(TableKeys(node), i) == node.at[i]
  {
    if i > 0 {
      TableOffsets(node, i - 1);
    }
  }

  lemma TableSorted(node: Node)
    requires NodeOk(node)
    ensures LookupTable.KeysOk(TableKeys(node)) && LookupTable.Sorted(TableKeys(node))
  {
    var keys := TableKeys(node);
    forall i, j | 0 <= i < j < |keys|
      ensures LookupTable.InOrder(keys[i], keys[j])
    {
      assert InOrder(node.f, node.keys[i], node.keys[j]);
    }
  }

  /** A scan of the table's keys stops where a scan of the run does. */
  lemma TableScan(node: Node, m: nat, search: Pos)
    requires NodeOk(node)
    ensures LookupTable.IsScan(TableKeys(node), m, search) <==> IsScan(node, m, search)
  {
    var keys := TableKeys(node);
    assert forall i :: 0 <= i < |keys| ==>
      (LookupTable.Before(keys[i], search) <==> Before(node.f, node.keys[i], search));
  }

  /** A scan of the run stops where the iterator's position is to be. */
  lemma ScanIsSearched(n: NodeIter.Runs, b: BtreeNode, p: seq<nat>, r: nat, search: Pos)
    requires BtreeOk(b) && SameRuns(n, b) && NodeIter.Placed(n) && NodeIter.PosOk(n, p) && r < |p|
    requires SetOk(b, r) && IsScan(Run(b, r), p[r] - n.base[r], search)
    ensures NodeWalk.RunSearched(n, p, r, search)
  {
    var node := Run(b, r);
    assert forall i :: 0 <= i < |node.keys| ==>
      (NodeWalk.Before(n.keys[r][i], search) <==> Before(node.f, node.keys[i], search));
  }

  // ----- searching one run

  /** The key the run's index leads to has only smaller keys before it. */
  method StartOf(node: Node, aux: Aux, search: Pos, s: NodeKey) returns (start: nat)
    requires NodeOk(node) && AuxOk(node, aux) && IsSearchKey(node.f, search, s)
    requires PosCmp(node.min, search) <= 0 && PosCmp(search, node.max) <= 0
    ensures start <= |node.keys| && AllBefore(node, start, search)
  {
    match aux
    case NoTree =>
      start := 0;
    case ReadTree(tree, minKey, maxKey) =>
      var off := SearchRoTree(node, tree, search, s, minKey, maxKey);
      start := From(node.at, off, 0);
    case WriteTable(table) =>
      start := StartInTable(node, table, search);
  }

  method StartInTable(node: Node, table: seq<LookupTable.Entry>, search: Pos) returns (start: nat)
    requires NodeOk(node) && LookupTable.TableOk(node.at[0], TableKeys(node), table)
    ensures start <= |node.keys| && AllBefore(node, start, search)
  {
    TableSorted(node);
    ghost var keys := TableKeys(node);
    var off := LookupTable.SearchWriteSet(node.at[0], keys, table, search);
    ghost var i := LookupTable.IndexOf(keys, off - node.at[0], 0);
    TableOffsets(node, i);
    FromExact(node.at, |node.keys|, i);
    start := From(node.at, off, 0);
    forall k | 0 <= k < i
      ensures Before(node.f, node.keys[k], search)
    {
      assert LookupTable.Before(keys[k], search);
    }
  }

  /** Search a run through its index: the result is where a scan from its first key would stop. */
  method SearchSet(b: BtreeNode, r: nat, search: Pos, s: NodeKey, exact: bool) returns (m: nat)
    requires r < |b.sets| && SetOk(b, r) && IsSearchKey(b.f, search, s) && (exact ==> KeyPos(b.f, s) == search)
    requires PosCmp(b.min, search) <= 0 && PosCmp(search, b.max) <= 0
    ensures IsScan(Run(b, r), m, search)
  {
    var start := StartOf(Run(b, r), b.sets[r].aux, search, s);
    m := SearchLinear(Run(b, r), search, exact, s.words, start);
  }

  // ----- stepping back in a run

  /** Some key before key `k`, found through the run's index. */
  method PrevBelow(node: Node, aux: Aux, k: nat) returns (p: nat)
    requires NodeOk(node) && AuxOk(node, aux) && 0 < k <= |node.keys|
    ensures p < k
  {
    match aux
    case NoTree =>
      p := 0;
    case ReadTree(tree, _, _) =>
      p := PrevRo(node, tree, k);
    case WriteTable(table) =>
      p := PrevInTable(node, table, k);
  }

  method PrevInTable(node: Node, table: seq<LookupTable.Entry>, k: nat) returns (p: nat)
    requires NodeOk(node) && LookupTable.TableOk(node.at[0], TableKeys(node), table) && 0 < k <= |node.keys|
    ensures p < k
  {
    TableSorted(node);
    TableOffsets(node, k);
    TableOffsets(node, |node.keys|);
    var off := LookupTable.PrevEntry(node.at[0], TableKeys(node), table, k, node.at[k], node.at[|node.keys|]);
    ghost var i := LookupTable.IndexOf(TableKeys(node), off - node.at[0], 0);
    TableOffsets(node, i);
    FromExact(node.at, |node.keys|, i);
    p := From(node.at, off, 0);
  }

  /**
   The last wanted key before `k`, found by scanning forward from ever earlier keys.  When every
   key is wanted it is the one just before, whatever index the run has.
   */
  method PrevFilter(node: Node, aux: Aux, k: nat, liveOnly: bool) returns (r: Option<nat>)
    requires NodeOk(node) && AuxOk(node, aux) && k <= |node.keys|
    ensures r.None? ==> forall i :: 0 <= i < k ==> !Wanted(node, i, liveOnly)
    ensures r.Some? ==>
      && r.value < k && Wanted(node, r.value, liveOnly)
      && forall i :: r.value < i < k ==> !Wanted(node, i, liveOnly)
    ensures !liveOnly ==> r == if k == 0 then None else Some(k - 1)
  {
    r := None;
    var end: nat := k;
    while end != 0
      invariant end <= k && r.None? && forall i :: end <= i < k ==> !Wanted(node, i, liveOnly)
      decreases end
    {
      var p := PrevBelow(node, aux, end);
      r := LastWanted(node, p, end, liveOnly);
      if r.Some? {
        break;
      }
      end := p;
    }
    assert k > 0 && !liveOnly ==> Wanted(node, k - 1, liveOnly);
  }

  // ----- building the index of a run

  /** Give a run its index, if there is room for one: a table if it is still written to, a search tree otherwise. */
  method BuildAux(node: Node, writeable: bool, capacity: nat) returns (aux: Aux)
    requires NodeOk(node)
    ensures AuxOk(node, aux)
    ensures writeable ==> (aux.WriteTable? <==> capacity > 0) && !aux.ReadTree?
    ensures !writeable ==> (aux.ReadTree? <==> HasTree(node, capacity)) && !aux.WriteTable?
  {
    aux := NoTree;
    if capacity == 0 {
      return;
    }
    if writeable {
      TableSorted(node);
      var table := LookupTable.Build(node.at[0], TableKeys(node), capacity);
      return WriteTable(table);
    }
    var built, offsets := Offsets(node, capacity);
    if built {
      var minKey := BoundAsKey(node.f, node.min);
      var maxKey := BoundAsKey(node.f, node.max);
      var tree := Floats(node, offsets, minKey, maxKey);
      aux := ReadTree(tree, minKey, maxKey);
    }
  }

  /** A run with room for a line of tree and a key in it. */
  predicate HasTree(node: Node, capacity: nat)
    requires |node.at| > 0
  {
    MostLines(node, capacity) >= 2 && LineKey(node, 1) < |node.keys|
  }

  predicate HasKind(aux: Aux, writeable: bool) { if writeable then aux.WriteTable? else aux.ReadTree? }

  /**
   Index every run of a node; only the last, if not yet written out, gets a table.  A run that
   has an index of its kind keeps it; making room for a new one drops those of all later runs.
   */
  method BuildAll(b: BtreeNode, lastWritten: bool, capacity: seq<nat>) returns (b': BtreeNode)
    requires BtreeOk(b) && |capacity| == |b.sets|
    ensures BtreeOk(b') && SameKeys(b, b')
    ensures forall r :: 0 <= r < |b.sets| ==> IndexedAs(b, b', lastWritten, capacity[r], r)
  {
    b' := b;
    for r := 0 to |b.sets|
      invariant BtreeOk(b') && SameKeys(b, b') && IndexedTo(b, b', lastWritten, capacity, r)
    {
      ghost var was := b';
      assert SetOk(b, r);
      if HasKind(b'.sets[r].aux, Writes(b, lastWritten, r)) {
        KeptIndex(b, b', lastWritten, capacity, r);
      } else {
        b' := Reindex(b', r, Writes(b, lastWritten, r), capacity[r]);
        NewIndex(b, was, b', lastWritten, capacity, r);
      }
    }
  }

  /** The first `n` runs are done; the others have what they had, or nothing if one of those was indexed anew. */
  predicate IndexedTo(b: BtreeNode, b': BtreeNode, lastWritten: bool, capacity: seq<nat>, n: nat) {
    && n <= |b.sets| == |b'.sets| == |capacity|
    && (forall q :: 0 <= q < n ==> IndexedAs(b, b', lastWritten, capacity[q], q))
    && forall q :: n <= q < |b.sets| ==>
         b'.sets[q].aux == if AllHave(b, lastWritten, n) then b.sets[q].aux else NoTree
  }

  lemma KeptIndex(b: BtreeNode, b': BtreeNode, lastWritten: bool, capacity: seq<nat>, r: nat)
    requires IndexedTo(b, b', lastWritten, capacity, r) && r < |b.sets| && |b.sets[r].at| > 0
    requires HasKind(b'.sets[r].aux, Writes(b, lastWritten, r))
    ensures IndexedTo(b, b', lastWritten, capacity, r + 1)
  {
    assert AllHave(b, lastWritten, r);
    assert AllHave(b, lastWritten, r + 1);
  }

  lemma NewIndex(b: BtreeNode, was: BtreeNode, b': BtreeNode, lastWritten: bool, capacity: seq<nat>, r: nat)
    requires IndexedTo(b, was, lastWritten, capacity, r) && r < |b.sets| && |b'.sets| == |b.sets| && |b.sets[r].at| > 0
    requires !HasKind(was.sets[r].aux, Writes(b, lastWritten, r))
    requires forall q :: 0 <= q < |b.sets| && q != r ==>
      b'.sets[q] == if q < r then was.sets[q] else was.sets[q].(aux := NoTree)
    requires var writes, aux := Writes(b, lastWritten, r), b'.sets[r].aux;
             && HasKind(aux, writes) == (if writes then capacity[r] > 0 else HasTree(Run(b, r), capacity[r]))
             && (HasKind(aux, writes) || aux == NoTree)
    ensures IndexedTo(b, b', lastWritten, capacity, r + 1)
  {
    assert !AllHave(b, lastWritten, r + 1);
    forall q | 0 <= q < r
      ensures IndexedAs(b, b', lastWritten, capacity[q], q)
    {
      assert IndexedAs(b, was, lastWritten, capacity[q], q);
    }
  }

  /** Run `r` is still written to: it is the last one and not yet written out. */
  predicate Writes(b: BtreeNode, lastWritten: bool, r: nat) { !lastWritten && r + 1 == |b.sets| }

  /** The first `n` runs each have an index of their kind. */
  predicate AllHave(b: BtreeNode, lastWritten: bool, n: nat)
    requires n <= |b.sets|
  {
    forall q :: 0 <= q < n ==> HasKind(b.sets[q].aux, Writes(b, lastWritten, q))
  }

  /** Run `r` keeps its index if no run up to it lacked one; otherwise it gets one if there is room. */
  predicate IndexedAs(b: BtreeNode, b': BtreeNode, lastWritten: bool, capacity: nat, r: nat) {
    && r < |b.sets| == |b'.sets| && |b.sets[r].at| > 0
    && if AllHave(b, lastWritten, r + 1) then b'.sets[r].aux == b.sets[r].aux
       else
         var writes, aux := Writes(b, lastWritten, r), b'.sets[r].aux;
         HasKind(aux, writes) == (if writes then capacity > 0 else HasTree(Run(b, r), capacity))
         && (HasKind(aux, writes) || aux == NoTree)
  }

  /** Make room for run `r`'s index, which drops the later ones, and build it. */
  method Reindex(b: BtreeNode, r: nat, writeable: bool, capacity: nat) returns (b': BtreeNode)
    requires BtreeOk(b) && r < |b.sets|
    ensures BtreeOk(b') && SameKeys(b, b')
    ensures forall q :: 0 <= q < |b.sets| && q != r ==>
      b'.sets[q] == if q < r then b.sets[q] else b.sets[q].(aux := NoTree)
    ensures |b.sets[r].at| > 0
    ensures HasKind(b'.sets[r].aux, writeable) == (if writeable then capacity > 0 else HasTree(Run(b, r), capacity))
    ensures HasKind(b'.sets[r].aux, writeable) || b'.sets[r].aux == NoTree
  {
    DropKeeps(b, r);
    b' := DropFrom(b, r);
    assert SetOk(b', r) && Run(b', r) == Run(b, r);
    var aux := BuildAux(Run(b', r), writeable, capacity);
    NewAux(b', r, aux);
    b' := WithAux(b', r, aux);
  }

  /** Without the indexes of run `r` and later ones. */
  function DropFrom(b: BtreeNode, r: nat): (b': BtreeNode)
    ensures |b'.sets| == |b.sets|
    ensures forall q :: 0 <= q < |b.sets| ==> b'.sets[q] == if q < r then b.sets[q] else b.sets[q].(aux := NoTree)
  {
    b.(sets := seq(|b.sets|, q requires 0 <= q < |b.sets| => if q < r then b.sets[q] else b.sets[q].(aux := NoTree)))
  }

  lemma DropKeeps(b: BtreeNode, r: nat)
    requires BtreeOk(b)
    ensures BtreeOk(DropFrom(b, r)) && SameKeys(b, DropFrom(b, r))
  {
    var b' := DropFrom(b, r);
    forall q | 0 <= q < |b'.sets|
      ensures SetOk(b', q)
    {
      assert SetOk(b, q) && Run(b', q) == Run(b, q);
    }
  }

  predicate SameKeys(b: BtreeNode, b': BtreeNode) {
    && b'.f == b.f && b'.min == b.min && b'.max == b.max && |b'.sets| == |b.sets|
    && forall r :: 0 <= r < |b.sets| ==> b'.sets[r].keys == b.sets[r].keys && b'.sets[r].at == b.sets[r].at
  }

  function WithAux(b: BtreeNode, r: nat, aux: Aux): BtreeNode
    requires r < |b.sets|
  {
    b.(sets := b.sets[r := b.sets[r].(aux := aux)])
  }

  lemma NewAux(b: BtreeNode, r: nat, aux: Aux)
    requires BtreeOk(b) && r < |b.sets| && NodeOk(Run(b, r)) && AuxOk(Run(b, r), aux)
    ensures BtreeOk(WithAux(b, r, aux))
  {
    var b' := WithAux(b, r, aux);
    forall q | 0 <= q < |b'.sets|
      ensures SetOk(b', q)
    {
      assert SetOk(b, q) && Run(b', q) == Run(b, q);
    }
  }

  // ----- positioning the iterator

  /**
   Position an iterator at a search position within the node's bounds.  Whatever the runs' indexes,
   what remains is exactly the keys not before the search.  Only when the format can express
   nothing at or below the search may deleted keys ahead of the first live one be missing.
   */
  method InitNode(it: NodeIterator, b: BtreeNode, search: Pos)
    requires it.Ready() && BtreeOk(b) && SameRuns(it.n, b)
    requires PosCmp(b.min, search) <= 0 && PosCmp(search, b.max) <= 0
    modifies it
    ensures it.Valid()
    ensures forall o: nat :: NodeIter.Remaining(it.n, it.at, o) ==> !NodeWalk.Before(NodeIter.KeyAt(it.n, o), search)
    ensures forall o: nat :: NodeIter.IsKey(it.n, o) && !NodeWalk.Before(NodeIter.KeyAt(it.n, o), search) ==>
      NodeIter.Remaining(it.n, it.at, o) || (AllAbove(b.f, search) && NodeIter.KeyAt(it.n, o).deleted)
    ensures AllAbove(b.f, search) && |it.heads| > 0 ==>
      NodeIter.IsKey(it.n, it.heads[0]) && !NodeIter.KeyAt(it.n, it.heads[0]).deleted
  {
    var ret, s := PrepareSearch(b.f, search);
    if ret == Fail {
      NodeWalk.InitUnpackable(it, search);
      return;
    }
    var p := SearchAll(it.n, b, search, s, ret == Exact);
    NodeWalk.InitAt(it, p, search);
  }

  method SearchAll(n: NodeIter.Runs, b: BtreeNode, search: Pos, s: NodeKey, exact: bool) returns (p: seq<nat>)
    requires BtreeOk(b) && SameRuns(n, b) && NodeIter.Placed(n)
    requires IsSearchKey(b.f, search, s) && (exact ==> KeyPos(b.f, s) == search)
    requires PosCmp(b.min, search) <= 0 && PosCmp(search, b.max) <= 0
    ensures NodeIter.PosOk(n, p) && NodeWalk.IsSearch(n, p, search)
  {
    p := n.base;
    for r := 0 to |b.sets|
      invariant SearchedTo(n, p, r, search)
    {
      assert SetOk(b, r);
      var m := SearchSet(b, r, search, s, exact);
      RunDone(n, b, p, r, m, search);
      p := p[r := n.base[r] + m];
    }
  }

  predicate SearchedTo(n: NodeIter.Runs, p: seq<nat>, r: nat, search: Pos)
    requires NodeIter.Placed(n)
  {
    NodeIter.PosOk(n, p) && r <= |p| && forall q :: 0 <= q < r ==> NodeWalk.RunSearched(n, p, q, search)
  }

  lemma RunDone(n: NodeIter.Runs, b: BtreeNode, p: seq<nat>, r: nat, m: nat, search: Pos)
    requires BtreeOk(b) && SameRuns(n, b) && NodeIter.Placed(n) && r < |b.sets| && SearchedTo(n, p, r, search)
    requires SetOk(b, r) && IsScan(Run(b, r), m, search)
    ensures SearchedTo(n, p[r := n.base[r] + m], r + 1, search)
  {
    var p' := p[r := n.base[r] + m];
    assert NodeIter.PosOk(n, p');
    ScanIsSearched(n, b, p', r, search);
    forall q | 0 <= q < r
      ensures NodeWalk.RunSearched(n, p', q, search)
    {
      assert NodeWalk.RunSearched(n, p, q, search) && p'[q] == p[q];
    }
  }
}
