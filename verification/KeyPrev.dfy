/** Stepping back to the previous key of a run, with the help of its search tree, and whole searches of a run. */
module KeyPrev {
  import opened Options
  import opened Arith
  import opened PackedWords
  import opened PackedKeys
  import opened PosPacking
  import opened NodeKeys
  import opened SearchTree
  import opened SearchTreeBuild
  import E = Eytzinger

  /** The nearest tree key before key `k`, or the first key if there is none. */
  method PrevRo(node: Node, tree: seq<Float>, k: nat) returns (p: nat)
    requires NodeOk(node) && OffsetsOk(node, tree) && 0 < k <= |node.keys|
    ensures p < k && (p == 0 || exists i :: 1 <= i <= Size(tree) && p == TreeKey(node, tree, i))
    ensures forall i :: 1 <= i <= Size(tree) && TreeKey(node, tree, i) < k ==> TreeKey(node, tree, i) <= p
  {
    var j: nat := node.at[k] / LineWords;
    LinesBehind(node, tree, k, j);
    if Size(tree) < j {
      j := Size(tree);
    }
    LaidOrder(node.at, |node.keys|, 0, k);
    while j > 0
      invariant j <= Size(tree) && NoneFrom(node, tree, k, j)
    {
      E.ToFromInorder(j, Size(tree));
      TreeKeyIs(node, tree, E.FromInorder(j, Size(tree)));
      p := TreeKey(node, tree, E.FromInorder(j, Size(tree)));
      OffsetsDecide(node, p, k);
      if node.at[p] < node.at[k] {
        NearestOf(node, tree, k, j, E.FromInorder(j, Size(tree)));
        return;
      }
      NoneHere(node, tree, k, j, E.FromInorder(j, Size(tree)));
      j := j - 1;
    }
    p := 0;
  }

  /** No tree key of a line after `j` comes before key `k`. */
  ghost predicate NoneFrom(node: Node, tree: seq<Float>, k: nat, j: nat)
    requires NodeOk(node)
  {
    forall i :: 1 <= i <= Size(tree) && Line(tree, i) > j ==> TreeKey(node, tree, i) >= k
  }

  lemma LinesBehind(node: Node, tree: seq<Float>, k: nat, j: nat)
    requires NodeOk(node) && OffsetsOk(node, tree) && k <= |node.keys| && j == node.at[k] / LineWords
    ensures NoneFrom(node, tree, k, j)
  {
    forall i | 1 <= i <= Size(tree) && Line(tree, i) > j
      ensures TreeKey(node, tree, i) >= k
    {
      TreeKeyIs(node, tree, i);
      OffsetsDecide(node, TreeKey(node, tree, i), k);
    }
  }

  lemma NearestOf(node: Node, tree: seq<Float>, k: nat, j: nat, x: nat)
    requires NodeOk(node) && OffsetsOk(node, tree) && NoneFrom(node, tree, k, j) && 1 <= x <= Size(tree)
    requires Line(tree, x) == j
    ensures forall i :: 1 <= i <= Size(tree) && TreeKey(node, tree, i) < k ==>
      TreeKey(node, tree, i) <= TreeKey(node, tree, x)
  {
    forall i | 1 <= i <= Size(tree) && TreeKey(node, tree, i) < k
      ensures TreeKey(node, tree, i) <= TreeKey(node, tree, x)
    {
      TreeKeysOrdered(node, tree, i, x);
    }
  }

  lemma NoneHere(node: Node, tree: seq<Float>, k: nat, j: nat, x: nat)
    requires NodeOk(node) && OffsetsOk(node, tree) && NoneFrom(node, tree, k, j) && 1 <= x <= Size(tree)
    requires Line(tree, x) == j
    requires j >= 1 && TreeKey(node, tree, x) >= k
    ensures NoneFrom(node, tree, k, j - 1)
  {
    forall i | 1 <= i <= Size(tree) && Line(tree, i) > j - 1
      ensures TreeKey(node, tree, i) >= k
    {
      if Line(tree, i) == j {
        TreeKeysOrdered(node, tree, x, i);
      }
    }
  }

  /** Offsets rise with the keys. */
  lemma OffsetsDecide(node: Node, p: nat, k: nat)
    requires NodeOk(node) && p <= |node.keys| && k <= |node.keys|
    ensures node.at[p] < node.at[k] <==> p < k
  {
    if k < p {
      LaidOrder(node.at, |node.keys|, k, p);
    } else if p < k {
      LaidOrder(node.at, |node.keys|, p, k);
    }
  }

  predicate Wanted(node: Node, i: int, liveOnly: bool) {
    0 <= i < |node.keys| && (liveOnly ==> !node.keys[i].deleted)
  }

  method LastWanted(node: Node, from: nat, to: nat, liveOnly: bool) returns (r: Option<nat>)
    requires from <= to <= |node.keys|
    ensures r.None? ==> forall i :: from <= i < to ==> !Wanted(node, i, liveOnly)
    ensures r.Some? ==> from <= r.value < to && Wanted(node, r.value, liveOnly) && forall i :: r.value < i < to ==>
      !Wanted(node, i, liveOnly)
  {
    r := None;
    for i := from to to
      invariant r.None? ==> forall j :: from <= j < i ==> !Wanted(node, j, liveOnly)
      invariant r.Some? ==> from <= r.value < i && Wanted(node, r.value, liveOnly) && forall j :: r.value < j < i ==>
        !Wanted(node, j, liveOnly)
    {
      if !liveOnly || !node.keys[i].deleted {
        r := Some(i);
      }
    }
  }

  // ----- a whole search, packing included

  /** A bound of the node as a key: packed if it can be. */
  method BoundAsKey(f: Format, p: Pos) returns (k: NodeKey)
    requires FormatGood(f)
    ensures BoundKey(f, k, p)
  {
    var out := new Word[f.keyWords](i => 0);
    var ok := PackPos(out, p, f);
    k := NodeKey(ok, if ok then out[..] else [], p, true);
    assert out[..f.keyWords] == out[..];
  }

  /** The search position packed, if the format has anything at or below it. */
  method PrepareSearch(f: Format, search: Pos) returns (ret: PackRet, s: NodeKey)
    requires FormatGood(f)
    ensures ret == Fail <==> AllAbove(f, search)
    ensures ret != Fail ==> IsSearchKey(f, search, s) && (ret == Exact ==> KeyPos(f, s) == search)
  {
    var out := new Word[f.keyWords](i => 0);
    assert f.offset[2] < Pow2(32);
    ret := PackPosLossy(out, search, f);
    s := NodeKey(true, out[..], search, true);
    if ret != Fail {
      assert out[..f.keyWords] == out[..];
      ExactIsSearch(f, search, out[..], ret == Exact);
    }
  }

  /**
   Search a run for a position within the node's bounds.  It fails exactly when the format has
   nothing at or below the position; otherwise it stops where a scan from the first key would.
   */
  method SearchNode(node: Node, capacity: nat, search: Pos) returns (r: Option<nat>)
    requires NodeOk(node) && PosCmp(node.min, search) <= 0 && PosCmp(search, node.max) <= 0
    ensures r.None? <==> AllAbove(node.f, search)
    ensures r.Some? ==> IsScan(node, r.value, search)
  {
    var f := node.f;
    var minKey := BoundAsKey(f, node.min);
    var maxKey := BoundAsKey(f, node.max);
    var ret, s := PrepareSearch(f, search);
    if ret == Fail {
      return None;
    }
    var m := SearchRun(node, capacity, minKey, maxKey, search, s, ret == Exact);
    r := Some(m);
  }

  /** A representable position is its own floor. */
  lemma ExactIsSearch(f: Format, search: Pos, ps: seq<Word>, exact: bool)
    requires FormatGood(f) && |ps| == f.keyWords && IsFloor(f, search, UnpackedPos(f, ps))
    requires (exact ==> Representable(f, search))
    ensures exact ==> UnpackedPos(f, ps) == search
    ensures !AllAbove(f, search)
  {
    var q := UnpackedPos(f, ps);
    PosAntisymmetric(search, q);
    assert Representable(f, q) && PosLe(q, search);
    if exact {
      assert PosLe(search, search);
    }
  }
}
