/** Building the search tree of a sorted run. */
module SearchTreeBuild {
  import opened Arith
  import opened PackedWords
  import opened PackedKeys
  import opened PosPacking
  import opened NodeKeys
  import opened Mantissa
  import opened SearchTree
  import E = Eytzinger

  /** A node of the tree that has been visited by an in-order walk that is about to visit `line`. */
  predicate Visited(tree: seq<Float>, j: nat, line: int) {
    1 <= j <= Size(tree) && Line(tree, j) < line
  }

  /** The walk: `j` is the node of `line`, or 0 past the last line. */
  predicate Walking(tree: seq<Float>, j: nat, line: int) {
    1 <= line <= Size(tree) + 1 && j <= Size(tree) && if j == 0 then line == Size(tree) + 1 else Line(tree, j) == line
  }

  lemma WalkStarts(tree: seq<Float>)
    requires |tree| >= 2
    ensures Walking(tree, E.First(Size(tree)), 1)
  {
    E.FirstIsFirst(Size(tree));
  }

  lemma WalkSteps(tree: seq<Float>, j: nat, line: int)
    requires |tree| >= 2 && Walking(tree, j, line) && j != 0
    ensures Walking(tree, E.NextIdx(j, Size(tree)), line + 1)
    ensures forall i :: Visited(tree, i, line + 1) ==> Visited(tree, i, line) || i == j
  {
    E.NextIdxSucceeds(j, Size(tree));
    forall i | Visited(tree, i, line + 1)
      ensures Visited(tree, i, line) || i == j
    {
      E.FromToInorder(i, Size(tree));
      E.FromToInorder(j, Size(tree));
    }
  }

  /** A past-the-end walk has visited every node. */
  lemma WalkEnds(tree: seq<Float>, line: int, j: nat)
    requires |tree| >= 2 && Walking(tree, 0, line) && 1 <= j <= Size(tree)
    ensures Visited(tree, j, line)
  {
    E.FromToInorder(j, Size(tree));
  }

  // ----- key offsets

  /** Walk on to the first key of a line. */
  method NextLineKey(node: Node, line: nat, from: nat) returns (k: nat)
    requires NodeOk(node) && line <= node.at[|node.keys|] / LineWords && from <= LineKey(node, line)
    ensures k == LineKey(node, line)
  {
    k := from;
    while node.at[k] / LineWords < line
      invariant k <= LineKey(node, line)
      decreases |node.keys| - k
    {
      k := k + 1;
    }
  }

  /** Every visited node's offset is stored. */
  ghost predicate FilledTo(node: Node, tree: seq<Float>, line: int)
    requires NodeOk(node)
  {
    forall i :: Visited(tree, i, line) ==> OffsetOk(node, tree, i)
  }

  lemma FilledAll(node: Node, tree: seq<Float>, line: int)
    requires NodeOk(node) && |tree| >= 2 && Walking(tree, 0, line) && FilledTo(node, tree, line)
    ensures OffsetsOk(node, tree)
  {
    forall i | 1 <= i <= Size(tree)
      ensures OffsetOk(node, tree, i)
    {
      WalkEnds(tree, line, i);
    }
  }

  lemma FilledNone(node: Node, tree: seq<Float>)
    requires NodeOk(node) && |tree| >= 2
    ensures Walking(tree, E.First(Size(tree)), 1) && FilledTo(node, tree, 1)
  {
    WalkStarts(tree);
  }

  lemma OffsetStored(node: Node, tree: seq<Float>, tree': seq<Float>, j: nat, line: nat)
    requires NodeOk(node) && |tree| >= 2 && Walking(tree, j, line) && j != 0 && LineKey(node, line) < |node.keys|
    requires FilledTo(node, tree, line)
    requires |tree'| == |tree| && forall i :: 0 <= i < |tree| && i != j ==> tree'[i] == tree[i]
    requires LineWords * line + tree'[j].keyOffset == node.at[LineKey(node, line)]
    ensures Walking(tree', E.NextIdx(j, Size(tree')), line + 1)
    ensures FilledTo(node, tree', line + 1)
  {
    WalkSteps(tree, j, line);
    forall i | Visited(tree', i, line + 1)
      ensures OffsetOk(node, tree', i)
    {
      assert Visited(tree, i, line + 1);
      assert i != j ==> OffsetOk(node, tree, i);
    }
  }

  method FillLine(node: Node, tree: seq<Float>, j: nat, line: nat, from: nat)
      returns (ok: bool, tree': seq<Float>, k: nat)
    requires NodeOk(node) && |tree| >= 2 && Walking(tree, j, line) && j != 0 && FilledTo(node, tree, line)
    requires line <= node.at[|node.keys|] / LineWords && from <= LineKey(node, line)
    ensures !ok ==> LineKey(node, line) == |node.keys|
    ensures ok ==>
      |tree'| == |tree| && Walking(tree', E.NextIdx(j, Size(tree)), line + 1) && FilledTo(node, tree', line + 1)
    ensures ok ==> k <= LineKey(node, line + 1)
  {
    k := NextLineKey(node, line, from);
    tree' := tree;
    ok := k != |node.keys|;
    if ok {
      LineOffsetSmall(node, line);
      tree' := tree[j := Float(0, 0, node.at[k] - LineWords * line)];
      OffsetStored(node, tree, tree', j, line);
      FromMonotone(node.at, LineWords * line, LineWords * (line + 1));
    }
  }

  /** Later lines begin at later keys. */
  lemma LinesRise(node: Node, a: nat, b: nat)
    requires NodeOk(node) && a <= b
    ensures LineKey(node, a) <= LineKey(node, b)
  {
    FromMonotone(node.at, LineWords * a, LineWords * b);
  }

  /** Offsets of `nodes` tree nodes; it fails exactly when no key starts at or after the last of their lines. */
  method FillOffsets(node: Node, nodes: nat) returns (ok: bool, tree: seq<Float>)
    requires NodeOk(node) && nodes >= 1 && nodes < node.at[|node.keys|] / LineWords
    ensures ok ==> |tree| == nodes + 1 && OffsetsOk(node, tree)
    ensures ok <==> LineKey(node, nodes) < |node.keys|
  {
    tree := seq(nodes + 1, i => Float(0, 0, 0));
    ok := true;
    var j: nat, line: nat, k: nat := E.First(nodes), 1, 0;
    FilledNone(node, tree);
    while j != 0
      invariant |tree| == nodes + 1 && Walking(tree, j, line) && k <= LineKey(node, line)
      invariant FilledTo(node, tree, line) && ok
      decreases nodes + 1 - line
    {
      ok, tree, k := FillLine(node, tree, j, line, k);
      if !ok {
        LinesRise(node, line, nodes);
        return;
      }
      j := E.NextIdx(j, nodes);
      line := line + 1;
    }
    FilledAll(node, tree, line);
    LastLineKept(node, tree);
  }

  lemma LastLineKept(node: Node, tree: seq<Float>)
    requires NodeOk(node) && OffsetsOk(node, tree)
    ensures LineKey(node, Size(tree)) < |node.keys|
  {
    E.LastIsLast(Size(tree));
    assert OffsetOk(node, tree, E.Last(Size(tree)));
  }

  /** The largest tree a run may have: the lines its keys fill, as far as there is room. */
  function MostLines(node: Node, capacity: nat): nat
    requires |node.at| > 0
  {
    var lines := node.at[|node.at| - 1] / LineWords;
    if capacity < lines then capacity else lines
  }

  /** A key offset fits in a byte. */
  lemma LineOffsetSmall(node: Node, line: nat)
    requires NodeOk(node) && line >= 1 && LineKey(node, line) < |node.keys|
    ensures 0 <= node.at[LineKey(node, line)] - LineWords * line < 256
  {
    var i := LineKey(node, line);
    if i > 0 {
      assert node.at[i - 1] < LineWords * line && node.at[i] <= node.at[i - 1] + 255;
    }
  }

  /**
   Shrink the tree until every line of it has a key of the run.  None is built exactly when there
   is no room for a line or the first line has no key; a tree built is as large as can be.
   */
  method Offsets(node: Node, capacity: nat) returns (ok: bool, tree: seq<Float>)
    requires NodeOk(node)
    ensures ok <==> MostLines(node, capacity) >= 2 && LineKey(node, 1) < |node.keys|
    ensures ok ==> OffsetsOk(node, tree) && |tree| <= MostLines(node, capacity)
    ensures ok ==> |tree| == MostLines(node, capacity) || LineKey(node, |tree|) == |node.keys|
  {
    var size := MostLines(node, capacity);
    while size >= 2
      invariant size <= MostLines(node, capacity) <= node.at[|node.keys|] / LineWords
      invariant size == MostLines(node, capacity) || (size >= 1 && LineKey(node, size) == |node.keys|)
    {
      ok, tree := FillOffsets(node, size - 1);
      if ok {
        LinesRise(node, 1, size - 1);
        return;
      }
      size := size - 1;
    }
    ok := false;
    tree := [];
  }

  // ----- floats

  predicate IsPow2(j: nat) { j == E.RoundDownPow2(j) }

  lemma {:induction false} PowersHaveNoPred(j: nat)
    requires j >= 1
    ensures IsPow2(j) <==> E.Pred(j) == 0
  {
    if j >= 2 {
      PowersHaveNoPred(j / 2);
      E.Log2Bounds(j / 2);
    } else {
      assert E.Pred(1) == 0 && E.Ilog2(1) == 0;
    }
  }

  lemma {:induction false} PowersHaveNoSucc(j: nat)
    requires j >= 1
    ensures IsPow2(j + 1) <==> E.Succ(j) == 0
  {
    if j >= 2 {
      PowersHaveNoSucc(j / 2);
      E.Log2Bounds(j + 1);
      assert (j + 1) / 2 == if j % 2 == 1 then j / 2 + 1 else j / 2;
    } else {
      assert E.Succ(1) == 0 && E.Ilog2(2) == 1;
    }
  }

  /** Bits of the position, from its lowest, that a mantissa must reach: up to the highest differing one. */
  function Reach(f: Format, l: NodeKey, r: NodeKey): nat
    requires FormatGood(f) && KeyOk(f, l) && KeyOk(f, r)
  {
    var least := if MantissaBits < KeyBits(f) then MantissaBits else KeyBits(f);
    var d := HighDiff(PosNum(f, l), PosNum(f, r));
    if d < least then least else d
  }

  /** A key that can have a float: it and its neighbours are packed, and the mantissa's place fits a byte. */
  predicate CanFloat(f: Format, l: NodeKey, m: NodeKey, r: NodeKey)
    requires FormatGood(f) && KeyOk(f, l) && KeyOk(f, m) && KeyOk(f, r)
  {
    l.packed && m.packed && r.packed && KeyBits(f) > 0 && KeyStart(f) + Reach(f, l, r) - MantissaBits < Failed
  }

  method HighBit(f: Format, l: NodeKey, r: NodeKey) returns (high: nat)
    requires FormatGood(f) && KeyOk(f, l) && KeyOk(f, r) && l.packed && r.packed && KeyBits(f) > 0
    ensures high + 1 == Reach(f, l, r) <= KeyBits(f)
  {
    var nr := KeyBits(f);
    KeyBitsBound(f);
    high := GreatestDifferingBit(l.words, r.words, nr);
    DiffInKey(f, l, r, high);
    var least := (if MantissaBits < nr then MantissaBits else nr) - 1;
    if high < least {
      high := least;
    }
  }

  /** The exponent and mantissa for a key between two others. */
  method MakeFloat(f: Format, l: NodeKey, m: NodeKey, r: NodeKey, keyOffset: nat) returns (x: Float)
    requires FormatGood(f) && KeyOk(f, l) && KeyOk(f, m) && KeyOk(f, r)
    ensures x.keyOffset == keyOffset && FloatOk(f, x, l, m, r)
    ensures x.exponent == if CanFloat(f, l, m, r) then KeyStart(f) + Reach(f, l, r) - MantissaBits else Failed
  {
    if !l.packed || !r.packed || !m.packed || KeyBits(f) == 0 {
      return Float(Failed, 0, keyOffset);
    }
    var high := HighBit(f, l, r);
    KeyBitsBound(f);
    var e := high - (MantissaBits - 1);
    var shift := KeyStart(f) + e;
    assert shift >= 0 && shift + MantissaBits <= 64 * f.keyWords;
    if shift >= Failed {
      return Float(Failed, 0, keyOffset);
    }
    var mantissa := Mant(Num(m), shift);
    if e < 0 {
      mantissa := SetLow(mantissa, -e);
    }
    x := Float(shift, mantissa, keyOffset);
    FloatFromBit(f, x, l, m, r, high);
  }

  /** A float whose highest bit is at or above the highest differing one is usable. */
  lemma FloatFromBit(f: Format, x: Float, l: NodeKey, m: NodeKey, r: NodeKey, high: nat)
    requires FormatGood(f) && KeyOk(f, l) && KeyOk(f, m) && KeyOk(f, r) && l.packed && m.packed && r.packed
    requires x.exponent == KeyStart(f) + (high - (MantissaBits - 1)) && HighDiff(PosNum(f, l), PosNum(f, r)) <= high + 1
    requires x.mantissa == Stored(Num(m), KeyStart(f), high - (MantissaBits - 1))
    ensures FloatOk(f, x, l, m, r)
  {
  }

  /** The highest differing bit is one of the key's position bits. */
  lemma DiffInKey(f: Format, l: NodeKey, r: NodeKey, bit: nat)
    requires FormatGood(f) && KeyOk(f, l) && KeyOk(f, r) && l.packed && r.packed && 0 < KeyBits(f) <= 64 * f.keyWords
    requires var d := HighDiff(Prefix(l.words, KeyBits(f)), Prefix(r.words, KeyBits(f)));
             bit == if d == 0 then 0 else d - 1
    ensures var d := HighDiff(PosNum(f, l), PosNum(f, r)); d <= KeyBits(f) && bit == if d == 0 then 0 else d - 1
  {
    var nr := KeyBits(f);
    PrefixBound(l.words, nr);
    PrefixBound(r.words, nr);
    PrefixDiffBound(Prefix(l.words, nr), Prefix(r.words, nr), nr);
  }

  lemma PrefixBound(words: seq<Word>, s: nat)
    requires s <= 64 * |words|
    ensures Prefix(words, s) < Pow2(s)
  {
    PrefixZero(words);
    PrefixSplits(words, 0, s);
    ShlZero(s);
  }

  lemma PrefixDiffBound(x: nat, y: nat, k: nat)
    requires x < Pow2(k) && y < Pow2(k)
    ensures HighDiff(x, y) <= k
  {
    ShlZero(k);
    HighDiffOfLow(0, x, y, k);
  }

  /** Trees that differ in floats only have the same keys. */
  lemma SameOffsets(node: Node, tree: seq<Float>, tree': seq<Float>)
    requires NodeOk(node) && OffsetsOk(node, tree) && |tree'| == |tree|
    requires forall j :: 0 <= j < |tree| ==> tree'[j].keyOffset == tree[j].keyOffset
    ensures OffsetsOk(node, tree')
    ensures forall j :: 1 <= j <= Size(tree) ==> TreeKey(node, tree', j) == TreeKey(node, tree, j)
  {
    forall j | 1 <= j <= Size(tree)
      ensures OffsetOk(node, tree', j) && TreeKey(node, tree', j) == TreeKey(node, tree, j)
    {
      assert OffsetOk(node, tree, j);
      SameOffset(node, tree, tree', j);
    }
  }

  lemma SameOffset(node: Node, tree: seq<Float>, tree': seq<Float>, j: nat)
    requires |node.at| > 0 && 1 <= j <= Size(tree) == Size(tree') && tree'[j].keyOffset == tree[j].keyOffset
    ensures OffsetOk(node, tree', j) == OffsetOk(node, tree, j) && TreeKey(node, tree', j) == TreeKey(node, tree, j)
  {
  }

  lemma FloatFrame(node: Node, tree: seq<Float>, tree': seq<Float>, j: nat, minKey: NodeKey, maxKey: NodeKey)
    requires NodeOk(node) && OffsetsOk(node, tree) && OffsetsOk(node, tree') && |tree'| == |tree|
    requires 1 <= j <= Size(tree)
    requires forall i :: 1 <= i <= Size(tree) ==> TreeKey(node, tree', i) == TreeKey(node, tree, i)
    requires KeyOk(node.f, minKey) && KeyOk(node.f, maxKey)
    requires tree'[j] == tree[j] && NodeFloatOk(node, tree, j, minKey, maxKey)
    ensures NodeFloatOk(node, tree', j, minKey, maxKey)
  {
    BoundsOk(node, tree, j, minKey, maxKey);
    BoundsOk(node, tree', j, minKey, maxKey);
    TreeKeyIs(node, tree, j);
  }

  /** The float of tree node `j`, from its ancestors on either side or the node's bounds. */
  method NodeFloat(node: Node, tree: seq<Float>, j: nat, minKey: NodeKey, maxKey: NodeKey) returns (x: Float)
    requires NodeOk(node) && OffsetsOk(node, tree) && 1 <= j <= Size(tree) && KeyOk(node.f, minKey)
    requires KeyOk(node.f, maxKey)
    ensures x.keyOffset == tree[j].keyOffset
    ensures TreeKey(node, tree, j) < |node.keys|
    ensures KeyOk(node.f, LeftOf(node, tree, j, minKey)) && KeyOk(node.f, RightOf(node, tree, j, maxKey))
    ensures FloatOk(node.f, x, LeftOf(node, tree, j, minKey), KeyOf(node, tree, j), RightOf(node, tree, j, maxKey))
  {
    TreeKeyIs(node, tree, j);
    BoundsOk(node, tree, j, minKey, maxKey);
    var l := LeftKey(node, tree, j, minKey);
    var r := RightKey(node, tree, j, maxKey);
    x := MakeFloat(node.f, l, KeyOf(node, tree, j), r, tree[j].keyOffset);
  }

  method LeftKey(node: Node, tree: seq<Float>, j: nat, minKey: NodeKey) returns (l: NodeKey)
    requires NodeOk(node) && OffsetsOk(node, tree) && 1 <= j <= Size(tree)
    ensures l == LeftOf(node, tree, j, minKey)
  {
    PowersHaveNoPred(j);
    E.PredIsShift(j);
    l := minKey;
    if !IsPow2(j) {
      TreeKeyIs(node, tree, E.Pred(j));
      l := KeyOf(node, tree, Shr(j, E.TrailingZeros(j) + 1));
    }
  }

  method RightKey(node: Node, tree: seq<Float>, j: nat, maxKey: NodeKey) returns (r: NodeKey)
    requires NodeOk(node) && OffsetsOk(node, tree) && 1 <= j <= Size(tree)
    ensures r == RightOf(node, tree, j, maxKey)
  {
    PowersHaveNoSucc(j);
    E.SuccIsShift(j);
    r := maxKey;
    if !IsPow2(j + 1) {
      TreeKeyIs(node, tree, E.Succ(j));
      r := KeyOf(node, tree, Shr(j, E.TrailingOnes(j) + 1));
    }
  }

  /** Compute every node's float. */
  method Floats(node: Node, offsets: seq<Float>, minKey: NodeKey, maxKey: NodeKey) returns (tree: seq<Float>)
    requires NodeOk(node) && OffsetsOk(node, offsets) && BoundKey(node.f, minKey, node.min)
    requires BoundKey(node.f, maxKey, node.max)
    ensures |tree| == |offsets| && TreeOk(node, tree, minKey, maxKey)
  {
    tree := offsets;
    var j := E.First(Size(tree));
    ghost var line := 1;
    WalkStarts(tree);
    while j != 0
      invariant |tree| == |offsets| && OffsetsOk(node, tree) && Walking(tree, j, line)
      invariant forall i :: Visited(tree, i, line) ==> NodeFloatOk(node, tree, i, minKey, maxKey)
      decreases Size(tree) + 1 - line
    {
      var x := NodeFloat(node, tree, j, minKey, maxKey);
      WalkSteps(tree, j, line);
      FloatStored(node, tree, tree[j := x], j, x, line, minKey, maxKey);
      tree := tree[j := x];
      j := E.NextIdx(j, Size(tree));
      line := line + 1;
    }
    forall i | 1 <= i <= Size(tree)
      ensures NodeFloatOk(node, tree, i, minKey, maxKey)
    {
      WalkEnds(tree, line, i);
    }
  }

  lemma FloatStored(
      node: Node, tree: seq<Float>, tree': seq<Float>, j: nat, x: Float, line: int, minKey: NodeKey, maxKey: NodeKey)
    requires NodeOk(node) && OffsetsOk(node, tree) && Walking(tree, j, line) && j != 0
    requires KeyOk(node.f, minKey) && KeyOk(node.f, maxKey) && x.keyOffset == tree[j].keyOffset
    requires TreeKey(node, tree, j) < |node.keys|
    requires KeyOk(node.f, LeftOf(node, tree, j, minKey)) && KeyOk(node.f, RightOf(node, tree, j, maxKey))
    requires FloatOk(node.f, x, LeftOf(node, tree, j, minKey), KeyOf(node, tree, j), RightOf(node, tree, j, maxKey))
    requires forall i :: Visited(tree, i, line) ==> NodeFloatOk(node, tree, i, minKey, maxKey)
    requires tree' == tree[j := x]
    ensures OffsetsOk(node, tree') && Walking(tree', E.NextIdx(j, Size(tree')), line + 1)
    ensures forall i :: Visited(tree', i, line + 1) ==> NodeFloatOk(node, tree', i, minKey, maxKey)
  {
    SameOffsets(node, tree, tree');
    WalkSteps(tree, j, line);
    forall i | Visited(tree', i, line + 1)
      ensures NodeFloatOk(node, tree', i, minKey, maxKey)
    {
      assert Visited(tree, i, line + 1);
      if i == j {
        FloatSet(node, tree, tree', j, x, minKey, maxKey);
      } else {
        FloatFrame(node, tree, tree', i, minKey, maxKey);
      }
    }
  }

  lemma FloatSet(node: Node, tree: seq<Float>, tree': seq<Float>, j: nat, x: Float, minKey: NodeKey, maxKey: NodeKey)
    requires NodeOk(node) && OffsetsOk(node, tree) && OffsetsOk(node, tree') && |tree'| == |tree|
    requires 1 <= j <= Size(tree)
    requires forall i :: 1 <= i <= Size(tree) ==> TreeKey(node, tree', i) == TreeKey(node, tree, i)
    requires KeyOk(node.f, minKey) && KeyOk(node.f, maxKey) && tree'[j] == x && TreeKey(node, tree, j) < |node.keys|
    requires KeyOk(node.f, LeftOf(node, tree, j, minKey)) && KeyOk(node.f, RightOf(node, tree, j, maxKey))
    requires FloatOk(node.f, x, LeftOf(node, tree, j, minKey), KeyOf(node, tree, j), RightOf(node, tree, j, maxKey))
    ensures NodeFloatOk(node, tree', j, minKey, maxKey)
  {
    BoundsOk(node, tree', j, minKey, maxKey);
  }

  /**
   The whole search of a run: a tree is built if it has room for two lines, the descent starts
   the linear tail, and the result is where a scan from the first key stops.
   */
  method SearchRun(node: Node, capacity: nat, minKey: NodeKey, maxKey: NodeKey, search: Pos, s: NodeKey, exact: bool)
      returns (m: nat)
    requires NodeOk(node) && BoundKey(node.f, minKey, node.min) && BoundKey(node.f, maxKey, node.max)
    requires IsSearchKey(node.f, search, s) && (exact ==> KeyPos(node.f, s) == search)
    requires PosCmp(node.min, search) <= 0 && PosCmp(search, node.max) <= 0
    ensures IsScan(node, m, search)
  {
    var built, offsets := Offsets(node, capacity);
    var start := 0;
    if built {
      var tree := Floats(node, offsets, minKey, maxKey);
      var off := SearchRoTree(node, tree, search, s, minKey, maxKey);
      start := From(node.at, off, 0);
    }
    m := SearchLinear(node, search, exact, s.words, start);
  }
}
