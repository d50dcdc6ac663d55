/**
 The read-only search tree of a sorted run: one node per cacheline of keys, in Eytzinger order,
 each holding a mantissa of the first key of its line.
 */
module SearchTree {
  import opened Arith
  import opened PackedWords
  import opened PackedKeys
  import opened PosPacking
  import opened NodeKeys
  import opened Mantissa
  import E = Eytzinger

  const LineWords: nat := 32
  const Failed: nat := 255

  datatype Float = Float(exponent: nat, mantissa: nat, keyOffset: nat)

  /** Index 0 is unused; node j of the tree is tree[j]. */
  function Size(tree: seq<Float>): int { |tree| - 1 }

  /** The index of the first key that starts in cacheline `line` or later. */
  function LineKey(node: Node, line: nat): nat
    requires |node.at| > 0
  {
    From(node.at, LineWords * line, 0)
  }

  function Line(tree: seq<Float>, j: nat): (i: nat)
    requires 1 <= j <= Size(tree)
    ensures 1 <= i <= Size(tree)
  {
    E.FromToInorder(j, Size(tree));
    E.ToInorder(j, Size(tree))
  }

  /** Every tree node's offset leads to the first key of its line. */
  ghost predicate OffsetsOk(node: Node, tree: seq<Float>)
    requires NodeOk(node)
  {
    && |tree| >= 2
    && forall j :: 1 <= j <= Size(tree) ==> OffsetOk(node, tree, j)
  }

  predicate OffsetOk(node: Node, tree: seq<Float>, j: nat)
    requires |node.at| > 0 && 1 <= j <= Size(tree)
  {
    var i := LineKey(node, Line(tree, j));
    i < |node.at| - 1 && LineWords * Line(tree, j) + tree[j].keyOffset == node.at[i]
  }

  /** tree_to_bkey: the index of the key at the node's address. */
  function TreeKey(node: Node, tree: seq<Float>, j: nat): nat
    requires |node.at| > 0 && 1 <= j <= Size(tree)
  {
    From(node.at, LineWords * Line(tree, j) + tree[j].keyOffset, 0)
  }

  lemma TreeKeyIs(node: Node, tree: seq<Float>, j: nat)
    requires NodeOk(node) && OffsetsOk(node, tree) && 1 <= j <= Size(tree)
    ensures TreeKey(node, tree, j) == LineKey(node, Line(tree, j)) < |node.keys|
    ensures LineWords * Line(tree, j) + tree[j].keyOffset == node.at[TreeKey(node, tree, j)]
  {
    assert OffsetOk(node, tree, j);
    FromExact(node.at, |node.keys|, LineKey(node, Line(tree, j)));
  }

  function KeyOf(node: Node, tree: seq<Float>, j: nat): (k: NodeKey)
    requires |node.at| == |node.keys| + 1 && 1 <= j <= Size(tree) && TreeKey(node, tree, j) < |node.keys|
  {
    node.keys[TreeKey(node, tree, j)]
  }

  // ----- what a tree node's neighbours are

  /** The key to the left of node `j`'s range: an ancestor's, or the node's minimum. */
  ghost function LeftOf(node: Node, tree: seq<Float>, j: nat, minKey: NodeKey): NodeKey
    requires NodeOk(node) && OffsetsOk(node, tree) && 1 <= j <= 2 * Size(tree) + 1 && E.Pred(j) <= Size(tree)
  {
    if E.Pred(j) == 0 then minKey else TreeKeyIs(node, tree, E.Pred(j)); KeyOf(node, tree, E.Pred(j))
  }

  ghost function RightOf(node: Node, tree: seq<Float>, j: nat, maxKey: NodeKey): NodeKey
    requires NodeOk(node) && OffsetsOk(node, tree) && 1 <= j <= 2 * Size(tree) + 1 && E.Succ(j) <= Size(tree)
  {
    if E.Succ(j) == 0 then maxKey else TreeKeyIs(node, tree, E.Succ(j)); KeyOf(node, tree, E.Succ(j))
  }

  /** A key that stands for a bound of the node. */
  predicate BoundKey(f: Format, k: NodeKey, p: Pos) {
    KeyOk(f, k) && KeyPos(f, k) == p
  }

  /** What makes a float usable: its mantissa covers every bit in which keys of its range may differ. */
  ghost predicate FloatOk(f: Format, x: Float, l: NodeKey, m: NodeKey, r: NodeKey)
    requires KeyOk(f, l) && KeyOk(f, m) && KeyOk(f, r)
  {
    x.exponent < Failed ==>
      && l.packed && m.packed && r.packed
      && x.exponent >= KeyStart(f) - 15
      && x.exponent + MantissaBits >= KeyStart(f) + HighDiff(PosNum(f, l), PosNum(f, r))
      && x.mantissa == Stored(Num(m), KeyStart(f), x.exponent - KeyStart(f))
  }

  ghost predicate TreeOk(node: Node, tree: seq<Float>, minKey: NodeKey, maxKey: NodeKey)
    requires NodeOk(node)
  {
    && OffsetsOk(node, tree) && BoundKey(node.f, minKey, node.min) && BoundKey(node.f, maxKey, node.max)
    && forall j :: 1 <= j <= Size(tree) ==> NodeFloatOk(node, tree, j, minKey, maxKey)
  }

  ghost predicate NodeFloatOk(node: Node, tree: seq<Float>, j: nat, minKey: NodeKey, maxKey: NodeKey)
    requires NodeOk(node) && OffsetsOk(node, tree) && 1 <= j <= Size(tree)
    requires KeyOk(node.f, minKey) && KeyOk(node.f, maxKey)
  {
    TreeKeyIs(node, tree, j);
    BoundsOk(node, tree, j, minKey, maxKey);
    FloatOk(node.f, tree[j], LeftOf(node, tree, j, minKey), KeyOf(node, tree, j), RightOf(node, tree, j, maxKey))
  }

  lemma BoundsOk(node: Node, tree: seq<Float>, j: nat, minKey: NodeKey, maxKey: NodeKey)
    requires NodeOk(node) && OffsetsOk(node, tree) && 1 <= j <= 2 * Size(tree) + 1 && E.Pred(j) <= Size(tree)
    requires E.Succ(j) <= Size(tree)
    requires KeyOk(node.f, minKey) && KeyOk(node.f, maxKey)
    ensures KeyOk(node.f, LeftOf(node, tree, j, minKey)) && KeyOk(node.f, RightOf(node, tree, j, maxKey))
  {
    if E.Pred(j) != 0 {
      TreeKeyIs(node, tree, E.Pred(j));
    }
    if E.Succ(j) != 0 {
      TreeKeyIs(node, tree, E.Succ(j));
    }
  }

  // ----- the order of tree keys

  lemma KeysOrdered(node: Node, i: nat, j: nat)
    requires NodeOk(node) && i <= j < |node.keys|
    ensures PosCmp(KeyPos(node.f, node.keys[i]), KeyPos(node.f, node.keys[j])) <= 0
  {
    if i < j {
      assert InOrder(node.f, node.keys[i], node.keys[j]);
    }
  }

  /** A node's key lies between those of its neighbours. */
  lemma KeyBetween(node: Node, tree: seq<Float>, j: nat, minKey: NodeKey, maxKey: NodeKey)
    requires NodeOk(node) && TreeOk(node, tree, minKey, maxKey) && 1 <= j <= Size(tree)
    ensures TreeKey(node, tree, j) < |node.keys|
    ensures KeyOk(node.f, LeftOf(node, tree, j, minKey)) && KeyOk(node.f, RightOf(node, tree, j, maxKey))
    ensures PosCmp(KeyPos(node.f, LeftOf(node, tree, j, minKey)), KeyPos(node.f, KeyOf(node, tree, j))) <= 0
    ensures PosCmp(KeyPos(node.f, KeyOf(node, tree, j)), KeyPos(node.f, RightOf(node, tree, j, maxKey))) <= 0
  {
    TreeKeyIs(node, tree, j);
    BoundsOk(node, tree, j, minKey, maxKey);
    assert Within(node, KeyOf(node, tree, j));
    E.AncestorInorder(j, Size(tree));
    if E.Pred(j) != 0 {
      TreeKeysOrdered(node, tree, E.Pred(j), j);
    }
    if E.Succ(j) != 0 {
      TreeKeysOrdered(node, tree, j, E.Succ(j));
    }
  }

  lemma TreeKeysOrdered(node: Node, tree: seq<Float>, a: nat, b: nat)
    requires NodeOk(node) && OffsetsOk(node, tree) && 1 <= a <= Size(tree) && 1 <= b <= Size(tree)
    requires Line(tree, a) <= Line(tree, b)
    ensures TreeKey(node, tree, a) <= TreeKey(node, tree, b) < |node.keys|
    ensures PosCmp(KeyPos(node.f, KeyOf(node, tree, a)), KeyPos(node.f, KeyOf(node, tree, b))) <= 0
  {
    TreeKeyIs(node, tree, a);
    TreeKeyIs(node, tree, b);
    FromMonotone(node.at, LineWords * Line(tree, a), LineWords * Line(tree, b));
    KeysOrdered(node, TreeKey(node, tree, a), TreeKey(node, tree, b));
  }

  // ----- the search

  /** The packed search lies in the range of the subtree reached, as far as packed keys can tell. */
  ghost predicate SearchInv(node: Node, tree: seq<Float>, search: Pos, s: NodeKey, n: nat)
    requires NodeOk(node) && OffsetsOk(node, tree) && KeyOk(node.f, s)
  {
    && 1 <= n <= 2 * Size(tree) + 1 && E.Pred(n) <= Size(tree) && E.Succ(n) <= Size(tree)
    && (E.Pred(n) != 0 ==> LeftBelow(node, tree, search, s, E.Pred(n)))
    && (E.Succ(n) != 0 ==> RightAbove(node, tree, s, E.Succ(n)))
  }

  ghost predicate LeftBelow(node: Node, tree: seq<Float>, search: Pos, s: NodeKey, j: nat)
    requires NodeOk(node) && OffsetsOk(node, tree) && KeyOk(node.f, s) && 1 <= j <= Size(tree)
  {
    TreeKeyIs(node, tree, j);
    var k := KeyOf(node, tree, j);
    PosCmp(KeyPos(node.f, k), search) < 0 && (k.packed ==> PosCmp(KeyPos(node.f, k), KeyPos(node.f, s)) < 0)
  }

  ghost predicate RightAbove(node: Node, tree: seq<Float>, s: NodeKey, j: nat)
    requires NodeOk(node) && OffsetsOk(node, tree) && KeyOk(node.f, s) && 1 <= j <= Size(tree)
  {
    TreeKeyIs(node, tree, j);
    var k := KeyOf(node, tree, j);
    PosCmp(KeyPos(node.f, s), KeyPos(node.f, k)) <= 0
  }

  /** The packed search as a key. */
  ghost predicate IsSearchKey(f: Format, search: Pos, s: NodeKey) {
    KeyOk(f, s) && s.packed && IsPackedFloor(f, search, s.words)
  }

  /** The packed search lies between the bounds of the node it has reached. */
  lemma SearchBetween(node: Node, tree: seq<Float>, search: Pos, s: NodeKey, n: nat, minKey: NodeKey, maxKey: NodeKey)
    requires NodeOk(node) && TreeOk(node, tree, minKey, maxKey) && IsSearchKey(node.f, search, s)
    requires PosCmp(node.min, search) <= 0 && PosCmp(search, node.max) <= 0
    requires SearchInv(node, tree, search, s, n) && 1 <= n <= Size(tree)
    ensures KeyOk(node.f, LeftOf(node, tree, n, minKey)) && KeyOk(node.f, RightOf(node, tree, n, maxKey))
    ensures LeftOf(node, tree, n, minKey).packed ==>
      PosCmp(KeyPos(node.f, LeftOf(node, tree, n, minKey)), KeyPos(node.f, s)) <= 0
    ensures RightOf(node, tree, n, maxKey).packed ==>
      PosCmp(KeyPos(node.f, s), KeyPos(node.f, RightOf(node, tree, n, maxKey))) <= 0
  {
    BoundsOk(node, tree, n, minKey, maxKey);
    if E.Pred(n) == 0 && minKey.packed {
      PackedRepresentable(node.f, minKey);
      assert PosLe(node.min, search);
    }
    if E.Succ(n) == 0 {
      PosTransitive(KeyPos(node.f, s), search, node.max);
    }
  }

  /** Comparing mantissas decides the comparison of the node's key with the packed search. */
  lemma MantissaDecides(node: Node, tree: seq<Float>, search: Pos, s: NodeKey, n: nat, minKey: NodeKey, maxKey: NodeKey)
    requires NodeOk(node) && TreeOk(node, tree, minKey, maxKey) && IsSearchKey(node.f, search, s)
    requires PosCmp(node.min, search) <= 0 && PosCmp(search, node.max) <= 0
    requires SearchInv(node, tree, search, s, n) && 1 <= n <= Size(tree) && tree[n].exponent < Failed
    ensures TreeKey(node, tree, n) < |node.keys| && KeyOf(node, tree, n).packed
    ensures var l, r := tree[n].mantissa, Mant(Num(s), tree[n].exponent);
            && (l < r ==> PosCmp(KeyPos(node.f, KeyOf(node, tree, n)), KeyPos(node.f, s)) < 0)
            && (l > r || (l == r && tree[n].exponent <= KeyStart(node.f)) ==>
                  PosCmp(KeyPos(node.f, KeyOf(node, tree, n)), KeyPos(node.f, s)) >= 0)
  {
    KeyBetween(node, tree, n, minKey, maxKey);
    SearchBetween(node, tree, search, s, n, minKey, maxKey);
    assert NodeFloatOk(node, tree, n, minKey, maxKey);
    var l, r := LeftOf(node, tree, n, minKey), RightOf(node, tree, n, maxKey);
    FloatDecides(node.f, tree[n], l, KeyOf(node, tree, n), r, s);
  }

  lemma FloatDecides(f: Format, x: Float, l: NodeKey, m: NodeKey, r: NodeKey, s: NodeKey)
    requires FormatGood(f) && KeyOk(f, l) && KeyOk(f, m) && KeyOk(f, r) && KeyOk(f, s)
    requires FloatOk(f, x, l, m, r) && x.exponent < Failed && s.packed
    requires PosCmp(KeyPos(f, l), KeyPos(f, m)) <= 0 && PosCmp(KeyPos(f, m), KeyPos(f, r)) <= 0
    requires PosCmp(KeyPos(f, l), KeyPos(f, s)) <= 0 && PosCmp(KeyPos(f, s), KeyPos(f, r)) <= 0
    ensures var a, b := x.mantissa, Mant(Num(s), x.exponent);
            && (a < b ==> PosCmp(KeyPos(f, m), KeyPos(f, s)) < 0)
            && (a > b || (a == b && x.exponent <= KeyStart(f)) ==> PosCmp(KeyPos(f, m), KeyPos(f, s)) >= 0)
  {
    NumberRange(f, l, m, r);
    NumberRange(f, l, s, r);
    FloatDecidesNum(f, x, l, m, r, s);
    PackedOrder(f, m, s);
  }

  lemma FloatDecidesNum(f: Format, x: Float, l: NodeKey, m: NodeKey, r: NodeKey, s: NodeKey)
    requires FormatGood(f) && KeyOk(f, l) && KeyOk(f, m) && KeyOk(f, r) && KeyOk(f, s)
    requires FloatOk(f, x, l, m, r) && x.exponent < Failed
    requires PosNum(f, l) <= PosNum(f, m) <= PosNum(f, r) && PosNum(f, l) <= PosNum(f, s) <= PosNum(f, r)
    ensures var a, b := x.mantissa, Mant(Num(s), x.exponent);
            && (a < b ==> PosNum(f, m) < PosNum(f, s))
            && (a > b || (a == b && x.exponent <= KeyStart(f)) ==> PosNum(f, m) >= PosNum(f, s))
  {
    NumbersDecide(Num(m), Num(s), KeyStart(f), x.exponent - KeyStart(f), PosNum(f, l), PosNum(f, r));
  }

  lemma NumberRange(f: Format, l: NodeKey, m: NodeKey, r: NodeKey)
    requires FormatGood(f) && KeyOk(f, l) && KeyOk(f, m) && KeyOk(f, r) && l.packed && m.packed && r.packed
    requires PosCmp(KeyPos(f, l), KeyPos(f, m)) <= 0 && PosCmp(KeyPos(f, m), KeyPos(f, r)) <= 0
    ensures PosNum(f, l) <= PosNum(f, m) <= PosNum(f, r)
  {
    PackedOrder(f, l, m);
    PackedOrder(f, m, r);
  }

  lemma NumbersDecide(vm: nat, vs: nat, start: nat, e: int, pl: nat, pr: nat)
    requires start + e >= 0 && e >= -15 && e + MantissaBits >= HighDiff(pl, pr)
    requires pl <= Shr(vm, start) <= pr && pl <= Shr(vs, start) <= pr
    ensures var l, r := Stored(vm, start, e), Mant(vs, start + e);
            && (l < r ==> Shr(vm, start) < Shr(vs, start))
            && ((l > r || (l == r && e <= 0)) ==> Shr(vm, start) >= Shr(vs, start))
  {
    SameHighBits(vm, vs, start, e + MantissaBits, pl, pr);
    CompareMantissas(vm, vs, start, e);
  }

  lemma SameHighBits(vm: nat, vs: nat, start: nat, k: nat, pl: nat, pr: nat)
    requires k >= HighDiff(pl, pr) && pl <= Shr(vm, start) <= pr && pl <= Shr(vs, start) <= pr
    ensures Shr(vm, start + k) == Shr(vs, start + k)
  {
    Between(pl, Shr(vm, start), pr, k);
    Between(pl, Shr(vs, start), pr, k);
    ShrShr(vm, start, k);
    ShrShr(vs, start, k);
  }

  lemma StepRight(node: Node, tree: seq<Float>, search: Pos, s: NodeKey, n: nat)
    requires NodeOk(node) && OffsetsOk(node, tree) && KeyOk(node.f, s) && SearchInv(node, tree, search, s, n)
    requires n <= Size(tree)
    requires LeftBelow(node, tree, search, s, n)
    ensures SearchInv(node, tree, search, s, 2 * n + 1)
  {
    E.AncestorOfChild(n, 2 * n + 1);
  }

  lemma StepLeft(node: Node, tree: seq<Float>, search: Pos, s: NodeKey, n: nat)
    requires NodeOk(node) && OffsetsOk(node, tree) && KeyOk(node.f, s) && SearchInv(node, tree, search, s, n)
    requires n <= Size(tree)
    requires RightAbove(node, tree, s, n)
    ensures SearchInv(node, tree, search, s, 2 * n)
  {
    E.AncestorOfChild(n, 2 * n);
  }

  /** A packed key below the packed search is below the search. */
  lemma BelowFloor(f: Format, k: NodeKey, search: Pos, s: NodeKey)
    requires KeyOk(f, k) && IsSearchKey(f, search, s) && PosCmp(KeyPos(f, k), KeyPos(f, s)) < 0
    ensures PosCmp(KeyPos(f, k), search) < 0
  {
    PosTransitive(KeyPos(f, k), KeyPos(f, s), search);
  }

  /** Descend one level by the mantissa alone, if it decides. */
  method StepByMantissa(
      node: Node, tree: seq<Float>, search: Pos, s: NodeKey, n: nat, ghost minKey: NodeKey, ghost maxKey: NodeKey)
      returns (decided: bool, n': nat)
    requires NodeOk(node) && TreeOk(node, tree, minKey, maxKey) && IsSearchKey(node.f, search, s)
    requires PosCmp(node.min, search) <= 0 && PosCmp(search, node.max) <= 0
    requires SearchInv(node, tree, search, s, n) && 1 <= n <= Size(tree)
    ensures decided ==> n < n' && SearchInv(node, tree, search, s, n')
  {
    n' := MantissaNext(tree[n], Num(s), KeyStart(node.f), n);
    decided := n' != 0;
    if decided {
      MantissaSteps(node, tree, search, s, n, minKey, maxKey);
    }
  }

  /** Where a node's float sends the search: a child, or 0 if it does not decide. */
  function MantissaNext(x: Float, search: nat, start: nat, n: nat): nat {
    if x.exponent >= Failed then 0
    else
      var l, r := x.mantissa, Mant(search, x.exponent);
      if l != r || !(x.exponent > start) then (if l < r then 2 * n + 1 else 2 * n) else 0
  }

  lemma MantissaSteps(node: Node, tree: seq<Float>, search: Pos, s: NodeKey, n: nat, minKey: NodeKey, maxKey: NodeKey)
    requires NodeOk(node) && TreeOk(node, tree, minKey, maxKey) && IsSearchKey(node.f, search, s)
    requires PosCmp(node.min, search) <= 0 && PosCmp(search, node.max) <= 0
    requires SearchInv(node, tree, search, s, n) && 1 <= n <= Size(tree) && tree[n].exponent < Failed
    ensures var n' := MantissaNext(tree[n], Num(s), KeyStart(node.f), n);
            n' != 0 ==> n < n' && SearchInv(node, tree, search, s, n')
  {
    MantissaDecides(node, tree, search, s, n, minKey, maxKey);
    var k := KeyOf(node, tree, n);
    PosAntisymmetric(KeyPos(node.f, s), KeyPos(node.f, k));
    if PosCmp(KeyPos(node.f, k), KeyPos(node.f, s)) < 0 {
      BelowFloor(node.f, k, search, s);
      StepRight(node, tree, search, s, n);
    } else {
      StepLeft(node, tree, search, s, n);
    }
  }

  /** Descend one level by comparing whole keys, or stop at an equal one. */
  method StepByKey(node: Node, tree: seq<Float>, search: Pos, s: NodeKey, n: nat) returns (found: bool, n': nat)
    requires NodeOk(node) && OffsetsOk(node, tree) && IsSearchKey(node.f, search, s)
    requires SearchInv(node, tree, search, s, n) && 1 <= n <= Size(tree)
    ensures found ==> TreeKey(node, tree, n) < |node.keys| && AllBefore(node, TreeKey(node, tree, n), search)
    ensures found ==> RightAbove(node, tree, s, n)
    ensures !found ==> n < n' && SearchInv(node, tree, search, s, n')
  {
    TreeKeyIs(node, tree, n);
    var c := CmpSearch(node.f, KeyOf(node, tree, n), s.words, search);
    KeySteps(node, tree, search, s, n, c);
    n' := if c < 0 then 2 * n + 1 else 2 * n;
    found := c == 0;
  }

  lemma KeySteps(node: Node, tree: seq<Float>, search: Pos, s: NodeKey, n: nat, c: int)
    requires NodeOk(node) && OffsetsOk(node, tree) && IsSearchKey(node.f, search, s)
    requires SearchInv(node, tree, search, s, n) && 1 <= n <= Size(tree) && TreeKey(node, tree, n) < |node.keys|
    requires var k := KeyOf(node, tree, n);
             c == if k.packed then PosCmp(KeyPos(node.f, k), KeyPos(node.f, s)) else PosCmp(KeyPos(node.f, k), search)
    ensures c == 0 ==> AllBefore(node, TreeKey(node, tree, n), search) && RightAbove(node, tree, s, n)
    ensures c < 0 ==> SearchInv(node, tree, search, s, 2 * n + 1)
    ensures c > 0 ==> SearchInv(node, tree, search, s, 2 * n)
  {
    var k := KeyOf(node, tree, n);
    PosAntisymmetric(KeyPos(node.f, k), KeyPos(node.f, s));
    if c == 0 {
      if k.packed {
        PosTransitive(KeyPos(node.f, k), KeyPos(node.f, s), search);
      }
      AtMostMeansBefore(node, TreeKey(node, tree, n), search);
    } else if c < 0 {
      if k.packed {
        BelowFloor(node.f, k, search, s);
      }
      StepRight(node, tree, search, s, n);
    } else {
      if !k.packed {
        PosAntisymmetric(KeyPos(node.f, k), search);
        PosTransitive(KeyPos(node.f, s), search, KeyPos(node.f, k));
      }
      StepLeft(node, tree, search, s, n);
    }
  }

  /** Every tree key behind a word offset is at or above the packed search: the tree leads no further. */
  ghost predicate RestAbove(node: Node, tree: seq<Float>, s: NodeKey, off: nat)
    requires NodeOk(node) && OffsetsOk(node, tree) && KeyOk(node.f, s)
  {
    forall j | 1 <= j <= Size(tree) && node.at[TreeKey(node, tree, j)] > off :: RightAbove(node, tree, s, j)
  }

  lemma AboveOnwards(node: Node, tree: seq<Float>, s: NodeKey, a: nat, b: nat)
    requires NodeOk(node) && OffsetsOk(node, tree) && KeyOk(node.f, s)
    requires 1 <= a <= Size(tree) && 1 <= b <= Size(tree) && Line(tree, a) <= Line(tree, b)
    requires RightAbove(node, tree, s, a)
    ensures RightAbove(node, tree, s, b)
  {
    TreeKeysOrdered(node, tree, a, b);
    PosTransitive(KeyPos(node.f, s), KeyPos(node.f, KeyOf(node, tree, a)), KeyPos(node.f, KeyOf(node, tree, b)));
  }

  /** A tree key behind another's offset is on a later line. */
  lemma LaterLine(node: Node, tree: seq<Float>, a: nat, b: nat)
    requires NodeOk(node) && OffsetsOk(node, tree) && 1 <= a <= Size(tree) && 1 <= b <= Size(tree)
    ensures node.at[TreeKey(node, tree, b)] > node.at[TreeKey(node, tree, a)] ==> Line(tree, b) > Line(tree, a)
  {
    if Line(tree, b) <= Line(tree, a) {
      TreeKeysOrdered(node, tree, b, a);
      if TreeKey(node, tree, b) < TreeKey(node, tree, a) {
        LaidOrder(node.at, |node.keys|, TreeKey(node, tree, b), TreeKey(node, tree, a));
      }
    }
  }

  lemma FoundRest(node: Node, tree: seq<Float>, s: NodeKey, n: nat)
    requires NodeOk(node) && OffsetsOk(node, tree) && KeyOk(node.f, s) && 1 <= n <= Size(tree)
    requires RightAbove(node, tree, s, n)
    ensures RestAbove(node, tree, s, node.at[TreeKey(node, tree, n)])
  {
    forall j | 1 <= j <= Size(tree) && node.at[TreeKey(node, tree, j)] > node.at[TreeKey(node, tree, n)]
      ensures RightAbove(node, tree, s, j)
    {
      LaterLine(node, tree, n, j);
      AboveOnwards(node, tree, s, n, j);
    }
  }

  /** Behind the gap of a finished descent everything is at or above the search. */
  lemma GapRest(node: Node, tree: seq<Float>, search: Pos, s: NodeKey, n: nat, off: nat)
    requires NodeOk(node) && OffsetsOk(node, tree) && KeyOk(node.f, s) && SearchInv(node, tree, search, s, n)
    requires n > Size(tree) && 1 <= n / 2 <= Size(tree)
    requires E.Pred(n) != 0 ==> off == node.at[TreeKey(node, tree, E.Pred(n))]
    ensures RestAbove(node, tree, s, off)
  {
    E.GapInorder(n, Size(tree));
    forall j | 1 <= j <= Size(tree) && node.at[TreeKey(node, tree, j)] > off
      ensures RightAbove(node, tree, s, j)
    {
      if E.Pred(n) != 0 {
        LaterLine(node, tree, E.Pred(n), j);
      }
      assert Line(tree, j) <= Size(tree);
      AboveOnwards(node, tree, s, E.Succ(n), j);
    }
  }

  /** The key at a word offset has only smaller keys before it. */
  ghost predicate StartsSearch(node: Node, off: nat, search: Pos)
    requires NodeOk(node)
  {
    var i := From(node.at, off, 0);
    node.at[i] == off && AllBefore(node, i, search)
  }

  lemma StartsAt(node: Node, i: nat, search: Pos)
    requires NodeOk(node) && i <= |node.keys| && AllBefore(node, i, search)
    ensures StartsSearch(node, node.at[i], search)
  {
    FromExact(node.at, |node.keys|, i);
  }

  /**
   Descend the tree; the key returned, by its word offset, has only smaller keys before it, and no
   tree key behind it is below the packed search.
   */
  method SearchRoTree(
      node: Node, tree: seq<Float>, search: Pos, s: NodeKey, ghost minKey: NodeKey, ghost maxKey: NodeKey)
      returns (off: nat)
    requires NodeOk(node) && TreeOk(node, tree, minKey, maxKey) && IsSearchKey(node.f, search, s)
    requires PosCmp(node.min, search) <= 0 && PosCmp(search, node.max) <= 0
    ensures StartsSearch(node, off, search) && RestAbove(node, tree, s, off)
  {
    var n := 1;
    assert E.Pred(1) == 0 && E.Succ(1) == 0;
    while n <= Size(tree)
      invariant SearchInv(node, tree, search, s, n) && n / 2 <= Size(tree)
      decreases Size(tree) + 1 - n
    {
      var decided, n' := StepByMantissa(node, tree, search, s, n, minKey, maxKey);
      if !decided {
        var found;
        found, n' := StepByKey(node, tree, search, s, n);
        if found {
          TreeKeyIs(node, tree, n);
          StartsAt(node, TreeKey(node, tree, n), search);
          FoundRest(node, tree, s, n);
          return LineWords * Line(tree, n) + tree[n].keyOffset;
        }
      }
      n := n';
    }
    off := Landing(node, tree, search, s, n);
  }

  /** The key before the gap the descent ended in. */
  method Landing(node: Node, tree: seq<Float>, search: Pos, s: NodeKey, n: nat) returns (off: nat)
    requires NodeOk(node) && OffsetsOk(node, tree) && IsSearchKey(node.f, search, s)
    requires SearchInv(node, tree, search, s, n) && n > Size(tree) && 1 <= n / 2 <= Size(tree)
    ensures StartsSearch(node, off, search) && RestAbove(node, tree, s, off)
  {
    var m := n / 2;
    GapNode(tree, n);
    if n % 2 == 0 && Line(tree, m) == 1 {
      StartsAt(node, 0, search);
      GapRest(node, tree, search, s, n, node.at[0]);
      return node.at[0];
    }
    var line := if n % 2 == 0 then Line(tree, m) - 1 else Line(tree, m);
    var x := tree[if n % 2 == 0 then E.PrevIdx(m, Size(tree)) else m];
    GapStarts(node, tree, search, s, E.Pred(n));
    off := LineWords * line + x.keyOffset;
    TreeKeyIs(node, tree, E.Pred(n));
    GapRest(node, tree, search, s, n, off);
  }

  /** The tree node before the gap below node `n / 2`, and its line. */
  lemma GapNode(tree: seq<Float>, n: nat)
    requires |tree| >= 2 && Size(tree) < n && 1 <= n / 2 <= Size(tree)
    ensures n % 2 == 1 ==> E.Pred(n) == n / 2
    ensures n % 2 == 0 && Line(tree, n / 2) == 1 ==> E.Pred(n) == 0
    ensures n % 2 == 0 && Line(tree, n / 2) > 1 ==>
      && E.Pred(n) == E.PrevIdx(n / 2, Size(tree)) && 1 <= E.Pred(n) <= Size(tree)
      && Line(tree, E.Pred(n)) == Line(tree, n / 2) - 1
  {
    E.AncestorOfChild(n / 2, n);
    if n % 2 == 0 {
      E.PrevIdxPrecedes(n / 2, Size(tree));
      E.PredIsShift(n / 2);
    }
  }

  lemma GapStarts(node: Node, tree: seq<Float>, search: Pos, s: NodeKey, j: nat)
    requires NodeOk(node) && OffsetsOk(node, tree) && KeyOk(node.f, s)
    requires 1 <= j <= Size(tree) && LeftBelow(node, tree, search, s, j)
    ensures StartsSearch(node, LineWords * Line(tree, j) + tree[j].keyOffset, search)
  {
    var i := GapKey(node, tree, search, s, j);
    StartsAt(node, i, search);
  }

  lemma GapKey(node: Node, tree: seq<Float>, search: Pos, s: NodeKey, j: nat) returns (i: nat)
    requires NodeOk(node) && OffsetsOk(node, tree) && KeyOk(node.f, s) && 1 <= j <= Size(tree)
    requires LeftBelow(node, tree, search, s, j)
    ensures i < |node.keys| && LineWords * Line(tree, j) + tree[j].keyOffset == node.at[i] && AllBefore(node, i, search)
  {
    TreeKeyIs(node, tree, j);
    i := TreeKey(node, tree, j);
    BelowMeansBefore(node, i, search);
  }
}
