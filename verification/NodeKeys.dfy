/**
 A sorted run of keys in a btree node: some packed in the node's format, some not, each at a
 word offset.  Offsets count from the 64-byte boundary at or below the first key.
 */
module NodeKeys {
  import opened Arith
  import opened PackedWords
  import opened PackedKeys
  import opened KeyPacking
  import opened PosPacking

  /** A packed key has its words, an unpacked one its position; type 0 means deleted. */
  datatype NodeKey = NodeKey(packed: bool, words: seq<Word>, full: Pos, deleted: bool)

  datatype Node = Node(f: Format, keys: seq<NodeKey>, at: seq<nat>, min: Pos, max: Pos)

  predicate KeyOk(f: Format, k: NodeKey) {
    FormatOk(f) && (k.packed ==> |k.words| == f.keyWords)
  }

  function KeyPos(f: Format, k: NodeKey): Pos
    requires KeyOk(f, k)
  {
    if k.packed then UnpackedPos(f, k.words) else k.full
  }

  /** bkey_iter_pos_cmp() < 0: a deleted key sorts before a search for its own position. */
  predicate Before(f: Format, k: NodeKey, search: Pos)
    requires KeyOk(f, k)
  {
    Precedes(KeyPos(f, k), k.deleted, search)
  }

  /** Only the last of several keys at one position may be live. */
  predicate InOrder(f: Format, k: NodeKey, l: NodeKey)
    requires KeyOk(f, k) && KeyOk(f, l)
  {
    Precedes(KeyPos(f, k), k.deleted, KeyPos(f, l))
  }

  predicate FormatGood(f: Format) {
    FormatOk(f) && NoOverflow(f, 0) && NoOverflow(f, 1) && NoOverflow(f, 2)
  }

  ghost predicate NodeOk(node: Node) {
    && FormatGood(node.f)
    && (forall i :: 0 <= i < |node.keys| ==> KeyOk(node.f, node.keys[i]))
    && (forall i, j :: 0 <= i < j < |node.keys| ==> InOrder(node.f, node.keys[i], node.keys[j]))
    && (forall i :: 0 <= i < |node.keys| ==> Within(node, node.keys[i]))
    && Laid(node.at, |node.keys|)
  }

  predicate Within(node: Node, k: NodeKey)
    requires KeyOk(node.f, k)
  {
    PosCmp(node.min, KeyPos(node.f, k)) <= 0 && PosCmp(KeyPos(node.f, k), node.max) <= 0
  }

  /** Key `i` occupies words at[i] .. at[i + 1], at most 255 of them. */
  predicate Laid(at: seq<nat>, n: nat) {
    |at| == n + 1 && at[0] < 8 && forall i :: 0 <= i < n ==> at[i] < at[i + 1] <= at[i] + 255
  }

  lemma {:induction false} LaidOrder(at: seq<nat>, n: nat, i: nat, j: nat)
    requires Laid(at, n) && i < j <= n
    ensures at[i] < at[j]
  {
    if i + 1 < j {
      LaidOrder(at, n, i, j - 1);
    }
  }

  /** The first key at or after a word offset. */
  function From(at: seq<nat>, off: nat, i: nat): (r: nat)
    requires i < |at|
    ensures i <= r < |at| && (r < |at| - 1 ==> at[r] >= off)
    ensures forall k :: i <= k < r ==> at[k] < off
    decreases |at| - i
  {
    if i == |at| - 1 || at[i] >= off then i else From(at, off, i + 1)
  }

  lemma FromExact(at: seq<nat>, n: nat, i: nat)
    requires Laid(at, n) && i <= n
    ensures From(at, at[i], 0) == i
  {
    var r := From(at, at[i], 0);
    if r < i {
      LaidOrder(at, n, r, i);
    }
  }

  lemma FromMonotone(at: seq<nat>, a: nat, b: nat)
    requires |at| > 0 && a <= b
    ensures From(at, a, 0) <= From(at, b, 0)
  {
  }

  // ----- packed keys compare as numbers

  /** The key's words as one number; its position is the bits from KeyStart on. */
  function Num(k: NodeKey): nat { Hi(k.words, 0) }

  function KeyStart(f: Format): (s: nat)
    requires FormatOk(f)
    ensures s >= 24
  {
    KeyBitsBound(f);
    64 * f.keyWords - KeyBits(f)
  }

  lemma KeyBitsBound(f: Format)
    requires FormatOk(f)
    ensures KeyBits(f) == Start(f, 3) && KeyBits(f) + 24 <= 64 * f.keyWords
  {
    StartMonotone(f, 3, Fields);
    assert Start(f, 3) == Start(f, 2) + f.bits[2] && Start(f, 2) == Start(f, 1) + f.bits[1] && Start(f, 1) == f.bits[0];
  }

  function PosNum(f: Format, k: NodeKey): nat
    requires KeyOk(f, k)
  {
    Shr(Num(k), KeyStart(f))
  }

  lemma PackedOrder(f: Format, k: NodeKey, l: NodeKey)
    requires FormatGood(f) && KeyOk(f, k) && KeyOk(f, l) && k.packed && l.packed
    ensures PosCmp(KeyPos(f, k), KeyPos(f, l)) == Sign(PosNum(f, k) - PosNum(f, l))
  {
    PosNumIsPrefix(f, k);
    PosNumIsPrefix(f, l);
    BitOrderIsPosOrder(f, k.words, l.words);
  }

  lemma PosNumIsPrefix(f: Format, k: NodeKey)
    requires KeyOk(f, k) && k.packed
    ensures KeyBits(f) <= 64 * f.keyWords && PosNum(f, k) == Prefix(k.words, KeyBits(f))
  {
    KeyBitsBound(f);
  }

  lemma PackedRepresentable(f: Format, k: NodeKey)
    requires FormatGood(f) && KeyOk(f, k) && k.packed
    ensures Representable(f, KeyPos(f, k))
  {
    PlainFields(f, k.words);
  }

  // ----- order of positions

  lemma PosTransitive(a: Pos, b: Pos, c: Pos)
    requires PosCmp(a, b) <= 0 && PosCmp(b, c) <= 0
    ensures PosCmp(a, c) <= 0 && (PosCmp(a, c) == 0 ==> PosCmp(a, b) == 0 && PosCmp(b, c) == 0)
  {
  }

  lemma PosAntisymmetric(a: Pos, b: Pos)
    ensures PosCmp(a, b) == -PosCmp(b, a) && (PosCmp(a, b) == 0 <==> a == b)
  {
  }

  // ----- the plain scan

  ghost predicate AllBefore(node: Node, n: nat, search: Pos)
    requires NodeOk(node) && n <= |node.keys|
  {
    forall k :: 0 <= k < n ==> Before(node.f, node.keys[k], search)
  }

  /** Where a scan from the first key stops. */
  ghost predicate IsScan(node: Node, r: nat, search: Pos)
    requires NodeOk(node)
  {
    r <= |node.keys| && AllBefore(node, r, search) && (r < |node.keys| ==> !Before(node.f, node.keys[r], search))
  }

  lemma ScanUnique(node: Node, r: nat, r': nat, search: Pos)
    requires NodeOk(node) && IsScan(node, r, search) && IsScan(node, r', search)
    ensures r == r'
  {
  }

  /** Everything up to a key below the search position is before it. */
  lemma BelowMeansBefore(node: Node, i: nat, search: Pos)
    requires NodeOk(node) && i < |node.keys| && PosCmp(KeyPos(node.f, node.keys[i]), search) < 0
    ensures AllBefore(node, i + 1, search)
  {
    forall k | 0 <= k < i + 1
      ensures Before(node.f, node.keys[k], search)
    {
      if k < i {
        assert InOrder(node.f, node.keys[k], node.keys[i]);
        PosTransitive(KeyPos(node.f, node.keys[k]), KeyPos(node.f, node.keys[i]), search);
      }
    }
  }

  /** Everything before a key at or below the search position is before it. */
  lemma AtMostMeansBefore(node: Node, i: nat, search: Pos)
    requires NodeOk(node) && i < |node.keys| && PosCmp(KeyPos(node.f, node.keys[i]), search) <= 0
    ensures AllBefore(node, i, search)
  {
    forall k | 0 <= k < i
      ensures Before(node.f, node.keys[k], search)
    {
      assert InOrder(node.f, node.keys[k], node.keys[i]);
      PosTransitive(KeyPos(node.f, node.keys[k]), KeyPos(node.f, node.keys[i]), search);
      PosAntisymmetric(KeyPos(node.f, node.keys[k]), search);
    }
  }

  // ----- the linear tail

  /** The search position packed as closely as possible from below. */
  ghost predicate IsPackedFloor(f: Format, search: Pos, ps: seq<Word>) {
    FormatGood(f) && |ps| == f.keyWords && IsFloor(f, search, UnpackedPos(f, ps))
  }

  /** Compare with the packed search if the key is packed, else with the position. */
  method CmpSearch(f: Format, k: NodeKey, ps: seq<Word>, search: Pos) returns (c: int)
    requires KeyOk(f, k) && FormatGood(f) && |ps| == f.keyWords
    ensures c == if k.packed then PosCmp(KeyPos(f, k), UnpackedPos(f, ps)) else PosCmp(KeyPos(f, k), search)
  {
    if !k.packed {
      return PosCmp(k.full, search);
    }
    c := CmpPacked(f, k.words, ps);
  }

  /**
   Walk on from a key that has only smaller keys before it: the result is where a scan from the
   first key would stop.  `exact` says that the packed search is the search position itself.
   */
  method SearchLinear(node: Node, search: Pos, exact: bool, ps: seq<Word>, start: nat) returns (m: nat)
    requires NodeOk(node) && IsPackedFloor(node.f, search, ps) && (exact ==> UnpackedPos(node.f, ps) == search)
    requires start <= |node.keys| && AllBefore(node, start, search)
    ensures IsScan(node, m, search)
  {
    m := SkipPacked(node, search, exact, ps, start);
    if !exact {
      while m != |node.keys| && Before(node.f, node.keys[m], search)
        invariant m <= |node.keys| && AllBefore(node, m, search)
      {
        m := m + 1;
      }
    }
  }

  /** The first part of the walk, by the packed search. */
  method SkipPacked(node: Node, search: Pos, ghost exact: bool, ps: seq<Word>, start: nat) returns (m: nat)
    requires NodeOk(node) && IsPackedFloor(node.f, search, ps) && (exact ==> UnpackedPos(node.f, ps) == search)
    requires start <= |node.keys| && AllBefore(node, start, search)
    ensures m <= |node.keys| && AllBefore(node, m, search) && (exact ==> IsScan(node, m, search))
  {
    m := start;
    while m != |node.keys|
      invariant m <= |node.keys| && AllBefore(node, m, search)
    {
      var c := CmpSearch(node.f, node.keys[m], ps, search);
      FloorCompare(node.f, node.keys[m], search, ps);
      if !(c < 0 || (c == 0 && node.keys[m].deleted)) {
        return;
      }
      m := m + 1;
    }
  }

  /** What the comparison with the packed search says about the search position. */
  lemma FloorCompare(f: Format, k: NodeKey, search: Pos, ps: seq<Word>)
    requires KeyOk(f, k) && IsPackedFloor(f, search, ps)
    ensures var c := if k.packed then PosCmp(KeyPos(f, k), UnpackedPos(f, ps)) else PosCmp(KeyPos(f, k), search);
            && (c < 0 || (c == 0 && k.deleted) ==> Before(f, k, search))
            && (UnpackedPos(f, ps) == search && !(c < 0 || (c == 0 && k.deleted)) ==> !Before(f, k, search))
  {
    var s := UnpackedPos(f, ps);
    PosAntisymmetric(KeyPos(f, k), s);
    PosAntisymmetric(KeyPos(f, k), search);
    if k.packed && PosCmp(KeyPos(f, k), s) <= 0 {
      PosTransitive(KeyPos(f, k), s, search);
    }
  }
}
