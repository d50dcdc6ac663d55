/**
 The in-place bottom-up heapsort of an array of keys.  Keys are any values with a rank that the
 comparison agrees with; equal ranks are allowed.
 */
module KeySort {

  function Parent(k: int): int { (k - 1) / 2 }

  /** The other child of the same parent. */
  function Sibling(k: int): int { if k % 2 == 1 then k + 1 else k - 1 }

  predicate EdgeOk<T>(s: seq<T>, rank: T -> int, k: int)
    requires 1 <= k < |s|
  {
    rank(s[k]) <= rank(s[Parent(k)])
  }

  /** No key among the first `n` whose parent is at or after `a` exceeds its parent. */
  predicate HeapFrom<T>(s: seq<T>, rank: T -> int, a: int, n: int) {
    n <= |s| && forall k :: 1 <= k < n && Parent(k) >= a ==> EdgeOk(s, rank, k)
  }

  /** From `b` up to `a`, every node is at least as large as its sibling. */
  predicate LargerPath<T>(s: seq<T>, rank: T -> int, b: int, a: int, n: int)
    requires n <= |s|
    decreases b
  {
    && 0 <= a <= b < n
    && (b == a || ((Sibling(b) < n ==> rank(s[Sibling(b)]) <= rank(s[b])) && LargerPath(s, rank, Parent(b), a, n)))
  }

  predicate ChildrenAtMost<T>(s: seq<T>, rank: T -> int, b: int, n: int, x: T)
    requires 0 <= b && n <= |s|
  {
    (2 * b + 1 < n ==> rank(s[2 * b + 1]) <= rank(x)) && (2 * b + 2 < n ==> rank(s[2 * b + 2]) <= rank(x))
  }

  function Swapped<T>(s: seq<T>, i: nat, j: nat): (t: seq<T>)
    requires i < |s| && j < |s|
    ensures |t| == |s| && multiset(t) == multiset(s)
  {
    s[i := s[j]][j := s[i]]
  }

  method Swap<T>(p: array<T>, i: nat, j: nat)
    requires i < p.Length && j < p.Length
    modifies p
    ensures p[..] == Swapped(old(p[..]), i, j)
  {
    p[i], p[j] := p[j], p[i];
  }

  // ----- one sift

  /** The climb has stopped at `c`: putting x there breaks no edge below `a`. */
  predicate Placed<T>(s: seq<T>, rank: T -> int, a: int, c: int, n: int)
    requires 0 <= a < n <= |s|
  {
    && LargerPath(s, rank, c, a, n) && ChildrenAtMost(s, rank, c, n, s[a])
    && (c != a ==> rank(s[a]) < rank(s[c]))
  }

  /** Half-way through the rotation: `s` is the array now, `s0` was it before, `b` is where the path has got to. */
  ghost predicate Rotating<T>(s0: seq<T>, s: seq<T>, rank: T -> int, a: int, b: int, c: int, n: int)
    requires 0 <= a < n <= |s0|
  {
    && |s| == |s0| && LargerPath(s0, rank, b, a, n) && b <= c < n && (c == b || c > 2 * b)
    && (forall k :: 0 <= k < |s| && (k <= 2 * b || k >= n) && k != c && k != b ==> s[k] == s0[k])
    && s[c] == s0[b]
    && var t := s[c := s0[a]];
       HeapFrom(t, rank, a + 1, n) && (b == a ==> HeapFrom(t, rank, a, n)) && (b > a ==> rank(t[b]) <= rank(s0[b]))
  }

  lemma RotationStarts<T>(s0: seq<T>, rank: T -> int, a: int, c: int, n: int)
    requires 0 <= a < n <= |s0| && HeapFrom(s0, rank, a + 1, n) && Placed(s0, rank, a, c, n)
    ensures Rotating(s0, s0, rank, a, c, c, n)
  {
    var t := s0[c := s0[a]];
    forall k | 1 <= k < n && Parent(k) >= (if c == a then a else a + 1)
      ensures EdgeOk(t, rank, k)
    {
      assert Parent(k) >= a + 1 ==> EdgeOk(s0, rank, k);
    }
  }

  lemma RotationStep<T>(s0: seq<T>, s: seq<T>, rank: T -> int, a: int, b: int, c: int, n: int)
    requires 0 <= a < n <= |s0| && HeapFrom(s0, rank, a + 1, n) && Rotating(s0, s, rank, a, b, c, n) && b != a
    ensures 0 <= Parent(b) < |s| && Rotating(s0, Swapped(s, Parent(b), c), rank, a, Parent(b), c, n)
  {
    var b' := Parent(b);
    var s' := Swapped(s, b', c);
    var t, t' := s[c := s0[a]], s'[c := s0[a]];
    assert t' == t[b' := s0[b]];
    assert LargerPath(s0, rank, b', a, n);
    assert b' > a ==> EdgeOk(s0, rank, b);
    forall k | 1 <= k < n && Parent(k) >= (if b' == a then a else a + 1)
      ensures EdgeOk(t', rank, k)
    {
      RotationEdge(s0, s, t, t', rank, a, b, c, n, k);
    }
  }

  lemma RotationEdge<T>(
      s0: seq<T>, s: seq<T>, t: seq<T>, t': seq<T>, rank: T -> int, a: int, b: int, c: int, n: int, k: int)
    requires 0 <= a < n <= |s0| && HeapFrom(s0, rank, a + 1, n) && Rotating(s0, s, rank, a, b, c, n) && b != a
    requires t == s[c := s0[a]] && t' == t[Parent(b) := s0[b]]
    requires 1 <= k < n && Parent(k) >= a && (Parent(k) == a ==> Parent(b) == a)
    ensures EdgeOk(t', rank, k)
  {
    var b' := Parent(b);
    if Parent(k) == b' {
      assert k == b || k == Sibling(b);
    } else if k == b' {
      assert EdgeOk(s0, rank, k);
      assert b' > a ==> EdgeOk(s0, rank, b);
    } else {
      assert EdgeOk(t, rank, k);
    }
  }

  /** Sink p[a] into the heap behind it: down the path of larger children to a leaf, up to its place, and rotate. */
  method Sift<T>(p: array<T>, rank: T -> int, a: nat, n: nat)
    requires a < n <= p.Length && HeapFrom(p[..], rank, a + 1, n)
    modifies p
    ensures HeapFrom(p[..], rank, a, n) && multiset(p[..]) == multiset(old(p[..])) && p[n..] == old(p[n..])
  {
    ghost var s0 := p[..];
    var b := Leaf(p, rank, a, n);
    while b != a && rank(p[a]) >= rank(p[b])
      invariant p[..] == s0 && LargerPath(s0, rank, b, a, n) && ChildrenAtMost(s0, rank, b, n, s0[a])
      decreases b
    {
      ClimbStep(s0, rank, a, b, n);
      b := (b - 1) / 2;
    }
    var c := b;
    RotationStarts(s0, rank, a, c, n);
    while b != a
      invariant Rotating(s0, p[..], rank, a, b, c, n) && multiset(p[..]) == multiset(s0)
      decreases b
    {
      RotationStep(s0, p[..], rank, a, b, c, n);
      b := (b - 1) / 2;
      Swap(p, b, c);
    }
    assert p[..][c := s0[a]] == p[..];
    RotationTail(s0, p[..], rank, a, c, n);
  }

  lemma RotationTail<T>(s0: seq<T>, s: seq<T>, rank: T -> int, a: int, c: int, n: int)
    requires 0 <= a < n <= |s0| && Rotating(s0, s, rank, a, a, c, n)
    ensures s[n..] == s0[n..]
  {
  }

  lemma ClimbStep<T>(s: seq<T>, rank: T -> int, a: int, b: int, n: int)
    requires 0 <= a < n <= |s| && LargerPath(s, rank, b, a, n) && b != a && rank(s[b]) <= rank(s[a])
    ensures LargerPath(s, rank, Parent(b), a, n) && ChildrenAtMost(s, rank, Parent(b), n, s[a])
  {
    FamilyIndices(b);
  }

  lemma FamilyIndices(b: int)
    requires b >= 1
    ensures var q := Parent(b);
            (b == 2 * q + 1 && Sibling(b) == 2 * q + 2) || (b == 2 * q + 2 && Sibling(b) == 2 * q + 1)
  {
  }

  /** The leaf at the end of the path of larger children. */
  method Leaf<T>(p: array<T>, rank: T -> int, a: nat, n: nat) returns (b: nat)
    requires a < n <= p.Length
    ensures LargerPath(p[..], rank, b, a, n) && 2 * b + 1 >= n
  {
    b := a;
    var c, d := 2 * b + 1, 2 * b + 2;
    while d < n
      invariant LargerPath(p[..], rank, b, a, n) && c == 2 * b + 1 && d == c + 1
      decreases n - b
    {
      PathDown(p[..], rank, b, a, n);
      b := if rank(p[c]) >= rank(p[d]) then c else d;
      c, d := 2 * b + 1, 2 * b + 2;
    }
    if d == n {
      PathDown(p[..], rank, b, a, n);
      b := c;
    }
  }

  lemma PathDown<T>(s: seq<T>, rank: T -> int, b: int, a: int, n: int)
    requires n <= |s| && LargerPath(s, rank, b, a, n) && 2 * b + 1 < n
    ensures 2 * b + 2 == n ==> LargerPath(s, rank, 2 * b + 1, a, n)
    ensures 2 * b + 2 < n && rank(s[2 * b + 1]) >= rank(s[2 * b + 2]) ==> LargerPath(s, rank, 2 * b + 1, a, n)
    ensures 2 * b + 2 < n && rank(s[2 * b + 1]) < rank(s[2 * b + 2]) ==> LargerPath(s, rank, 2 * b + 2, a, n)
  {
    assert Parent(2 * b + 1) == b && Parent(2 * b + 2) == b;
    assert Sibling(2 * b + 1) == 2 * b + 2 && Sibling(2 * b + 2) == 2 * b + 1;
  }

  // ----- the whole sort

  lemma {:induction false} RootIsLargest<T>(s: seq<T>, rank: T -> int, n: int, k: int)
    requires HeapFrom(s, rank, 0, n) && 0 <= k < n
    ensures rank(s[k]) <= rank(s[0])
    decreases k
  {
    if k > 0 {
      assert EdgeOk(s, rank, k);
      RootIsLargest(s, rank, n, Parent(k));
    }
  }

  /** The keys from `n` on are in their final places. */
  predicate TailDone<T>(s: seq<T>, rank: T -> int, n: int) {
    0 <= n <= |s| && forall i, j :: n <= j < |s| && 0 <= i < j ==> rank(s[i]) <= rank(s[j])
  }

  /** Moving the root behind the heap extends the sorted tail. */
  lemma TailGrows<T>(s: seq<T>, rank: T -> int, n: int)
    requires 1 <= n <= |s| && HeapFrom(s, rank, 0, n) && TailDone(s, rank, n)
    ensures TailDone(Swapped(s, 0, n - 1), rank, n - 1) && HeapFrom(Swapped(s, 0, n - 1), rank, 1, n - 1)
  {
    var t := Swapped(s, 0, n - 1);
    forall i, j | n - 1 <= j < |t| && 0 <= i < j
      ensures rank(t[i]) <= rank(t[j])
    {
      if j == n - 1 {
        RootIsLargest(s, rank, n, if i == 0 then n - 1 else i);
      }
    }
    forall k | 1 <= k < n - 1 && Parent(k) >= 1
      ensures EdgeOk(t, rank, k)
    {
      assert EdgeOk(s, rank, k);
    }
  }

  lemma SameRest<T>(a: multiset<T>, b: multiset<T>, c: multiset<T>)
    requires a + c == b + c
    ensures a == b
  {
    assert (a + c) - c == a && (b + c) - c == b;
  }

  /** A rearrangement of the first `n` keys keeps the tail sorted and larger. */
  lemma TailKept<T>(s: seq<T>, t: seq<T>, rank: T -> int, n: int)
    requires TailDone(s, rank, n) && |t| == |s| && t[n..] == s[n..] && multiset(t) == multiset(s)
    ensures TailDone(t, rank, n)
  {
    assert s == s[..n] + s[n..] && t == t[..n] + t[n..];
    assert multiset(s) == multiset(s[..n]) + multiset(s[n..]);
    assert multiset(t) == multiset(t[..n]) + multiset(s[n..]);
    SameRest(multiset(s[..n]), multiset(t[..n]), multiset(s[n..]));
    forall i, j | n <= j < |t| && 0 <= i < j
      ensures rank(t[i]) <= rank(t[j])
    {
      assert t[j] == t[n..][j - n] == s[j];
      if i >= n {
        assert t[i] == t[n..][i - n] == s[i];
      } else {
        assert t[i] in multiset(t[..n]);
        var k :| 0 <= k < n && s[..n][k] == t[i];
        assert s[k] == t[i];
      }
    }
  }

  /** Ends with a sorted permutation of the input, for every length. */
  method SortKeys<T>(p: array<T>, rank: T -> int)
    modifies p
    ensures forall i, j :: 0 <= i < j < p.Length ==> rank(p[i]) <= rank(p[j])
    ensures multiset(p[..]) == multiset(old(p[..]))
  {
    var n, a := p.Length, p.Length / 2;
    if a == 0 {
      return;
    }
    while true
      invariant 0 <= a <= n / 2 && 1 <= n <= p.Length
      invariant HeapFrom(p[..], rank, a, n) && TailDone(p[..], rank, n)
      invariant multiset(p[..]) == multiset(old(p[..]))
      decreases a + n
    {
      if a != 0 {
        a := a - 1;
      } else {
        TailGrows(p[..], rank, n);
        n := n - 1;
        if n == 0 {
          break;
        }
        Swap(p, 0, n);
      }
      SiftHead(p, rank, a, n);
    }
  }

  method SiftHead<T>(p: array<T>, rank: T -> int, a: nat, n: nat)
    requires a < n <= p.Length && HeapFrom(p[..], rank, a + 1, n) && TailDone(p[..], rank, n)
    modifies p
    ensures HeapFrom(p[..], rank, a, n) && TailDone(p[..], rank, n) && multiset(p[..]) == multiset(old(p[..]))
  {
    ghost var s := p[..];
    Sift(p, rank, a, n);
    assert s[n..] == old(p[n..]) && p[..][n..] == p[n..];
    TailKept(s, p[..], rank, n);
  }
}
