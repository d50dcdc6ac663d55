/**
 The checksums as remainders.  A polynomial over the two-element field is the set of its exponents;
 the checksum of a message is the remainder of the message, as a polynomial, times x^width modulo
 the generator, in the bit order of its type.
 */
module CrcPolynomials {
  import opened Checksums

  type Poly = set<nat>

  function Add(a: Poly, b: Poly): Poly { (a - b) + (b - a) }

  /** Times x^k. */
  function Shift(a: Poly, k: nat): Poly { set e | e in a :: e + k }

  predicate Bounded(q: Poly, n: nat) { forall e | e in q :: e < n }

  /** The part of `q` below x^n, times `g`. */
  function Mul(q: Poly, g: Poly, n: nat): Poly {
    if n == 0 then {} else Add(Mul(q, g, n - 1), if n - 1 in q then Shift(g, n - 1) else {})
  }

  predicate IsProduct(p: Poly, q: Poly, g: Poly, n: nat) { Bounded(q, n) && p == Mul(q, g, n) }

  ghost predicate Multiple(p: Poly, g: Poly) {
    exists q, n :: IsProduct(p, q, g, n)
  }

  ghost predicate Congruent(a: Poly, b: Poly, g: Poly) {
    Multiple(Add(a, b), g)
  }

  // ----- arithmetic

  lemma AddHas(a: Poly, b: Poly, e: nat)
    ensures e in Add(a, b) <==> (e in a) != (e in b)
  {
  }

  lemma ShiftHas(a: Poly, k: nat, e: nat)
    ensures e in Shift(a, k) <==> e >= k && e - k in a
  {
    if e >= k && e - k in a {
      assert (e - k) + k == e;
    }
  }

  lemma SamePoly(a: Poly, b: Poly)
    requires forall e: nat :: e in a <==> e in b
    ensures a == b
  {
  }

  lemma AddSwap(a: Poly, b: Poly, c: Poly, d: Poly)
    ensures Add(Add(a, b), Add(c, d)) == Add(Add(a, c), Add(b, d))
  {
  }

  lemma AddCancel(a: Poly, b: Poly, c: Poly)
    ensures Add(Add(a, c), Add(b, c)) == Add(a, b) && Add(Add(a, c), Add(c, b)) == Add(a, b)
    ensures Add(a, a) == {} && Add(a, {}) == a == Add({}, a) && Add(a, b) == Add(b, a)
  {
  }

  lemma ShiftAdd(a: Poly, b: Poly, k: nat)
    ensures Shift(Add(a, b), k) == Add(Shift(a, k), Shift(b, k))
  {
    forall e: nat
      ensures e in Shift(Add(a, b), k) <==> e in Add(Shift(a, k), Shift(b, k))
    {
      ShiftHas(Add(a, b), k, e);
      ShiftHas(a, k, e);
      ShiftHas(b, k, e);
    }
  }

  lemma ShiftShift(a: Poly, j: nat, k: nat)
    ensures Shift(Shift(a, j), k) == Shift(a, j + k) && Shift(a, 0) == a
  {
    forall e: nat
      ensures e in Shift(Shift(a, j), k) <==> e in Shift(a, j + k)
      ensures e in Shift(a, 0) <==> e in a
    {
      ShiftHas(Shift(a, j), k, e);
      ShiftHas(a, 0, e);
      ShiftHas(a, j + k, e);
      if e >= k {
        ShiftHas(a, j, e - k);
      }
    }
  }

  lemma {:induction false} MulExtend(q: Poly, g: Poly, n: nat, m: nat)
    requires Bounded(q, n) && n <= m
    ensures Mul(q, g, m) == Mul(q, g, n)
    decreases m
  {
    if n < m {
      MulExtend(q, g, n, m - 1);
      AddCancel(Mul(q, g, n), {}, {});
    }
  }

  lemma {:induction false} MulAdd(q: Poly, r: Poly, g: Poly, n: nat)
    ensures Mul(Add(q, r), g, n) == Add(Mul(q, g, n), Mul(r, g, n))
  {
    if n > 0 {
      MulAdd(q, r, g, n - 1);
      var s := Shift(g, n - 1);
      var a, b := if n - 1 in q then s else {}, if n - 1 in r then s else {};
      AddHas(q, r, n - 1);
      AddCancel(s, {}, {});
      assert (if n - 1 in Add(q, r) then s else {}) == Add(a, b);
      AddSwap(Mul(q, g, n - 1), Mul(r, g, n - 1), a, b);
    } else {
      AddCancel({}, {}, {});
    }
  }

  lemma {:induction false} MulShift(q: Poly, g: Poly, n: nat)
    ensures Mul(Shift(q, 1), g, n + 1) == Shift(Mul(q, g, n), 1)
  {
    ShiftHas(q, 1, n);
    if n > 0 {
      MulShift(q, g, n - 1);
      var a := if n - 1 in q then Shift(g, n - 1) else {};
      ShiftAdd(Mul(q, g, n - 1), a, 1);
      ShiftShift(g, n - 1, 1);
      assert Shift({}, 1) == {};
    } else {
      assert Mul(Shift(q, 1), g, 0) == {} && Shift({}, 1) == {};
      AddCancel({}, {}, {});
    }
  }

  // ----- congruence

  lemma MultipleAdd(p: Poly, r: Poly, g: Poly)
    requires Multiple(p, g) && Multiple(r, g)
    ensures Multiple(Add(p, r), g)
  {
    var q: Poly, n: nat :| IsProduct(p, q, g, n);
    var q': Poly, n': nat :| IsProduct(r, q', g, n');
    var m := if n < n' then n' else n;
    MulExtend(q, g, n, m);
    MulExtend(q', g, n', m);
    MulAdd(q, q', g, m);
    assert IsProduct(Add(p, r), Add(q, q'), g, m);
  }

  lemma MultipleShift(p: Poly, g: Poly)
    requires Multiple(p, g)
    ensures Multiple(Shift(p, 1), g)
  {
    var q: Poly, n: nat :| IsProduct(p, q, g, n);
    MulShift(q, g, n);
    assert IsProduct(Shift(p, 1), Shift(q, 1), g, n + 1);
  }

  lemma MultipleSelf(g: Poly)
    ensures Multiple(g, g) && Multiple({}, g)
  {
    AddCancel(Shift(g, 0), {}, {});
    ShiftShift(g, 0, 0);
    assert Mul({0}, g, 0) == {};
    assert IsProduct(g, {0}, g, 1);
    assert IsProduct({}, {}, g, 0);
  }

  lemma CongruentTransitive(a: Poly, b: Poly, c: Poly, g: Poly)
    requires Congruent(a, b, g) && Congruent(b, c, g)
    ensures Congruent(a, c, g)
  {
    MultipleAdd(Add(a, b), Add(b, c), g);
    AddCancel(a, c, b);
  }

  lemma CongruentAdd(a: Poly, b: Poly, c: Poly, g: Poly)
    requires Congruent(a, b, g)
    ensures Congruent(Add(a, c), Add(b, c), g)
  {
    AddCancel(a, b, c);
  }

  lemma {:induction false} CongruentShift(a: Poly, b: Poly, k: nat, g: Poly)
    requires Congruent(a, b, g)
    ensures Congruent(Shift(a, k), Shift(b, k), g)
  {
    ShiftShift(a, 0, 0);
    ShiftShift(b, 0, 0);
    if k > 0 {
      CongruentShift(a, b, k - 1, g);
      MultipleShift(Add(Shift(a, k - 1), Shift(b, k - 1)), g);
      ShiftAdd(Shift(a, k - 1), Shift(b, k - 1), 1);
      ShiftShift(a, k - 1, 1);
      ShiftShift(b, k - 1, 1);
    }
  }

  lemma CongruentSelf(a: Poly, g: Poly)
    ensures Congruent(a, a, g)
  {
    AddCancel(a, a, a);
    MultipleSelf(g);
  }

  // ----- remainders are unique

  /** A generator of the given degree. */
  predicate HasDegree(g: Poly, w: nat) { w in g && Bounded(g, w + 1) }

  lemma {:induction false} MulBound(q: Poly, g: Poly, n: nat, w: nat)
    requires HasDegree(g, w)
    ensures Bounded(Mul(q, g, n), n + w)
  {
    if n > 0 {
      MulBound(q, g, n - 1, w);
      forall e | e in Mul(q, g, n)
        ensures e < n + w
      {
        AddHas(Mul(q, g, n - 1), if n - 1 in q then Shift(g, n - 1) else {}, e);
        ShiftHas(g, n - 1, e);
      }
    }
  }

  lemma MulTop(q: Poly, g: Poly, n: nat, w: nat)
    requires HasDegree(g, w) && n > 0 && n - 1 in q
    ensures n - 1 + w in Mul(q, g, n)
  {
    MulBound(q, g, n - 1, w);
    ShiftHas(g, n - 1, n - 1 + w);
    AddHas(Mul(q, g, n - 1), Shift(g, n - 1), n - 1 + w);
  }

  lemma {:induction false} MulDegree(q: Poly, g: Poly, n: nat, w: nat)
    requires HasDegree(g, w) && Bounded(Mul(q, g, n), w)
    ensures Mul(q, g, n) == {}
  {
    if n > 0 {
      if n - 1 in q {
        MulTop(q, g, n, w);
      } else {
        AddCancel(Mul(q, g, n - 1), {}, {});
        MulDegree(q, g, n - 1, w);
      }
    }
  }

  /** A remainder of degree below the generator's is the only one. */
  lemma RemainderUnique(m: Poly, r: Poly, r': Poly, g: Poly, w: nat)
    requires HasDegree(g, w) && Bounded(r, w) && Bounded(r', w)
    requires Congruent(m, r, g) && Congruent(m, r', g)
    ensures r == r'
  {
    AddCancel(r, m, m);
    AddCancel(m, r, m);
    CongruentTransitive(r, m, r', g);
    var q: Poly, n: nat :| IsProduct(Add(r, r'), q, g, n);
    MulDegree(q, g, n, w);
    forall e: nat
      ensures e in r <==> e in r'
    {
      AddHas(r, r', e);
    }
  }

  // ----- registers

  /** The bit shifted out first has the highest exponent. */
  function RegPoly(x: Bits): Poly { set i | 0 <= i < |x| && x[i] :: |x| - 1 - i }

  lemma RegHas(x: Bits, e: nat)
    ensures e in RegPoly(x) <==> e < |x| && x[|x| - 1 - e]
  {
    if e < |x| && x[|x| - 1 - e] {
      assert |x| - 1 - (|x| - 1 - e) == e;
    }
  }

  function Gen(poly: Bits): Poly { RegPoly(poly) + {|poly|} }

  lemma StepCongruent(poly: Bits, x: Bits)
    requires |poly| == |x| >= 1
    ensures Congruent(Shift(RegPoly(x), 1), RegPoly(Step(poly, x)), Gen(poly))
  {
    var y := Step(poly, x);
    var d := Add(Shift(RegPoly(x), 1), RegPoly(y));
    forall e: nat
      ensures e in d <==> x[0] && e in Gen(poly)
    {
      AddHas(Shift(RegPoly(x), 1), RegPoly(y), e);
      ShiftHas(RegPoly(x), 1, e);
      RegHas(y, e);
      RegHas(poly, e);
      if e >= 1 {
        RegHas(x, e - 1);
      }
    }
    MultipleSelf(Gen(poly));
    SamePoly(d, if x[0] then Gen(poly) else {});
  }

  lemma {:induction false} StepsCongruent(poly: Bits, x: Bits, k: nat)
    requires |poly| == |x| >= 1
    ensures Congruent(Shift(RegPoly(x), k), RegPoly(Steps(poly, x, k)), Gen(poly))
  {
    ShiftShift(RegPoly(x), 0, 0);
    if k == 0 {
      CongruentSelf(RegPoly(x), Gen(poly));
    } else {
      StepsCongruent(poly, x, k - 1);
      var y := Steps(poly, x, k - 1);
      CongruentShift(Shift(RegPoly(x), k - 1), RegPoly(y), 1, Gen(poly));
      ShiftShift(RegPoly(x), k - 1, 1);
      StepCongruent(poly, y);
      CongruentTransitive(Shift(RegPoly(x), k), Shift(RegPoly(y), 1), RegPoly(Steps(poly, x, k)), Gen(poly));
    }
  }

  lemma XorPoly(x: Bits, y: Bits)
    requires |x| == |y|
    ensures RegPoly(Xor(x, y)) == Add(RegPoly(x), RegPoly(y))
  {
    forall e: nat
      ensures e in RegPoly(Xor(x, y)) <==> e in Add(RegPoly(x), RegPoly(y))
    {
      RegHas(Xor(x, y), e);
      RegHas(x, e);
      RegHas(y, e);
      AddHas(RegPoly(x), RegPoly(y), e);
    }
  }

  lemma HeadPoly(c: Crc, b: Bits)
    requires CrcOk(c) && |b| == 8
    ensures RegPoly(Head(c, b)) == Shift(RegPoly(b), c.width - 8)
  {
    var x := Head(c, b);
    forall e: nat
      ensures e in RegPoly(x) <==> e in Shift(RegPoly(b), c.width - 8)
    {
      RegHas(x, e);
      ShiftHas(RegPoly(b), c.width - 8, e);
      if e >= c.width - 8 {
        RegHas(b, e - (c.width - 8));
      }
    }
  }

  /** A byte: the message so far moves up by eight and the byte, times x^width, is added. */
  lemma UpdateCongruent(c: Crc, crc: Bits, byte: nat)
    requires CrcOk(c) && |crc| == c.width
    ensures Congruent(Add(Shift(RegPoly(crc), 8), Shift(RegPoly(ByteBits(c, byte)), c.width)),
                      RegPoly(Update(c, crc, byte)), Gen(c.poly))
  {
    var b := ByteBits(c, byte);
    XorPoly(crc, Head(c, b));
    HeadPoly(c, b);
    ShiftAdd(RegPoly(crc), Shift(RegPoly(b), c.width - 8), 8);
    ShiftShift(RegPoly(b), c.width - 8, 8);
    StepsCongruent(c.poly, Xor(crc, Head(c, b)), 8);
  }

  // ----- messages

  /** The first `n` bytes as a polynomial, first bit highest. */
  function Message(c: Crc, data: seq<Byte>, n: nat): Poly
    requires n <= |data|
  {
    if n == 0 then {} else Add(Shift(Message(c, data, n - 1), 8), RegPoly(ByteBits(c, data[n - 1])))
  }

  lemma {:induction false} FoldCongruent(c: Crc, data: seq<Byte>, n: nat)
    requires CrcOk(c) && n <= |data|
    ensures Congruent(Shift(Message(c, data, n), c.width), RegPoly(Fold(c, Zeros(c.width), data, n)), Gen(c.poly))
  {
    var w, g := c.width, Gen(c.poly);
    if n == 0 {
      assert RegPoly(Zeros(w)) == {} && Shift({}, w) == {};
      CongruentSelf({}, g);
    } else {
      FoldCongruent(c, data, n - 1);
      FoldStep(c, Message(c, data, n - 1), Fold(c, Zeros(w), data, n - 1), data[n - 1]);
    }
  }

  lemma FoldStep(c: Crc, m: Poly, crc: Bits, byte: Byte)
    requires CrcOk(c) && |crc| == c.width && Congruent(Shift(m, c.width), RegPoly(crc), Gen(c.poly))
    ensures var m' := Add(Shift(m, 8), RegPoly(ByteBits(c, byte)));
            Congruent(Shift(m', c.width), RegPoly(Update(c, crc, byte)), Gen(c.poly))
  {
    var w, g, b := c.width, Gen(c.poly), RegPoly(ByteBits(c, byte));
    CongruentShift(Shift(m, w), RegPoly(crc), 8, g);
    ShiftShift(m, w, 8);
    ShiftShift(m, 8, w);
    ShiftAdd(Shift(m, 8), b, w);
    CongruentAdd(Shift(m, w + 8), Shift(RegPoly(crc), 8), Shift(b, w), g);
    UpdateCongruent(c, crc, byte);
    CongruentTransitive(
      Add(Shift(m, w + 8), Shift(b, w)), Add(Shift(RegPoly(crc), 8), Shift(b, w)), RegPoly(Update(c, crc, byte)), g);
  }

  // ----- bytes and words by their bits

  /** Bit `i` of a number, counted from the lowest. */
  function Bit(v: nat, i: nat): bool { if i == 0 then v % 2 == 1 else Bit(v / 2, i - 1) }

  lemma {:induction false} LowFirstBit(v: nat, n: nat, i: nat)
    requires i < n
    ensures LowFirst(v, n)[i] == Bit(v, i)
  {
    if i > 0 {
      LowFirstBit(v / 2, n - 1, i - 1);
    }
  }

  lemma {:induction false} ValueBit(b: Bits, i: nat)
    requires i < |b|
    ensures Bit(LowFirstValue(b), i) == b[i]
  {
    if i > 0 {
      ValueBit(b[1..], i - 1);
    }
    assert ((if b[0] then 1 else 0) + 2 * LowFirstValue(b[1..])) / 2 == LowFirstValue(b[1..]);
  }

  /** Bit `k` of a message: its bytes in order, each from the lowest bit on or from the highest. */
  function StreamBit(data: seq<Byte>, k: nat, highFirst: bool): bool
    requires k < 8 * |data|
  {
    Bit(data[k / 8], if highFirst then 7 - k % 8 else k % 8)
  }

  /** The first `n` bytes of a message as a polynomial, the first bit highest. */
  function StreamPoly(data: seq<Byte>, n: nat, highFirst: bool): Poly
    requires n <= |data|
  {
    set k: nat | k < 8 * n && StreamBit(data, k, highFirst) :: 8 * n - 1 - k
  }

  lemma StreamHas(data: seq<Byte>, n: nat, highFirst: bool, e: nat)
    requires n <= |data|
    ensures e in StreamPoly(data, n, highFirst) <==> e < 8 * n && StreamBit(data, 8 * n - 1 - e, highFirst)
  {
    if e < 8 * n {
      assert 8 * n - 1 - (8 * n - 1 - e) == e;
    }
  }

  lemma {:induction false} MessageIsStream(c: Crc, data: seq<Byte>, n: nat)
    requires n <= |data|
    ensures Message(c, data, n) == StreamPoly(data, n, c.highFirst)
  {
    if n > 0 {
      MessageIsStream(c, data, n - 1);
      forall e: nat
        ensures e in Message(c, data, n) <==> e in StreamPoly(data, n, c.highFirst)
      {
        MessageStep(c, data, n, e);
      }
    }
  }

  lemma MessageStep(c: Crc, data: seq<Byte>, n: nat, e: nat)
    requires 0 < n <= |data| && Message(c, data, n - 1) == StreamPoly(data, n - 1, c.highFirst)
    ensures e in Message(c, data, n) <==> e in StreamPoly(data, n, c.highFirst)
  {
    var b := ByteBits(c, data[n - 1]);
    AddHas(Shift(Message(c, data, n - 1), 8), RegPoly(b), e);
    ShiftHas(Message(c, data, n - 1), 8, e);
    RegHas(b, e);
    StreamHas(data, n, c.highFirst, e);
    if e >= 8 {
      StreamHas(data, n - 1, c.highFirst, e - 8);
      assert 8 * n - 1 - e == 8 * (n - 1) - 1 - (e - 8);
    } else {
      ByteBit(c, data[n - 1], 7 - e);
      assert (8 * n - 1 - e) / 8 == n - 1 && (8 * n - 1 - e) % 8 == 7 - e;
    }
  }

  lemma ByteBit(c: Crc, v: nat, i: nat)
    requires i < 8
    ensures ByteBits(c, v)[i] == Bit(v, if c.highFirst then 7 - i else i)
  {
    LowFirstBit(v, 8, if c.highFirst then 7 - i else i);
  }

  /** A register as the number the program keeps it in. */
  function WordOf(c: Crc, x: Bits): nat { LowFirstValue(if c.highFirst then Reverse(x) else x) }

  /** The polynomial a word of `w` bits stands for. */
  function WordPoly(word: nat, w: nat, highFirst: bool): Poly {
    set e: nat | e < w && Coefficient(word, w, highFirst, e)
  }

  predicate Coefficient(word: nat, w: nat, highFirst: bool, e: nat)
    requires e < w
  {
    Bit(word, if highFirst then e else w - 1 - e)
  }

  lemma WordIsReg(c: Crc, x: Bits)
    ensures WordPoly(WordOf(c, x), |x|, c.highFirst) == RegPoly(x)
  {
    forall e: nat
      ensures e in WordPoly(WordOf(c, x), |x|, c.highFirst) <==> e in RegPoly(x)
    {
      RegHas(x, e);
      if e < |x| {
        ValueBit(if c.highFirst then Reverse(x) else x, if c.highFirst then e else |x| - 1 - e);
      }
    }
  }

  // ----- the generators

  /** CRC-32C: section 12.1 of RFC 3720. */
  const Generator32c: Poly := {32, 28, 27, 26, 25, 23, 22, 20, 19, 18, 14, 13, 11, 10, 9, 8, 6, 0}

  /** CRC-64: Annex B of ECMA-182. */
  const Generator64: Poly :=
    {64, 62, 57, 55, 54, 53, 52, 47, 46, 45, 40, 39, 38, 37, 35, 33, 32}
    + {31, 29, 27, 24, 23, 22, 21, 19, 17, 13, 12, 10, 9, 7, 4, 1, 0}

  /** The exponents four bits give, lowest bit first, when the lowest one's is `top`. */
  function Falling(v: nat, top: int): set<int> {
    (if v % 2 == 1 then {top} else {}) + (if v / 2 % 2 == 1 then {top - 1} else {})
    + (if v / 4 % 2 == 1 then {top - 2} else {}) + (if v / 8 % 2 == 1 then {top - 3} else {})
  }

  function Rising(v: nat, low: nat): set<nat> {
    (if v % 2 == 1 then {low} else {}) + (if v / 2 % 2 == 1 then {low + 1} else {})
    + (if v / 4 % 2 == 1 then {low + 2} else {}) + (if v / 8 % 2 == 1 then {low + 3} else {})
  }

  lemma NibbleBits(v: nat, i: nat)
    ensures Bit(v, 0) == (v % 2 == 1) && Bit(v, 1) == (v / 2 % 2 == 1)
    ensures Bit(v, 2) == (v / 4 % 2 == 1) && Bit(v, 3) == (v / 8 % 2 == 1)
    ensures Bit(v, i + 4) == Bit(v / 16, i)
  {
    assert v / 2 / 2 == v / 4 && v / 4 / 2 == v / 8 && v / 8 / 2 == v / 16;
    assert Bit(v, 1) == Bit(v / 2, 0) && Bit(v, 2) == Bit(v / 2, 1) == Bit(v / 4, 0);
    assert Bit(v, 3) == Bit(v / 2, 2) == Bit(v / 4, 1) == Bit(v / 8, 0);
    assert Bit(v, i + 4) == Bit(v / 2, i + 3) == Bit(v / 4, i + 2) == Bit(v / 8, i + 1) == Bit(v / 16, i);
  }

  lemma FallingNibble(v: nat, w: nat)
    ensures WordPoly(v, w + 4, false) == Falling(v, w + 3) + WordPoly(v / 16, w, false)
  {
    var l, r := WordPoly(v, w + 4, false), Falling(v, w + 3) + WordPoly(v / 16, w, false);
    forall e: nat
      ensures e in l <==> e in r
    {
      FallingAt(v, w, e);
    }
  }

  lemma FallingAt(v: nat, w: nat, e: nat)
    ensures e in WordPoly(v, w + 4, false) <==> e in Falling(v, w + 3) || e in WordPoly(v / 16, w, false)
  {
    if e < w {
      NibbleBits(v, w - 1 - e);
      assert w + 4 - 1 - e == (w - 1 - e) + 4;
    } else {
      NibbleBits(v, 0);
    }
  }

  /** The exponents e from `low` on and below `low + w` for which bit e - low is set. */
  function RisingBits(v: nat, low: nat, w: nat): Poly { set e: nat | low <= e < low + w && BitFrom(v, low, e) }

  predicate BitFrom(v: nat, low: nat, e: nat) { low <= e && Bit(v, e - low) }

  lemma RisingNibble(v: nat, low: nat, w: nat)
    ensures RisingBits(v, low, w + 4) == Rising(v, low) + RisingBits(v / 16, low + 4, w)
  {
    var l, r := RisingBits(v, low, w + 4), Rising(v, low) + RisingBits(v / 16, low + 4, w);
    forall e: nat
      ensures e in l <==> e in r
    {
      RisingAt(v, low, w, e);
    }
  }

  lemma RisingAt(v: nat, low: nat, w: nat, e: nat)
    ensures e in RisingBits(v, low, w + 4) <==> e in Rising(v, low) || e in RisingBits(v / 16, low + 4, w)
  {
    if e >= low + 4 {
      NibbleBits(v, e - low - 4);
      assert e - low == (e - low - 4) + 4;
    } else {
      NibbleBits(v, 0);
    }
  }

  lemma Falling32()
    ensures WordPoly(0x82f6_3b78, 32, false) == {28, 27, 26, 25} + WordPoly(0x82_f63b, 24, false)
  {
    FallingNibble(0x82f6_3b78, 28);
    FallingNibble(0x82f_63b7, 24);
    assert Falling(0x82f6_3b78, 31) == {28};
    assert Falling(0x82f_63b7, 27) == {27, 26, 25};
  }

  lemma Falling24()
    ensures WordPoly(0x82_f63b, 24, false) == {23, 22, 20, 19, 18} + WordPoly(0x82f6, 16, false)
  {
    FallingNibble(0x82_f63b, 20);
    FallingNibble(0x8_2f63, 16);
    assert Falling(0x82_f63b, 23) == {23, 22, 20};
    assert Falling(0x8_2f63, 19) == {19, 18};
  }

  lemma Falling16()
    ensures WordPoly(0x82f6, 16, false) == {14, 13, 11, 10, 9, 8} + WordPoly(0x82, 8, false)
  {
    FallingNibble(0x82f6, 12);
    FallingNibble(0x82f, 8);
    assert Falling(0x82f6, 15) == {14, 13};
    assert Falling(0x82f, 11) == {11, 10, 9, 8};
  }

  lemma Falling8()
    ensures WordPoly(0x82, 8, false) == {6, 0} + WordPoly(0x0, 0, false)
  {
    FallingNibble(0x82, 4);
    FallingNibble(0x8, 0);
    assert Falling(0x82, 7) == {6};
    assert Falling(0x8, 3) == {0};
  }

  /** The constant's bits, the lowest highest, are the generator below x^32. */
  lemma Constant32c()
    ensures WordPoly(0x82f6_3b78, 32, false) + {32} == Generator32c
  {
    Falling32();
    Falling24();
    Falling16();
    Falling8();
    assert WordPoly(0, 0, false) == {};
  }

  lemma Rising0()
    ensures RisingBits(0x42f0_e1eb_a9ea_3693, 0, 64) == {0, 1, 4, 7} + RisingBits(0x42_f0e1_eba9_ea36, 8, 56)
  {
    RisingNibble(0x42f0_e1eb_a9ea_3693, 0, 60);
    RisingNibble(0x42f_0e1e_ba9e_a369, 4, 56);
    assert Rising(0x42f0_e1eb_a9ea_3693, 0) == {0, 1};
    assert Rising(0x42f_0e1e_ba9e_a369, 4) == {4, 7};
  }

  lemma Rising8()
    ensures RisingBits(0x42_f0e1_eba9_ea36, 8, 56) == {9, 10, 12, 13} + RisingBits(0x42f0_e1eb_a9ea, 16, 48)
  {
    RisingNibble(0x42_f0e1_eba9_ea36, 8, 52);
    RisingNibble(0x4_2f0e_1eba_9ea3, 12, 48);
    assert Rising(0x42_f0e1_eba9_ea36, 8) == {9, 10};
    assert Rising(0x4_2f0e_1eba_9ea3, 12) == {12, 13};
  }

  lemma Rising16()
    ensures RisingBits(0x42f0_e1eb_a9ea, 16, 48) == {17, 19, 21, 22, 23} + RisingBits(0x42_f0e1_eba9, 24, 40)
  {
    RisingNibble(0x42f0_e1eb_a9ea, 16, 44);
    RisingNibble(0x42f_0e1e_ba9e, 20, 40);
    assert Rising(0x42f0_e1eb_a9ea, 16) == {17, 19};
    assert Rising(0x42f_0e1e_ba9e, 20) == {21, 22, 23};
  }

  lemma Rising24()
    ensures RisingBits(0x42_f0e1_eba9, 24, 40) == {24, 27, 29, 31} + RisingBits(0x42f0_e1eb, 32, 32)
  {
    RisingNibble(0x42_f0e1_eba9, 24, 36);
    RisingNibble(0x4_2f0e_1eba, 28, 32);
    assert Rising(0x42_f0e1_eba9, 24) == {24, 27};
    assert Rising(0x4_2f0e_1eba, 28) == {29, 31};
  }

  lemma Rising32()
    ensures RisingBits(0x42f0_e1eb, 32, 32) == {32, 33, 35, 37, 38, 39} + RisingBits(0x42_f0e1, 40, 24)
  {
    RisingNibble(0x42f0_e1eb, 32, 28);
    RisingNibble(0x42f_0e1e, 36, 24);
    assert Rising(0x42f0_e1eb, 32) == {32, 33, 35};
    assert Rising(0x42f_0e1e, 36) == {37, 38, 39};
  }

  lemma Rising40()
    ensures RisingBits(0x42_f0e1, 40, 24) == {40, 45, 46, 47} + RisingBits(0x42f0, 48, 16)
  {
    RisingNibble(0x42_f0e1, 40, 20);
    RisingNibble(0x4_2f0e, 44, 16);
    assert Rising(0x42_f0e1, 40) == {40};
    assert Rising(0x4_2f0e, 44) == {45, 46, 47};
  }

  lemma Rising48()
    ensures RisingBits(0x42f0, 48, 16) == {52, 53, 54, 55} + RisingBits(0x42, 56, 8)
  {
    RisingNibble(0x42f0, 48, 12);
    RisingNibble(0x42f, 52, 8);
    assert Rising(0x42f0, 48) == {};
    assert Rising(0x42f, 52) == {52, 53, 54, 55};
  }

  lemma Rising56()
    ensures RisingBits(0x42, 56, 8) == {57, 62} + RisingBits(0x0, 64, 0)
  {
    RisingNibble(0x42, 56, 4);
    RisingNibble(0x4, 60, 0);
    assert Rising(0x42, 56) == {57};
    assert Rising(0x4, 60) == {62};
  }

  lemma RisingLow()
    ensures RisingBits(0x42f0_e1eb_a9ea_3693, 0, 64)
         == {0, 1, 4, 7, 9, 10, 12, 13, 17, 19, 21, 22, 23, 24, 27, 29, 31} + RisingBits(0x42f0_e1eb, 32, 32)
  {
    Rising0();
    Rising8();
    Rising16();
    Rising24();
  }

  lemma RisingHigh()
    ensures RisingBits(0x42f0_e1eb, 32, 32) == {32, 33, 35, 37, 38, 39, 40, 45, 46, 47, 52, 53, 54, 55, 57, 62}
  {
    Rising32();
    Rising40();
    Rising48();
    Rising56();
    assert RisingBits(0, 64, 0) == {};
  }

  /** The constant's bits are the generator below x^64. */
  lemma Constant64()
    ensures RisingBits(0x42f0_e1eb_a9ea_3693, 0, 64) + {64} == Generator64
  {
    RisingLow();
    RisingHigh();
  }

  lemma Gen32c()
    ensures Gen(Crc32c().poly) == Generator32c
  {
    var poly := Crc32c().poly;
    forall e: nat
      ensures e in RegPoly(poly) <==> e in WordPoly(0x82f6_3b78, 32, false)
    {
      RegHas(poly, e);
      if e < 32 {
        LowFirstBit(0x82f6_3b78, 32, 31 - e);
      }
    }
    Constant32c();
  }

  lemma Gen64()
    ensures Gen(Crc64().poly) == Generator64
  {
    var poly := Crc64().poly;
    forall e: nat
      ensures e in RegPoly(poly) <==> e in RisingBits(0x42f0_e1eb_a9ea_3693, 0, 64)
    {
      RegHas(poly, e);
      if e < 64 {
        LowFirstBit(0x42f0_e1eb_a9ea_3693, 64, e);
      }
    }
    Constant64();
  }

  // ----- the checksums of the on-disk types

  predicate Remaindered(kind: nat) { kind == TypeCrc32c || kind == TypeCrc64 }

  function WidthOf(kind: nat): nat { if kind == TypeCrc32c then 32 else 64 }

  /** CRC-32C takes and keeps bits lowest first, CRC-64 highest first. */
  predicate HighFirst(kind: nat) { kind == TypeCrc64 }

  function Generator(kind: nat): Poly { if kind == TypeCrc32c then Generator32c else Generator64 }

  /** The number the program computes. */
  function ChecksumWord(kind: nat, data: seq<Byte>): nat
    requires Remaindered(kind)
  {
    WordOf(KindOf(kind).crc, Sum(KindOf(kind).crc, data))
  }

  /**
   For every message, the checksum of either type is the remainder of the message times x^32 or
   x^64 modulo the type's generator.
   */
  lemma ChecksumIsRemainder(kind: nat, data: seq<Byte>)
    requires Remaindered(kind)
    ensures var w := WidthOf(kind);
            var r := WordPoly(ChecksumWord(kind, data), w, HighFirst(kind));
            Congruent(Shift(StreamPoly(data, |data|, HighFirst(kind)), w), r, Generator(kind)) && Bounded(r, w)
  {
    var c := KindOf(kind).crc;
    if kind == TypeCrc32c {
      Gen32c();
    } else {
      Gen64();
    }
    FoldCongruent(c, data, |data|);
    MessageIsStream(c, data, |data|);
    WordIsReg(c, Sum(c, data));
  }

  lemma GeneratorDegree(kind: nat)
    ensures HasDegree(Generator(kind), WidthOf(kind))
  {
  }

  /** And no other word of that width is. */
  lemma ChecksumUnique(kind: nat, data: seq<Byte>, r: Poly)
    requires Remaindered(kind) && Bounded(r, WidthOf(kind))
    requires Congruent(Shift(StreamPoly(data, |data|, HighFirst(kind)), WidthOf(kind)), r, Generator(kind))
    ensures r == WordPoly(ChecksumWord(kind, data), WidthOf(kind), HighFirst(kind))
  {
    var w := WidthOf(kind);
    ChecksumIsRemainder(kind, data);
    GeneratorDegree(kind);
    var m := Shift(StreamPoly(data, |data|, HighFirst(kind)), w);
    RemainderUnique(m, r, WordPoly(ChecksumWord(kind, data), w, HighFirst(kind)), Generator(kind), w);
  }
}
