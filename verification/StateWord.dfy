/**
 The packed 64-bit reservation word: 22 bits of offset, 2 bits of slot index and four
 10-bit counts.  Bit masks and shifts of the source are division and remainder by powers
 of two here.
 */
module StateWord {
  import opened Arith

  const CountMax: nat := 0x3ff

  function CountUnit(idx: nat): nat
    requires idx < 4
  {
    if idx == 0 then 0x100_0000
    else if idx == 1 then 0x4_0000_0000
    else if idx == 2 then 0x1000_0000_0000
    else 0x40_0000_0000_0000
  }

  function StateOffset(v: nat): nat { v % 0x40_0000 }

  function StateIdx(v: nat): nat { v / 0x40_0000 % 4 }

  function StateCount(v: nat, idx: nat): nat
    requires idx < 4
  {
    v / CountUnit(idx) % 0x400
  }

  function StateSetOffset(v: nat, offset: nat): nat { v - StateOffset(v) + offset }

  function StateSetIdx(v: nat, idx: nat): nat { v - StateIdx(v) * 0x40_0000 + idx * 0x40_0000 }

  function StateInc(v: nat, idx: nat): nat
    requires idx < 4
  {
    v + CountUnit(idx)
  }

  function StateDec(v: nat, idx: nat): int
    requires idx < 4
  {
    v - CountUnit(idx)
  }

  /** The counts of the four slots. */
  datatype Counts = Counts(c0: nat, c1: nat, c2: nat, c3: nat)
  {
    function At(i: nat): nat
      requires i < 4
    {
      if i == 0 then c0 else if i == 1 then c1 else if i == 2 then c2 else c3
    }

    function With(i: nat, n: nat): Counts
      requires i < 4
    {
      if i == 0 then this.(c0 := n) else if i == 1 then this.(c1 := n)
      else if i == 2 then this.(c2 := n) else this.(c3 := n)
    }
  }

  const NoCounts: Counts := Counts(0, 0, 0, 0)

  /** `v` is the word with these fields. */
  ghost predicate WordIs(v: nat, offset: nat, idx: nat, c: Counts) {
    && offset < 0x40_0000 && idx < 4
    && c.c0 < 0x400 && c.c1 < 0x400 && c.c2 < 0x400 && c.c3 < 0x400
    && v == offset + idx * 0x40_0000 + c.c0 * 0x100_0000 + c.c1 * 0x4_0000_0000 + c.c2 * 0x1000_0000_0000
            + c.c3 * 0x40_0000_0000_0000
  }

  /** A field of width `width` between the bits below it and the bits above it. */
  lemma FieldAt(v: nat, low: nat, unit: nat, field: nat, width: nat, high: nat)
    requires low < unit && field < width && v == low + unit * (field + width * high)
    ensures v / unit % width == field
  {
    DivUnique(v, unit, field + width * high, low);
    DivUnique(field + width * high, width, high, field);
  }

  lemma UnpackOffset(v: nat, offset: nat, idx: nat, c: Counts)
    requires WordIs(v, offset, idx, c)
    ensures StateOffset(v) == offset && StateIdx(v) == idx
  {
    var high := c.c0 + c.c1 * 0x400 + c.c2 * 0x10_0000 + c.c3 * 0x4000_0000;
    DivUnique(v, 0x40_0000, idx + 4 * high, offset);
    FieldAt(v, offset, 0x40_0000, idx, 4, high);
  }

  lemma UnpackCount(v: nat, offset: nat, idx: nat, c: Counts, i: nat)
    requires WordIs(v, offset, idx, c) && i < 4
    ensures StateCount(v, i) == c.At(i)
  {
    var low0 := offset + idx * 0x40_0000;
    var low1 := low0 + c.c0 * 0x100_0000;
    var low2 := low1 + c.c1 * 0x4_0000_0000;
    var low3 := low2 + c.c2 * 0x1000_0000_0000;
    if i == 0 {
      FieldAt(v, low0, 0x100_0000, c.c0, 0x400, c.c1 + c.c2 * 0x400 + c.c3 * 0x10_0000);
    } else if i == 1 {
      FieldAt(v, low1, 0x4_0000_0000, c.c1, 0x400, c.c2 + c.c3 * 0x400);
    } else if i == 2 {
      FieldAt(v, low2, 0x1000_0000_0000, c.c2, 0x400, c.c3);
    } else {
      FieldAt(v, low3, 0x40_0000_0000_0000, c.c3, 0x400, 0);
    }
  }

  // Each operation changes one field and no other.

  lemma SetOffsetWord(v: nat, offset: nat, idx: nat, c: Counts, offset': nat)
    requires WordIs(v, offset, idx, c) && offset' < 0x40_0000
    ensures WordIs(StateSetOffset(v, offset'), offset', idx, c)
  {
    UnpackOffset(v, offset, idx, c);
  }

  lemma SetIdxWord(v: nat, offset: nat, idx: nat, c: Counts, idx': nat)
    requires WordIs(v, offset, idx, c) && idx' < 4
    ensures WordIs(StateSetIdx(v, idx'), offset, idx', c)
  {
    UnpackOffset(v, offset, idx, c);
  }

  lemma IncWord(v: nat, offset: nat, idx: nat, c: Counts, i: nat)
    requires WordIs(v, offset, idx, c) && i < 4 && c.At(i) < CountMax
    ensures WordIs(StateInc(v, i), offset, idx, c.With(i, c.At(i) + 1))
  {
  }

  lemma DecWord(v: nat, offset: nat, idx: nat, c: Counts, i: nat)
    requires WordIs(v, offset, idx, c) && i < 4 && c.At(i) > 0
    ensures StateDec(v, i) >= 0 && WordIs(StateDec(v, i), offset, idx, c.With(i, c.At(i) - 1))
  {
  }
}
