/**
 The life of a bucket: alloc records and the two indexes derived from them, changed together
 in one transaction by allocation, reclaim and discard, checked and repaired by fsck.
 */
module Buckets {
  import opened Arith

  /** Device and bucket number. */
  datatype BPos = BPos(dev: nat, off: nat)

  type Gen = x: nat | x < 256

  datatype Alloc = Alloc(dataType: nat, gen: Gen, oldestGen: Gen, dirty: nat, cached: nat, seqEmpty: nat)

  datatype Member = Member(firstBucket: nat, nbuckets: nat, bucketSize: nat, alive: bool)

  datatype Result<T> = Ok(value: T) | Err(code: int)

  const Free: nat := 0
  const Btree: nat := 3
  const NeedDiscard: nat := 9

  /** 2^56: index positions keep the generation age above it. */
  const AgeUnit: nat := 0x100_0000_0000_0000

  function BitOr(a: nat, b: nat): nat {
    if a == 0 then b else if b == 0 then a
    else 2 * BitOr(a / 2, b / 2) + (if a % 2 == 1 || b % 2 == 1 then 1 else 0)
  }

  function Bit(x: nat, i: nat): bool { if i == 0 then x % 2 == 1 else Bit(x / 2, i - 1) }

  lemma {:induction false} OrBits(a: nat, b: nat, i: nat)
    ensures Bit(BitOr(a, b), i) == (Bit(a, i) || Bit(b, i))
  {
    if a == 0 || b == 0 {
      ZeroBits(i);
    } else if i > 0 {
      OrBits(a / 2, b / 2, i - 1);
    }
  }

  lemma {:induction false} ZeroBits(i: nat)
    ensures !Bit(0, i)
  {
    if i > 0 {
      ZeroBits(i - 1);
    }
  }

  /** Sixteenths of the distance of the generation from the oldest one still referred to. */
  function Age(a: Alloc): (age: nat)
    ensures age < 16
  {
    (a.gen - a.oldestGen) % 256 / 16
  }

  /** The oldest generation and 16 steps per unit of age, and fewer than 16 more, lead to the generation. */
  lemma AgeCounts(a: Alloc) returns (steps: nat)
    ensures 16 * Age(a) <= steps < 16 * Age(a) + 16 && (a.oldestGen + steps) % 256 == a.gen
  {
    steps := (a.gen - a.oldestGen) % 256;
  }

  /** alloc_freespace_pos: the age or-ed into the top byte of the offset. */
  function Encode(p: BPos, a: Alloc): BPos {
    BPos(p.dev, BitOr(p.off / AgeUnit, Age(a)) * AgeUnit + p.off % AgeUnit)
  }

  /** Below 2^56 a device's entries are in order of age, and of bucket number within an age. */
  lemma EncodeOrder(p: BPos, a: Alloc, q: BPos, b: Alloc)
    requires Small(p) && Small(q)
    ensures Encode(p, a).dev == p.dev
    ensures Encode(p, a).off < Encode(q, b).off <==> Age(a) < Age(b) || (Age(a) == Age(b) && p.off < q.off)
  {
    assert p.off / AgeUnit == 0 && q.off / AgeUnit == 0;
  }

  /** The position an index entry stands for. */
  function Decode(x: BPos): BPos { BPos(x.dev, x.off % AgeUnit) }

  predicate Small(p: BPos) { p.off < AgeUnit }

  lemma DecodeEncode(p: BPos, a: Alloc)
    requires Small(p)
    ensures Decode(Encode(p, a)) == p
  {
    assert p.off / AgeUnit == 0;
  }

  type AllocMap = map<BPos, Alloc>

  predicate AllSmall(alloc: AllocMap) {
    forall p | p in alloc :: Small(p)
  }

  function FreeIndex(alloc: AllocMap): set<BPos> {
    set p | p in alloc && alloc[p].dataType == Free :: Encode(p, alloc[p])
  }

  function NeedIndex(alloc: AllocMap): set<BPos> {
    set p | p in alloc && alloc[p].dataType == NeedDiscard
  }

  /** No other free bucket has the entry that bucket `p` has or would have. */
  predicate NoTwin(alloc: AllocMap, p: BPos)
    requires p in alloc
  {
    forall q | q in alloc && q != p && alloc[q].dataType == Free :: Encode(q, alloc[q]) != Encode(p, alloc[p])
  }

  lemma SmallNoTwin(alloc: AllocMap, p: BPos)
    requires AllSmall(alloc) && p in alloc
    ensures NoTwin(alloc, p)
  {
    DecodeEncode(p, alloc[p]);
    forall q | q in alloc && q != p && alloc[q].dataType == Free
      ensures Encode(q, alloc[q]) != Encode(p, alloc[p])
    {
      DecodeEncode(q, alloc[q]);
    }
  }

  /** Taking a bucket's entry out of the index keeps the index exact if and only if no other free bucket shares it. */
  lemma TakeKeepsIff(alloc: AllocMap, p: BPos, a: Alloc)
    requires p in alloc && a.dataType != Free
    ensures FreeIndex(alloc[p := a]) == FreeIndex(alloc) - {Encode(p, alloc[p])} <==> NoTwin(alloc, p)
  {
    var alloc', x := alloc[p := a], Encode(p, alloc[p]);
    if NoTwin(alloc, p) {
      forall y
        ensures y in FreeIndex(alloc') <==> y in FreeIndex(alloc) - {x}
      {
        TakeEntry(alloc, p, a, y);
      }
    } else {
      var q :| q in alloc && q != p && alloc[q].dataType == Free && Encode(q, alloc[q]) == x;
      assert q in alloc' && alloc'[q] == alloc[q];
      assert x in FreeIndex(alloc');
    }
  }

  lemma TakeEntry(alloc: AllocMap, p: BPos, a: Alloc, y: BPos)
    requires p in alloc && a.dataType != Free && NoTwin(alloc, p)
    ensures y in FreeIndex(alloc[p := a]) <==> y in FreeIndex(alloc) - {Encode(p, alloc[p])}
  {
    var alloc' := alloc[p := a];
    if y in FreeIndex(alloc') {
      var q :| q in alloc' && alloc'[q].dataType == Free && y == Encode(q, alloc'[q]);
      assert q in alloc && alloc[q] == alloc'[q];
    }
    if y in FreeIndex(alloc) && y != Encode(p, alloc[p]) {
      var q :| q in alloc && alloc[q].dataType == Free && y == Encode(q, alloc[q]);
      assert q in alloc' && alloc'[q] == alloc[q];
    }
  }

  /** Putting the entry of a bucket that becomes free into the index always keeps it exact. */
  lemma EntersFree(alloc: AllocMap, p: BPos, a: Alloc)
    requires p in alloc && alloc[p].dataType != Free && a.dataType == Free
    ensures FreeIndex(alloc[p := a]) == FreeIndex(alloc) + {Encode(p, a)}
  {
    var alloc' := alloc[p := a];
    forall x
      ensures x in FreeIndex(alloc') <==> x in FreeIndex(alloc) + {Encode(p, a)}
    {
      if x in FreeIndex(alloc) {
        var q :| q in alloc && alloc[q].dataType == Free && x == Encode(q, alloc[q]);
        assert q in alloc' && alloc'[q] == alloc[q];
      }
      assert p in alloc' && alloc'[p] == a;
    }
  }

  /** A record after a reclaim step. */
  function Reclaimed(a: Alloc): Alloc {
    if a.dataType != NeedDiscard then
      var oldest: Gen := if a.oldestGen == a.gen then (a.oldestGen + 1) % 256 else a.oldestGen;
      a.(dataType := NeedDiscard, oldestGen := oldest, gen := (a.gen + 1) % 256)
    else a.(dataType := Free)
  }

  /**
   What a reclaim step makes of a record.  A bucket that becomes need-discard gets the next
   generation, so that no pointer to its old contents is valid any more, and the oldest generation
   stays behind it; a need-discard bucket just becomes free.
   */
  predicate Succeeds(a: Alloc, b: Alloc) {
    && b.dirty == a.dirty && b.cached == a.cached && b.seqEmpty == a.seqEmpty
    && if a.dataType == NeedDiscard then b.dataType == Free && b.gen == a.gen && b.oldestGen == a.oldestGen
       else
         && b.dataType == NeedDiscard && b.gen != a.gen && b.gen == (if a.gen == 255 then 0 else a.gen + 1)
         && b.oldestGen == if a.oldestGen == a.gen then b.gen else a.oldestGen
  }

  lemma ReclaimedSucceeds(a: Alloc)
    ensures Succeeds(a, Reclaimed(a)) && (Reclaimed(a).dataType == Free <==> a.dataType == NeedDiscard)
  {
  }

  /** What the step does to the two indexes, one entry each. */
  lemma MoveKeeps(alloc: AllocMap, p: BPos, a: Alloc)
    requires p in alloc && Succeeds(alloc[p], a)
    ensures alloc[p].dataType == NeedDiscard ==>
      && FreeIndex(alloc[p := a]) == FreeIndex(alloc) + {Encode(p, a)}
      && NeedIndex(alloc[p := a]) == NeedIndex(alloc) - {p}
    ensures alloc[p].dataType != NeedDiscard ==>
      && (FreeIndex(alloc[p := a]) == FreeIndex(alloc) - {Encode(p, alloc[p])} <==> NoTwin(alloc, p))
      && NeedIndex(alloc[p := a]) == NeedIndex(alloc) + {p}
  {
    if alloc[p].dataType == NeedDiscard {
      EntersFree(alloc, p, a);
    } else {
      TakeKeepsIff(alloc, p, a);
    }
  }

  class Engine {
    const members: seq<Member>
    var alloc: AllocMap
    var freespace: set<BPos>
    var needDiscard: set<BPos>
    var open: set<BPos>
    var rw: set<nat>
    var backpointers: set<BPos>
    var lastSeqOndisk: nat

    ghost predicate IndexOk()
      reads this
    {
      freespace == FreeIndex(alloc) && needDiscard == NeedIndex(alloc)
    }

    /** A bucket allocation may take. */
    predicate Usable(dev: nat, p: BPos)
      reads this
    {
      dev < |members| && p.dev == dev && members[dev].firstBucket <= p.off < members[dev].nbuckets
      && p in alloc && alloc[p].dataType == Free
    }

    /** The offsets of a device's buckets that the freespace index lists. */
    function Listed(dev: nat): set<nat>
      reads this
    {
      set x | x in freespace && x.dev == dev :: Decode(x).off
    }

    /** A usable bucket that the index lists; without any entry for the device every usable one will do. */
    predicate Offered(dev: nat, p: BPos)
      reads this
    {
      Usable(dev, p) && (Listed(dev) == {} || p.off in Listed(dev))
    }

    ghost predicate HasOffered(dev: nat)
      reads this
    {
      exists p | p in alloc :: Offered(dev, p)
    }

    ghost predicate HasUsable(dev: nat)
      reads this
    {
      exists p | p in alloc :: Usable(dev, p)
    }

    /** With an exact index and offsets below 2^56 every usable bucket is offered. */
    lemma UsableIsOffered(dev: nat)
      requires IndexOk() && AllSmall(alloc)
      ensures forall p :: Usable(dev, p) <==> Offered(dev, p)
      ensures HasUsable(dev) <==> HasOffered(dev)
    {
      forall p | Usable(dev, p)
        ensures Offered(dev, p)
      {
        var x := Encode(p, alloc[p]);
        DecodeEncode(p, alloc[p]);
        assert x in freespace && x.dev == dev && Decode(x).off == p.off;
      }
    }

    predicate Writable(dev: nat)
      reads this
    {
      dev < |members| && members[dev].bucketSize != 0 && members[dev].alive && dev in rw
    }

    /**
     The first offered bucket of a device, in the order of the scan `keys`.  `commit` is what the
     transaction's commit returns; a failed one changes nothing.  An exact index stays exact if
     and only if no other free bucket shares the entry of the one taken.
     */
    method Allocate(dev: nat, keys: seq<BPos>, commit: int) returns (r: Result<BPos>)
      requires forall p :: p in keys <==> p in alloc
      modifies this`alloc, this`freespace
      ensures r.Err? ==> alloc == old(alloc) && freespace == old(freespace)
      ensures r.Ok? ==>
        old(Offered(dev, r.value)) && alloc == old(alloc)[r.value := old(alloc)[r.value].(dataType := Btree)]
      ensures r.Ok? ==>
        exists i :: 0 <= i < |keys| && keys[i] == r.value && forall j :: 0 <= j < i ==> !old(Offered(dev, keys[j]))
      ensures r.Err? ==> r.code == if !Writable(dev) then -1 else if !old(HasOffered(dev)) then -28 else commit
      ensures r.Ok? <==> Writable(dev) && commit == 0 && old(HasOffered(dev))
      ensures old(IndexOk()) ==> (IndexOk() <==> (r.Ok? ==> NoTwin(old(alloc), r.value)))
    {
      if !Writable(dev) {
        return Err(-1);
      }
      var i := FirstOffered(dev, keys);
      if i == |keys| {
        return Err(-28);
      }
      if commit != 0 {
        return Err(commit);
      }
      Take(keys[i]);
      r := Ok(keys[i]);
    }

    /** Below 2^56 allocation succeeds whenever a bucket is usable, and the indexes stay exact. */
    method AllocateSmall(dev: nat, keys: seq<BPos>, commit: int) returns (r: Result<BPos>)
      requires IndexOk() && AllSmall(alloc) && forall p :: p in keys <==> p in alloc
      modifies this`alloc, this`freespace
      ensures IndexOk() && (r.Ok? <==> Writable(dev) && commit == 0 && old(HasUsable(dev)))
    {
      UsableIsOffered(dev);
      ghost var before := alloc;
      r := Allocate(dev, keys, commit);
      if r.Ok? {
        SmallNoTwin(before, r.value);
      }
    }

    method Take(p: BPos)
      requires p in alloc && alloc[p].dataType == Free
      modifies this`alloc, this`freespace
      ensures alloc == old(alloc)[p := old(alloc)[p].(dataType := Btree)]
      ensures old(IndexOk()) ==> (IndexOk() <==> NoTwin(old(alloc), p))
    {
      var a := alloc[p].(dataType := Btree);
      TakeKeepsIff(alloc, p, a);
      freespace := freespace - {Encode(p, alloc[p])};
      alloc := alloc[p := a];
    }

    method FirstOffered(dev: nat, keys: seq<BPos>) returns (i: nat)
      requires dev < |members| && forall p :: p in keys <==> p in alloc
      ensures i <= |keys| && forall j :: 0 <= j < i ==> !Offered(dev, keys[j])
      ensures i < |keys| ==> Offered(dev, keys[i])
      ensures i < |keys| <==> HasOffered(dev)
    {
      var candidates := Listed(dev);
      i := 0;
      while i < |keys|
        invariant i <= |keys| && forall j :: 0 <= j < i ==> !Offered(dev, keys[j])
      {
        var p := keys[i];
        assert p in keys;
        if p.dev == dev && members[dev].firstBucket <= p.off < members[dev].nbuckets
           && (candidates == {} || p.off in candidates) && alloc[p].dataType == Free {
          return;
        }
        i := i + 1;
      }
    }

    /** A bucket the device has. */
    predicate InRange(p: BPos)
      reads this
    {
      && p.dev < |members| && members[p.dev].bucketSize != 0
      && members[p.dev].firstBucket <= p.off < members[p.dev].nbuckets
    }

    /** What reclaim asks of a bucket before it looks at the alloc record. */
    predicate Reclaimable(p: BPos)
      reads this
    {
      && InRange(p) && p !in open && p.dev in rw
      && forall b | b in backpointers :: !Overlaps(p, members[p.dev].bucketSize, b)
    }

    /** What reclaim asks of the alloc record. */
    predicate Emptied(p: BPos)
      reads this
    {
      p in alloc && alloc[p].dirty == 0 && alloc[p].cached == 0
      && (alloc[p].dataType == NeedDiscard ==> alloc[p].seqEmpty <= lastSeqOndisk)
    }

    /**
     One reclaim step: an empty bucket becomes need-discard, a need-discard one past its journal
     sequence becomes free.  Exact indexes stay exact if and only if a bucket that becomes
     need-discard shares its freespace entry with no other.
     */
    method Reclaim(p: BPos, commit: int) returns (r: Result<bool>)
      modifies this`alloc, this`freespace, this`needDiscard
      ensures r.Ok? <==> Reclaimable(p) && old(Emptied(p)) && commit == 0
      ensures r.Ok? ==>
        p in old(alloc) && p in alloc && alloc == old(alloc)[p := alloc[p]] && Succeeds(old(alloc)[p], alloc[p])
      ensures r.Err? ==> r.code == if old(WhyNot(p)) != 0 then old(WhyNot(p)) else commit
      ensures r.Err? ==> alloc == old(alloc) && freespace == old(freespace) && needDiscard == old(needDiscard)
      ensures old(IndexOk()) ==>
        (IndexOk() <==> (r.Ok? && old(alloc)[p].dataType != NeedDiscard ==> NoTwin(old(alloc), p)))
      ensures old(IndexOk() && AllSmall(alloc)) ==> IndexOk()
    {
      var code := CheckReclaim(p);
      if code != 0 {
        return Err(code);
      }
      if commit != 0 {
        return Err(commit);
      }
      if AllSmall(alloc) {
        SmallNoTwin(alloc, p);
      }
      Move(p);
      r := Ok(true);
    }

    /** Why a bucket cannot be reclaimed: no such bucket, busy, no record, still needed by the journal; 0 if it can. */
    function WhyNot(p: BPos): int
      reads this
    {
      if !InRange(p) then -1
      else if !Reclaimable(p) then -16
      else if p !in alloc then -2
      else if alloc[p].dirty != 0 || alloc[p].cached != 0 then -16
      else if !Emptied(p) then -11
      else 0
    }

    method CheckReclaim(p: BPos) returns (code: int)
      ensures code == WhyNot(p) && (code == 0 <==> Reclaimable(p) && Emptied(p))
    {
      if p.dev >= |members| || members[p.dev].bucketSize == 0 {
        return -1;
      }
      if p.off < members[p.dev].firstBucket || p.off >= members[p.dev].nbuckets {
        return -1;
      }
      if p in open || p.dev !in rw {
        return -16;
      }
      if exists b | b in backpointers :: Overlaps(p, members[p.dev].bucketSize, b) {
        return -16;
      }
      if p !in alloc {
        return -2;
      }
      var a := alloc[p];
      if a.dirty != 0 || a.cached != 0 {
        return -16;
      }
      if a.dataType == NeedDiscard && a.seqEmpty > lastSeqOndisk {
        return -11;
      }
      code := 0;
    }

    /** The transaction: the record and both indexes. */
    method Move(p: BPos)
      requires p in alloc
      modifies this`alloc, this`freespace, this`needDiscard
      ensures p in alloc && alloc == old(alloc)[p := alloc[p]] && Succeeds(old(alloc)[p], alloc[p])
      ensures old(IndexOk()) ==> (IndexOk() <==> (old(alloc)[p].dataType != NeedDiscard ==> NoTwin(old(alloc), p)))
    {
      var a := alloc[p];
      var a' := Reclaimed(a);
      ReclaimedSucceeds(a);
      MoveKeeps(alloc, p, a');
      if a'.dataType == Free {
        freespace := freespace + {Encode(p, a')};
        needDiscard := needDiscard - {p};
      } else {
        freespace := freespace - {Encode(p, a)};
        needDiscard := needDiscard + {p};
      }
      alloc := alloc[p := a'];
    }

    /** Anything but a need-discard bucket the journal is done with is put off, before reclaim has its say. */
    function WhyNoDiscard(p: BPos): int
      reads this
    {
      if p.dev >= |members| then -1
      else if p !in alloc then -2
      else if alloc[p].dataType != NeedDiscard || alloc[p].seqEmpty > lastSeqOndisk then -11
      else if p in open || p.dev !in rw then -11
      else WhyNot(p)
    }

    /** Free a need-discard bucket, exactly when reclaim would; anything else is refused. */
    method Discard(p: BPos, commit: int) returns (r: Result<bool>)
      modifies this`alloc, this`freespace, this`needDiscard
      ensures r.Ok? <==>
        Reclaimable(p) && old(Emptied(p)) && old(alloc)[p].dataType == NeedDiscard && commit == 0
      ensures r.Ok? ==> p in old(alloc) && alloc == old(alloc)[p := old(alloc)[p].(dataType := Free)]
      ensures r.Err? ==> r.code == if old(WhyNoDiscard(p)) != 0 then old(WhyNoDiscard(p)) else commit
      ensures r.Err? ==> alloc == old(alloc) && freespace == old(freespace) && needDiscard == old(needDiscard)
      ensures old(IndexOk()) ==> IndexOk()
    {
      if p.dev >= |members| {
        return Err(-1);
      }
      if p !in alloc {
        return Err(-2);
      }
      if alloc[p].dataType != NeedDiscard || alloc[p].seqEmpty > lastSeqOndisk {
        return Err(-11);
      }
      if p in open || p.dev !in rw {
        return Err(-11);
      }
      r := Reclaim(p, commit);
    }

    // ----- checking and repairing

    /**
     The fsck check of both indexes.  It accepts exact indexes if and only if no two free buckets
     share an entry and every entry, cut to 56 bits, names a free bucket.
     */
    method Verify() returns (r: Result<bool>)
      ensures r.Ok? <==> IndexOk() && Unshared(alloc) && Decodable(alloc)
      ensures AllSmall(alloc) ==> (r.Ok? <==> IndexOk())
      ensures r == Err(2) <==> freespace == FreeIndex(alloc) && Unshared(alloc) && Decodable(alloc) && !IndexOk()
      ensures r.Err? ==> r.code == 1 || r.code == 2
    {
      AcceptsIff(alloc);
      if !Accepted(freespace, FreeBuckets(alloc)) || freespace != FreeIndex(alloc) {
        return Err(1);
      }
      if NeedIndex(alloc) != needDiscard {
        return Err(2);
      }
      r := Ok(true);
    }

    /** Entries that are stale or missing, in both indexes. */
    function WrongEntries(): nat
      reads this
    {
      Wrong(freespace, FreeIndex(alloc)) + Wrong(needDiscard, NeedIndex(alloc))
    }

    /**
     Bring both indexes in line with the alloc records, one entry to a transaction; the repair
     aborts at the transaction after the first `budget` ones.  It finishes exactly when there are
     no more wrong entries than that, and otherwise has put that many right.
     */
    method Repair(budget: nat) returns (done: bool, left: nat)
      modifies this`freespace, this`needDiscard
      ensures done <==> budget >= old(WrongEntries())
      ensures done ==> IndexOk() && left == budget - old(WrongEntries())
      ensures !done ==> WrongEntries() == old(WrongEntries()) - budget
      ensures CloserThan(old(freespace), old(needDiscard))
    {
      var s;
      done, left, s := Sync(freespace, FreeIndex(alloc), budget);
      freespace := s;
      if done {
        done, left, s := Sync(needDiscard, NeedIndex(alloc), left);
        needDiscard := s;
      }
    }

    lemma NoneWrongIff()
      ensures WrongEntries() == 0 <==> IndexOk()
    {
      NoneWrong(freespace, FreeIndex(alloc));
      NoneWrong(needDiscard, NeedIndex(alloc));
    }

    /**
     Run the repair again and again, aborted at any point each time: the indexes are right in the
     end exactly when the runs together could commit as many transactions as there were wrong
     entries, and so whenever there are that many runs that each commit at least one.
     */
    method Rerun(budgets: seq<nat>)
      modifies this`freespace, this`needDiscard
      ensures IndexOk() <==> Sum(budgets, |budgets|) >= old(WrongEntries())
      ensures |budgets| >= old(WrongEntries()) && (forall i :: 0 <= i < |budgets| ==> budgets[i] >= 1) ==> IndexOk()
      ensures CloserThan(old(freespace), old(needDiscard))
    {
      ghost var f, n, wrong := freespace, needDiscard, WrongEntries();
      for i := 0 to |budgets|
        invariant WrongEntries() == Monus(wrong, Sum(budgets, i))
        invariant CloserThan(f, n)
      {
        Attempt(budgets[i], f, n);
      }
      NoneWrongIff();
      if forall i :: 0 <= i < |budgets| ==> budgets[i] >= 1 {
        SumAtLeast(budgets, |budgets|);
      }
    }

    /** One more run of the repair, for indexes that began as `f` and `n`. */
    method Attempt(budget: nat, ghost f: set<BPos>, ghost n: set<BPos>)
      requires CloserThan(f, n)
      modifies this`freespace, this`needDiscard
      ensures WrongEntries() == Monus(old(WrongEntries()), budget)
      ensures CloserThan(f, n)
    {
      ghost var f', n' := freespace, needDiscard;
      var done, left := Repair(budget);
      NoneWrongIff();
      CloserTrans(f, f', freespace, FreeIndex(alloc));
      CloserTrans(n, n', needDiscard, NeedIndex(alloc));
    }

    /** Since the indexes were `f` and `n`, nothing right was undone and nothing wrong added. */
    ghost predicate CloserThan(f: set<BPos>, n: set<BPos>)
      reads this
    {
      Closer(f, freespace, FreeIndex(alloc)) && Closer(n, needDiscard, NeedIndex(alloc))
    }
  }

  // ----- repairing one index

  function Wrong(index: set<BPos>, target: set<BPos>): nat { |index - target| + |target - index| }

  lemma NoneWrong(index: set<BPos>, target: set<BPos>)
    ensures Wrong(index, target) == 0 <==> index == target
  {
    assert index == (index * target) + (index - target);
    assert target == (index * target) + (target - index);
  }

  function Monus(a: nat, b: nat): nat { if a <= b then 0 else a - b }

  function Sum(budgets: seq<nat>, n: nat): nat
    requires n <= |budgets|
  {
    if n == 0 then 0 else Sum(budgets, n - 1) + budgets[n - 1]
  }

  lemma {:induction false} SumAtLeast(budgets: seq<nat>, n: nat)
    requires n <= |budgets| && forall i :: 0 <= i < |budgets| ==> budgets[i] >= 1
    ensures Sum(budgets, n) >= n
  {
    if n > 0 {
      SumAtLeast(budgets, n - 1);
    }
  }

  const U64Max: nat := 0xffff_ffff_ffff_ffff

  /** Arithmetic that stops at the largest 64-bit number. */
  function Saturate(x: nat): nat { if x < U64Max then x else U64Max }

  /** A backpointer into the sectors of bucket `p`. */
  predicate Overlaps(p: BPos, bucketSize: nat, b: BPos) {
    var start := Saturate(p.off * bucketSize);
    b.dev == p.dev && start <= b.off < Saturate(start + bucketSize)
  }

  /** A backpointer overlaps exactly the bucket its sector is in, short of the last sector number. */
  lemma OverlapsIff(p: BPos, bucketSize: nat, b: BPos)
    requires bucketSize > 0
    ensures Overlaps(p, bucketSize, b) <==> b.dev == p.dev && b.off / bucketSize == p.off && b.off < U64Max
  {
    var start := p.off * bucketSize;
    if start <= b.off < start + bucketSize {
      DivUnique(b.off, bucketSize, p.off, b.off - start);
    } else {
      var q := b.off / bucketSize;
      assert b.off == bucketSize * q + b.off % bucketSize;
      assert q == p.off ==> bucketSize * q == start;
    }
  }

  /** What was right stays right. */
  predicate Closer(before: set<BPos>, after: set<BPos>, target: set<BPos>) {
    before * target <= after && after <= before + target
  }

  lemma CloserTrans(a: set<BPos>, b: set<BPos>, c: set<BPos>, target: set<BPos>)
    requires Closer(a, b, target) && Closer(b, c, target)
    ensures Closer(a, c, target)
  {
  }

  /** Delete stale entries, then insert missing ones, one transaction each. */
  method Sync(index: set<BPos>, target: set<BPos>, budget: nat) returns (done: bool, left: nat, s: set<BPos>)
    ensures done <==> budget >= Wrong(index, target)
    ensures done ==> s == target && left == budget - Wrong(index, target)
    ensures !done ==> left == 0 && Wrong(s, target) == Wrong(index, target) - budget
    ensures Closer(index, s, target)
  {
    done, left, s := DeleteStale(index, target, budget);
    if done {
      done, left, s := InsertMissing(index, target, left);
    }
  }

  method DeleteStale(index: set<BPos>, target: set<BPos>, budget: nat) returns (done: bool, left: nat, s: set<BPos>)
    ensures done <==> budget >= |index - target|
    ensures done ==> s == index * target && left == budget - |index - target|
    ensures !done ==> left == 0 && |s - target| == |index - target| - budget && target - s == target - index
    ensures index * target <= s <= index
  {
    s, left := index, budget;
    var stale := index - target;
    while stale != {}
      invariant s == index * target + stale && stale <= index - target
      invariant left + |index - target| == budget + |stale|
      decreases |stale|
    {
      if left == 0 {
        assert s - target == stale;
        return false, left, s;
      }
      var x :| x in stale;
      s, stale, left := s - {x}, stale - {x}, left - 1;
    }
    done := true;
  }

  method InsertMissing(index: set<BPos>, target: set<BPos>, budget: nat) returns (done: bool, left: nat, s: set<BPos>)
    ensures done <==> budget >= |target - index|
    ensures done ==> s == target && left == budget - |target - index|
    ensures !done ==> left == 0 && |target - s| == |target - index| - budget && s - target == {}
    ensures index * target <= s <= target
  {
    s, left := index * target, budget;
    var missing := target - index;
    while missing != {}
      invariant s == target - missing && missing <= target - index
      invariant left + |target - index| == budget + |missing|
      decreases |missing|
    {
      if left == 0 {
        assert target - s == missing;
        return false, left, s;
      }
      var x :| x in missing;
      s, missing, left := s + {x}, missing - {x}, left - 1;
    }
    done := true;
  }

  // ----- when the check accepts an exact index

  /** No two free buckets share an entry. */
  predicate Unshared(alloc: AllocMap) {
    forall p | p in alloc && alloc[p].dataType == Free :: NoTwin(alloc, p)
  }

  /** Cut to 56 bits, a free bucket's number is a free bucket's. */
  predicate Decodable(alloc: AllocMap) {
    forall p | p in alloc && alloc[p].dataType == Free :: Decode(p) in alloc && alloc[Decode(p)].dataType == Free
  }

  lemma SmallIsExact(alloc: AllocMap)
    requires AllSmall(alloc)
    ensures Unshared(alloc) && Decodable(alloc)
  {
    forall p | p in alloc
      ensures NoTwin(alloc, p)
    {
      SmallNoTwin(alloc, p);
    }
  }

  function FreeBuckets(alloc: AllocMap): (s: set<BPos>)
    ensures s <= alloc.Keys
  {
    set p | p in alloc && alloc[p].dataType == Free
  }

  predicate Decodes(index: set<BPos>, free: set<BPos>) {
    forall x | x in index :: Decode(x) in free
  }

  /** As many entries as free buckets, and each entry names one of them. */
  predicate Accepted(index: set<BPos>, free: set<BPos>) {
    |free| == |index| && Decodes(index, free)
  }

  lemma AcceptsIff(alloc: AllocMap)
    ensures Accepted(FreeIndex(alloc), FreeBuckets(alloc)) <==> Unshared(alloc) && Decodable(alloc)
    ensures AllSmall(alloc) ==> Unshared(alloc) && Decodable(alloc)
  {
    CountIff(alloc);
    DecodesIff(alloc);
    if AllSmall(alloc) {
      SmallIsExact(alloc);
    }
  }

  lemma DecodesIff(alloc: AllocMap)
    ensures Decodes(FreeIndex(alloc), FreeBuckets(alloc)) <==> Decodable(alloc)
  {
    forall p | p in alloc
      ensures Decode(Encode(p, alloc[p])) == Decode(p)
    {
      DecodeOfEncode(p, alloc[p]);
    }
    if Decodes(FreeIndex(alloc), FreeBuckets(alloc)) {
      forall p | p in alloc && alloc[p].dataType == Free
        ensures Decode(p) in alloc && alloc[Decode(p)].dataType == Free
      {
        assert Encode(p, alloc[p]) in FreeIndex(alloc);
      }
    }
  }

  lemma DecodeOfEncode(p: BPos, a: Alloc)
    ensures Decode(Encode(p, a)) == Decode(p)
  {
    var top := BitOr(p.off / AgeUnit, Age(a));
    assert (top * AgeUnit + p.off % AgeUnit) % AgeUnit == p.off % AgeUnit;
  }

  /** Entries and free buckets correspond one to one exactly when no entry is shared. */
  lemma CountIff(alloc: AllocMap)
    ensures |FreeBuckets(alloc)| == |FreeIndex(alloc)| <==> Unshared(alloc)
  {
    var free := FreeBuckets(alloc);
    assert FreeIndex(alloc) == Image(alloc, free);
    ImageCount(alloc, free);
    if Unshared(alloc) {
      forall p, q | p in free && q in free && p != q
        ensures Encode(p, alloc[p]) != Encode(q, alloc[q])
      {
        assert NoTwin(alloc, p);
      }
    }
  }

  function Image(alloc: AllocMap, s: set<BPos>): set<BPos>
    requires s <= alloc.Keys
  {
    set p | p in s :: Encode(p, alloc[p])
  }

  predicate Injective(alloc: AllocMap, s: set<BPos>)
    requires s <= alloc.Keys
  {
    forall p, q | p in s && q in s && p != q :: Encode(p, alloc[p]) != Encode(q, alloc[q])
  }

  lemma {:induction false} ImageCount(alloc: AllocMap, s: set<BPos>)
    requires s <= alloc.Keys
    ensures |Image(alloc, s)| <= |s| && (|Image(alloc, s)| == |s| <==> Injective(alloc, s))
    decreases |s|
  {
    if s != {} {
      var p :| p in s;
      var s', x := s - {p}, Encode(p, alloc[p]);
      ImageCount(alloc, s');
      assert Image(alloc, s) == Image(alloc, s') + {x};
      if x in Image(alloc, s') {
        var q :| q in s' && Encode(q, alloc[q]) == x;
        assert p in s && q in s && p != q;
      } else {
        forall q | q in s'
          ensures Encode(q, alloc[q]) != x
        {
          assert Encode(q, alloc[q]) in Image(alloc, s');
        }
      }
    }
  }

  // ----- offsets of 2^56 and more

  /** Two free buckets that share an entry: taking one of them drops the other from the index. */
  lemma LargeOffsetsCollide()
    ensures var a, b := Alloc(Free, 0, 0, 0, 0, 0), Alloc(Free, 16, 0, 0, 0, 0);
            var p, q := BPos(0, AgeUnit + 5), BPos(0, 5);
            !NoTwin(map[p := a, q := b], p)
  {
    var a, b := Alloc(Free, 0, 0, 0, 0, 0), Alloc(Free, 16, 0, 0, 0, 0);
    var p, q := BPos(0, AgeUnit + 5), BPos(0, 5);
    assert (AgeUnit + 5) / AgeUnit == 1 && (AgeUnit + 5) % AgeUnit == 5;
    assert BitOr(1, 0) == 1 && BitOr(0, 1) == 1;
    var alloc := map[p := a, q := b];
    assert q in alloc && q != p && alloc[q] == b && Encode(p, a) == Encode(q, b);
  }

  /** A free bucket that allocation passes over because the index lists its cut-off number. */
  lemma LargeOffsetPassedOver()
    ensures var a := Alloc(Free, 0, 0, 0, 0, 0);
            var p := BPos(0, AgeUnit + 5);
            !Decodable(map[p := a]) && forall x | x in FreeIndex(map[p := a]) :: Decode(x).off != p.off
  {
    var a, p := Alloc(Free, 0, 0, 0, 0, 0), BPos(0, AgeUnit + 5);
    assert (AgeUnit + 5) % AgeUnit == 5;
    DecodeOfEncode(p, a);
    var alloc := map[p := a];
    assert p in alloc && Decode(p) !in alloc;
  }
}
