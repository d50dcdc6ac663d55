/**
 Room in the log: when a flush finds a bucket to write to, what reclaim frees, and that a journal
 with nothing left to do always goes on.
 */
module JournalSpace {
  import opened JournalModel
  import opened JournalRead
  import opened JournalRing
  import opened JournalRecovery
  import opened JournalPins
  import opened JournalRuns

  // ----- the result of a write

  /** Buckets from the one after the current up to the first not discarded. */
  function FreeAhead<U>(d: Device<U>): nat
    requires d.Shaped()
  {
    Dist(Next(d.curIdx, d.nr), d.discardIdx, d.nr)
  }

  /** It fits the current bucket, or there is a free one; one more is kept back while nothing is dirty on disk only. */
  predicate RoomFor<U>(d: Device<U>, sectors: nat)
    requires d.Shaped()
  {
    sectors <= d.sectorsFree || FreeAhead(d) >= (if d.dirtyIdxOndisk == d.dirtyIdx then 2 else 1)
  }

  lemma FreeIsAvailable<U>(d: Device<U>)
    requires d.Shaped()
    ensures Available(d, d.discardIdx)
         == if FreeAhead(d) > 0 && d.dirtyIdxOndisk == d.dirtyIdx then FreeAhead(d) - 1 else FreeAhead(d)
  {
    AvailableIsDistance(d);
    NextIsWrap(d.curIdx, d.nr);
  }

  /** -4 for a record larger than a bucket, -9 exactly when there is no room, -5 if the write fails, else 0. */
  lemma WriteCode<U>(d: Device<U>, r: Record<U>, fault: bool)
    requires d.Shaped()
    ensures WriteRecord(d, r, fault).0
         == if r.sectors > d.bucketSize then -4
            else if !RoomFor(d, r.sectors) then -9
            else if fault then -5
            else 0
  {
    FreeIsAvailable(d);
  }

  /** The bucket a record goes to and what is left of it; a refused record changes nothing. */
  lemma WriteEffect<U>(d: Device<U>, r: Record<U>, fault: bool)
    requires d.Shaped()
    ensures var (code, d') := WriteRecord(d, r, fault);
            var at := if r.sectors <= d.sectorsFree then d.curIdx else Next(d.curIdx, d.nr);
            var was := if r.sectors <= d.sectorsFree then d.disk[at] else [];
            && (code == -4 || code == -9 ==> d' == d)
            && (code == 0 || code == -5 ==>
                  && d'.curIdx == at && d'.disk == d.disk[at := if code == 0 then was + [r] else was]
                  && d'.sectorsFree + (if code == 0 then r.sectors else 0)
                       == (if r.sectors <= d.sectorsFree then d.sectorsFree else d.bucketSize)
                  && d'.discardIdx == d.discardIdx && d'.dirtyIdx == d.dirtyIdx
                  && d'.dirtyIdxOndisk == d.dirtyIdxOndisk
                  && d'.bucketSeq == if code == 0 || at != d.curIdx then d.bucketSeq[at := r.seqno] else d.bucketSeq)
  {
    FreeIsAvailable(d);
  }

  // ----- where reclaim leaves the indices

  /** The bucket `k` steps on. */
  function Ahead(i: nat, k: nat, nr: nat): (a: nat)
    requires i < nr && k < nr
    ensures a < nr
  {
    if i + k < nr then i + k else i + k - nr
  }

  /** `at` is the first bucket from `from` on that still has something from `seq` on, or else `to`. */
  ghost predicate FirstNeeded<U>(d: Device<U>, from: nat, to: nat, seqno: nat, at: nat) {
    && d.Shaped() && from < d.nr && to < d.nr && at < d.nr
    && Dist(from, at, d.nr) <= Dist(from, to, d.nr)
    && (forall k | 0 <= k < Dist(from, at, d.nr) :: d.bucketSeq[Ahead(from, k, d.nr)] < seqno)
    && (at == to || d.bucketSeq[at] >= seqno)
  }

  /** One step on in a walk to the first bucket needed. */
  lemma FirstFromNext<U>(d: Device<U>, from: nat, to: nat, seqno: nat, at: nat)
    requires d.Shaped() && from < d.nr && to < d.nr && from != to && d.bucketSeq[from] < seqno
    requires FirstNeeded(d, Next(from, d.nr), to, seqno, at)
    ensures FirstNeeded(d, from, to, seqno, at)
  {
    NextIsWrap(from, d.nr);
    var next := Next(from, d.nr);
    assert Dist(from, at, d.nr) == Dist(next, at, d.nr) + 1;
    forall k | 0 <= k < Dist(from, at, d.nr)
      ensures d.bucketSeq[Ahead(from, k, d.nr)] < seqno
    {
      if k > 0 {
        assert Ahead(from, k, d.nr) == Ahead(next, k - 1, d.nr);
      }
    }
  }

  lemma {:induction false} DirtyStands<U>(d: Device<U>, lastSeq: nat)
    requires d.Shaped()
    ensures FirstNeeded(d, d.dirtyIdx, d.curIdx, lastSeq, AdvanceDirty(d, lastSeq).dirtyIdx)
    decreases Dist(d.dirtyIdx, d.curIdx, d.nr)
  {
    if d.dirtyIdx != d.curIdx && d.bucketSeq[d.dirtyIdx] < lastSeq {
      DistNextLeft(d.dirtyIdx, d.curIdx, d.nr);
      var d' := d.(dirtyIdx := Next(d.dirtyIdx, d.nr));
      DirtyStands(d', lastSeq);
      var at := AdvanceDirty(d', lastSeq).dirtyIdx;
      assert FirstNeeded(d, d'.dirtyIdx, d.curIdx, lastSeq, at);
      FirstFromNext(d, d.dirtyIdx, d.curIdx, lastSeq, at);
    }
  }

  lemma {:induction false} OndiskStands<U>(d: Device<U>, lastSeqOndisk: nat)
    requires d.Shaped()
    ensures FirstNeeded(d, d.dirtyIdxOndisk, d.dirtyIdx, lastSeqOndisk, AdvanceOndisk(d, lastSeqOndisk).dirtyIdxOndisk)
    decreases Dist(d.dirtyIdxOndisk, d.dirtyIdx, d.nr)
  {
    if d.dirtyIdxOndisk != d.dirtyIdx && d.bucketSeq[d.dirtyIdxOndisk] < lastSeqOndisk {
      DistNextLeft(d.dirtyIdxOndisk, d.dirtyIdx, d.nr);
      var d' := d.(dirtyIdxOndisk := Next(d.dirtyIdxOndisk, d.nr));
      OndiskStands(d', lastSeqOndisk);
      var at := AdvanceOndisk(d', lastSeqOndisk).dirtyIdxOndisk;
      assert FirstNeeded(d, d'.dirtyIdxOndisk, d.dirtyIdx, lastSeqOndisk, at);
      FirstFromNext(d, d.dirtyIdxOndisk, d.dirtyIdx, lastSeqOndisk, at);
    }
  }

  /** The dirty index is at the first bucket memory needs, the others at the first the disk needs; all else is kept. */
  ghost predicate Reclaimed<U>(j: Journal<U>, j': Journal<U>) {
    var d, d' := j.dev, j'.dev;
    && d'.Shaped()
    && FirstNeeded(d, d.dirtyIdx, d.curIdx, j.lastSeq, d'.dirtyIdx)
    && FirstNeeded(d, d.dirtyIdxOndisk, d'.dirtyIdx, j.lastSeqOndisk, d'.dirtyIdxOndisk)
    && d'.discardIdx == d'.dirtyIdxOndisk
    && d' == d.(dirtyIdx := d'.dirtyIdx, dirtyIdxOndisk := d'.dirtyIdxOndisk, discardIdx := d'.discardIdx)
    && j' == j.(dev := d')
  }

  lemma ReclaimEffect<U>(j: Journal<U>)
    requires j.Shaped()
    ensures Reclaimed(j, DoDiscards(SpaceAvailable(j)))
  {
    DirtyStands(j.dev, j.lastSeq);
    var d := AdvanceDirty(j.dev, j.lastSeq);
    OndiskStands(d, j.lastSeqOndisk);
    var at := AdvanceOndisk(d, j.lastSeqOndisk).dirtyIdxOndisk;
    assert FirstNeeded(j.dev, j.dev.dirtyIdxOndisk, d.dirtyIdx, j.lastSeqOndisk, at);
  }

  /** The indices stand where reclaim would leave them. */
  predicate Tight<U>(j: Journal<U>) {
    && j.Shaped()
    && (j.dev.dirtyIdx == j.dev.curIdx || j.dev.bucketSeq[j.dev.dirtyIdx] >= j.lastSeq)
    && (j.dev.dirtyIdxOndisk == j.dev.dirtyIdx || j.dev.bucketSeq[j.dev.dirtyIdxOndisk] >= j.lastSeqOndisk)
    && j.dev.discardIdx == j.dev.dirtyIdxOndisk
  }

  lemma ReclaimTightens<U>(j: Journal<U>)
    requires j.Shaped()
    ensures Tight(DoDiscards(SpaceAvailable(j)))
    ensures Tight(j) ==> DoDiscards(SpaceAvailable(j)) == j
  {
    ReclaimEffect(j);
  }

  // ----- every step leaves them there

  lemma UpdateTight<U>(j: Journal<U>)
    requires Tight(j)
    ensures Tight(UpdateLastSeq(j))
  {
    var (front, lists) := PopLists(j.front, j.lists, j.seqOndisk);
    ReclaimTightens(j.(front := front, lists := lists, lastSeq := front));
  }

  lemma InstallTight<U>(j: Journal<U>, d: Device<U>, first: nat)
    requires j.Shaped() && d.Shaped() && j.lastSeq == first
    requires var r := AdvanceDirty(d, first); j.dev == r.(discardIdx := r.dirtyIdx, dirtyIdxOndisk := r.dirtyIdx)
    ensures Tight(j) && SpaceAvailable(j) == j
  {
    DirtyStands(d, first);
  }

  lemma SelectTight<U>(nr: nat, bucketSize: nat, disk: seq<seq<Record<U>>>, unique: seq<Found<U>>)
    requires nr >= 1 && |disk| == nr && Scanned(unique, nr, bucketSize)
    ensures var res := Select(nr, bucketSize, disk, unique); res.ReadOk? ==> Tight(res.journal)
  {
    var res := Select(nr, bucketSize, disk, unique);
    if res.ReadOk? {
      var curSeq := LastSeqno(unique) + 1;
      var first := if res.lastSeq != 0 then res.lastSeq else curSeq;
      var (cur, used) := if |unique| == 0 then (0, 0) else (unique[|unique| - 1].bucket, unique[|unique| - 1].used);
      var next := Next(cur, nr);
      var d0 := Device(nr, bucketSize, BucketSeqs(disk), bucketSize - used, next, next, next, cur, disk);
      InstallTight(Restarted(first, curSeq, ReadRing(nr, bucketSize, disk, cur, used, first)), d0, first);
    }
  }

  lemma ReadTight<U(!new)>(d: Device<U>)
    requires d.Shaped()
    ensures ReadDevice(d).ReadOk? ==> Tight(ReadDevice(d).journal)
  {
    if ReadDevice(d).ReadOk? {
      UniqueScanned(d.disk, d.bucketSize);
      SelectTight(d.nr, d.bucketSize, d.disk, Dedup(SortBySeq(ScanBuckets(d.disk, d.nr))));
    }
  }

  /** Only a record write that fails after a bucket was zeroed leaves reclaim something to do. */
  lemma StepTight<U(!new)>(r: Run<U>, s: Step<U>)
    requires JournalInv(r) && Enabled(r, s) && Tight(r.j)
    ensures Safe(r, s)
    ensures !(s.FlushEntry? && s.fault) ==> Tight(Apply(r, s).j)
  {
    InvariantIsSafe(r, s);
    match s
    case SetPin(newSeq, pin) => SetTight(r.j, newSeq, pin);
    case AddPin(newSeq, pin) => SetTight(r.j, newSeq, pin);
    case UpdatePin(newSeq, pin) => SetTight(r.j, newSeq, pin);
    case DropPin(pin) => DropTight(r.j, pin);
    case ReplayDone(end) => UpdateTight(r.j.(lists := PutReplayed(r.j.lists, ReplayedLists(r.j, end))));
    case Checkpoint(l) => ReclaimTightens(r.j.(lastSeqOndisk := l));
    case FlushEntry(updates, sectors, fault) =>
      if !fault {
        FlushTight(r.j, updates, sectors);
      }
    case Crash => ReadTight(r.j.dev);
  }

  lemma SetTight<U>(j: Journal<U>, newSeq: nat, pin: nat)
    requires Tight(j) && PinOnList(j, pin) && j.front <= newSeq < j.front + |j.lists|
    ensures Tight(PinSet(j, newSeq, pin))
  {
    var at := PinOf(j.pinSeq, pin);
    var released := if at != 0 then ListPut(j.lists, at - j.front, pin) else j.lists;
    UpdateTight(j.(lists := ListGet(released, newSeq - j.front, pin), pinSeq := j.pinSeq[pin := newSeq]));
  }

  lemma DropTight<U>(j: Journal<U>, pin: nat)
    requires Tight(j) && PinOnList(j, pin)
    ensures Tight(PinDrop(j, pin))
  {
    var at := PinOf(j.pinSeq, pin);
    if at != 0 {
      UpdateTight(j.(lists := ListPut(j.lists, at - j.front, pin), pinSeq := j.pinSeq[pin := 0]));
    }
  }

  lemma FlushTight<U>(j: Journal<U>, updates: seq<U>, sectors: nat)
    requires Flushable(j) && j.seqno < JournalSeqMax && Tight(j)
    ensures Tight(Flush(j, updates, sectors, false).1)
  {
    var r := OpenRecord(j, updates, sectors);
    var (code, d) := WriteRecord(j.dev, r, false);
    WriteCode(j.dev, r, false);
    WriteEffect(j.dev, r, false);
    if code == 0 {
      ReclaimTightens(UpdateLastSeq(OpenNext(j.(dev := d), r)));
    }
  }

  // ----- flushing

  /** The code of a whole flush. */
  lemma FlushCode<U>(j: Journal<U>, updates: seq<U>, sectors: nat, fault: bool)
    requires Flushable(j)
    ensures Flush(j, updates, sectors, fault).0
         == if sectors > j.dev.bucketSize then -4
            else if !RoomFor(j.dev, sectors) then -9
            else if fault then -5
            else if j.seqno >= JournalSeqMax then -2
            else 0
  {
    WriteCode(j.dev, OpenRecord(j, updates, sectors), fault);
  }

  /** The first `m` buckets from the oldest on hold nothing that memory or the disk still needs. */
  ghost predicate OldestPast<U>(j: Journal<U>, m: nat)
    requires j.Shaped()
  {
    && m <= Dist(j.dev.dirtyIdxOndisk, j.dev.curIdx, j.dev.nr)
    && forall k | 0 <= k < m ::
         var i := Ahead(j.dev.dirtyIdxOndisk, k, j.dev.nr);
         j.dev.bucketSeq[i] < j.lastSeq && j.dev.bucketSeq[i] < j.lastSeqOndisk
  }

  /** A walk that starts within a stretch of buckets nobody needs ends behind it. */
  lemma PassesStretch<U>(d: Device<U>, oldest: nat, from: nat, to: nat, seqno: nat, at: nat, m: nat)
    requires d.Shaped() && oldest < d.nr && FirstNeeded(d, from, to, seqno, at)
    requires Dist(oldest, from, d.nr) + Dist(from, to, d.nr) == Dist(oldest, to, d.nr) && m <= Dist(oldest, to, d.nr)
    requires forall k | 0 <= k < m :: d.bucketSeq[Ahead(oldest, k, d.nr)] < seqno
    ensures Dist(oldest, at, d.nr) == Dist(oldest, from, d.nr) + Dist(from, at, d.nr) >= m
  {
    assert Dist(oldest, at, d.nr) == Dist(oldest, from, d.nr) + Dist(from, at, d.nr);
    assert Ahead(oldest, Dist(oldest, at, d.nr), d.nr) == at;
  }

  /** Reclaim frees every such bucket. */
  lemma ReclaimFrees<U>(j: Journal<U>, m: nat)
    requires j.Shaped() && Chase(j.dev) && OldestPast(j, m)
    ensures var d := DoDiscards(SpaceAvailable(j)).dev;
            FreeAhead(d) >= j.dev.nr - 1 - Dist(j.dev.dirtyIdxOndisk, j.dev.curIdx, j.dev.nr) + m
  {
    ReclaimEffect(j);
    var d, d' := j.dev, DoDiscards(SpaceAvailable(j)).dev;
    var oldest := d.dirtyIdxOndisk;
    forall k | 0 <= k < m
      ensures d.bucketSeq[Ahead(oldest, k, d.nr)] < j.lastSeq
      ensures d.bucketSeq[Ahead(oldest, k, d.nr)] < j.lastSeqOndisk
    {
    }
    PassesStretch(d, oldest, d.dirtyIdx, d.curIdx, j.lastSeq, d'.dirtyIdx, m);
    PassesStretch(d, oldest, oldest, d'.dirtyIdx, j.lastSeqOndisk, d'.dirtyIdxOndisk, m);
    NextIsWrap(d.curIdx, d.nr);
  }

  /** So once the two oldest buckets are past, the next flush of a record that fits a bucket succeeds. */
  lemma {:induction false} FlushAfterReclaim<U(!new)>(r: Run<U>, updates: seq<U>, sectors: nat)
    requires JournalInv(r) && r.j.seqno < JournalSeqMax && sectors <= r.j.dev.bucketSize && OldestPast(r.j, 2)
    ensures var j := DoDiscards(SpaceAvailable(r.j)); Flushable(j) && Flush(j, updates, sectors, false).0 == 0
  {
    OpenNextKeeps(r.j, OpenRecord(r.j, updates, sectors));
    var bounds :| RingInv(r.j.dev, r.log, r.j.lastSeq, bounds);
    FlushReclaimed(r.j, updates, sectors);
  }

  lemma {:induction false} FlushReclaimed<U>(j: Journal<U>, updates: seq<U>, sectors: nat)
    requires Flushable(j) && Chase(j.dev) && j.seqno < JournalSeqMax && sectors <= j.dev.bucketSize && OldestPast(j, 2)
    ensures var j' := DoDiscards(SpaceAvailable(j)); Flushable(j') && Flush(j', updates, sectors, false).0 == 0
  {
    TwoFree(j);
    FlushCode(DoDiscards(SpaceAvailable(j)), updates, sectors, false);
  }

  lemma {:induction false} TwoFree<U>(j: Journal<U>)
    requires Flushable(j) && Chase(j.dev) && OldestPast(j, 2)
    ensures var j' := DoDiscards(SpaceAvailable(j));
            && Flushable(j') && j'.seqno == j.seqno && j'.dev.bucketSize == j.dev.bucketSize && FreeAhead(j'.dev) >= 2
  {
    ReclaimEffect(j);
    ReclaimFrees(j, 2);
  }

  // ----- what checkpoints and dropped pins free

  /** Refused beyond last_seq; otherwise last_seq_ondisk never moves back, and when it moves its buckets are freed. */
  lemma CheckpointEffect<U>(j: Journal<U>, l: nat)
    requires j.Shaped()
    ensures var (code, j') := UpdateLastSeqOndisk(j, l);
            && code == (if l <= j.seqno && l <= j.lastSeq then 0 else -1)
            && (code == -1 ==> j' == j)
            && (code == 0 ==> j'.lastSeqOndisk == Max(j.lastSeqOndisk, l))
            && (code == 0 && l > j.lastSeqOndisk ==> Reclaimed(j.(lastSeqOndisk := l), j'))
            && (code == 0 && l <= j.lastSeqOndisk ==> j' == j)
  {
    ReclaimEffect(j.(lastSeqOndisk := l));
  }

  /** last_seq moves past exactly the lists that count nothing. */
  lemma LastSeqEffect<U>(j: Journal<U>)
    requires PinBase(j) && j.lastSeq <= j.front
    ensures var j' := UpdateLastSeq(j);
            && j.front <= j'.front == j'.lastSeq <= j.front + |j.lists|
            && j'.lists == j.lists[j'.front - j.front..] && |j'.lists| > 0 && j'.lists[0].count > 0
            && forall i | 0 <= i < j'.front - j.front :: j.lists[i].count == 0
  {
    UpdateLastSeqKeeps(j);
    PopsEmpty(j.front, j.lists, j.seqOndisk);
  }

  /** And when it moves, the buckets of those sequence numbers are freed. */
  lemma LastSeqReclaims<U>(j: Journal<U>)
    requires j.Shaped()
    ensures var j' := UpdateLastSeq(j);
            var popped := j.(front := j'.front, lists := j'.lists, lastSeq := j'.front);
            if j'.lastSeq != j.lastSeq then Reclaimed(popped, j') else j' == popped
  {
    var (front, lists) := PopLists(j.front, j.lists, j.seqOndisk);
    ReclaimEffect(j.(front := front, lists := lists, lastSeq := front));
  }

  // ----- a journal with nothing left to do goes on

  /** Only ring indices differ. */
  ghost predicate SameBuckets<U>(d: Device<U>, d': Device<U>) {
    d' == d.(dirtyIdx := d'.dirtyIdx, dirtyIdxOndisk := d'.dirtyIdxOndisk, discardIdx := d'.discardIdx)
  }

  /** Reclaim has nothing to do, or the current bucket is empty because the write to it failed. */
  predicate Ready<U>(j: Journal<U>) {
    Tight(j) || (j.Shaped() && j.dev.sectorsFree == j.dev.bucketSize)
  }

  /** No bucket but the current one claims the open sequence number. */
  predicate SeqsBelow<U>(j: Journal<U>) {
    && j.Shaped()
    && forall i | 0 <= i < j.dev.nr ::
         j.dev.bucketSeq[i] < j.seqno || (i == j.dev.curIdx && j.dev.bucketSeq[i] == j.seqno)
  }

  ghost predicate SpaceInv<U>(r: Run<U>) {
    JournalInv(r) && Ready(r.j) && SeqsBelow(r.j)
  }

  lemma UpdateSame<U>(j: Journal<U>)
    requires j.Shaped()
    ensures SameBuckets(j.dev, UpdateLastSeq(j).dev) && UpdateLastSeq(j).seqno == j.seqno
  {
    var (front, lists) := PopLists(j.front, j.lists, j.seqOndisk);
    ReclaimEffect(j.(front := front, lists := lists, lastSeq := front));
  }

  /** Steps that write nothing. */
  lemma QuietSame<U(!new)>(r: Run<U>, s: Step<U>)
    requires JournalInv(r) && Enabled(r, s) && Safe(r, s) && !s.FlushEntry? && !s.Crash?
    ensures SameBuckets(r.j.dev, Apply(r, s).j.dev) && Apply(r, s).j.seqno == r.j.seqno
  {
    match s
    case SetPin(newSeq, pin) => SetSame(r.j, newSeq, pin);
    case AddPin(newSeq, pin) => SetSame(r.j, newSeq, pin);
    case UpdatePin(newSeq, pin) => SetSame(r.j, newSeq, pin);
    case DropPin(pin) =>
      var at := PinOf(r.j.pinSeq, pin);
      if at != 0 {
        UpdateSame(r.j.(lists := ListPut(r.j.lists, at - r.j.front, pin), pinSeq := r.j.pinSeq[pin := 0]));
      }
    case ReplayDone(end) => UpdateSame(r.j.(lists := PutReplayed(r.j.lists, ReplayedLists(r.j, end))));
    case Checkpoint(l) => ReclaimEffect(r.j.(lastSeqOndisk := l));
  }

  lemma SetSame<U>(j: Journal<U>, newSeq: nat, pin: nat)
    requires j.Shaped() && PinOnList(j, pin) && j.front <= newSeq < j.front + |j.lists|
    ensures SameBuckets(j.dev, PinSet(j, newSeq, pin).dev) && PinSet(j, newSeq, pin).seqno == j.seqno
  {
    var at := PinOf(j.pinSeq, pin);
    var released := if at != 0 then ListPut(j.lists, at - j.front, pin) else j.lists;
    UpdateSame(j.(lists := ListGet(released, newSeq - j.front, pin), pinSeq := j.pinSeq[pin := newSeq]));
  }

  lemma FlushSpace<U(!new)>(r: Run<U>, updates: seq<U>, sectors: nat, fault: bool)
    requires SpaceInv(r) && sectors >= 1 && r.j.seqno < JournalSeqMax
    ensures Flushable(r.j)
    ensures var j := Flush(r.j, updates, sectors, fault).1; Ready(j) && SeqsBelow(j)
  {
    var rec := OpenRecord(r.j, updates, sectors);
    OpenNextKeeps(r.j, rec);
    WriteCode(r.j.dev, rec, fault);
    WriteEffect(r.j.dev, rec, fault);
    WriteSeqs(r, rec, fault);
    var (code, d) := WriteRecord(r.j.dev, rec, fault);
    if code == 0 {
      var next := OpenNext(r.j.(dev := d), rec);
      UpdateSame(next);
      ReclaimEffect(UpdateLastSeq(next));
      ReclaimTightens(UpdateLastSeq(next));
    }
  }

  lemma WriteSeqs<U(!new)>(r: Run<U>, rec: Record<U>, fault: bool)
    requires SpaceInv(r) && rec.seqno == r.j.seqno
    ensures SeqsBelow(r.j.(dev := WriteRecord(r.j.dev, rec, fault).1))
  {
    var d := r.j.dev;
    var bounds :| RingInv(d, r.log, r.j.lastSeq, bounds);
    if NeedsBucket(d, rec.sectors) {
      CurrentNonEmpty(d, r.log, r.j.lastSeq, bounds);
      assert SliceAt(d, r.log, bounds, 0);
    }
  }

  lemma ReadSeqs<U(!new)>(r: Run<U>)
    requires JournalInv(r)
    ensures ReadDevice(r.j.dev).ReadOk? && SeqsBelow(ReadDevice(r.j.dev).journal)
  {
    ReadKeeps(r);
    var d := r.j.dev;
    var bounds :| RingInv(d, r.log, r.j.lastSeq, bounds);
    ReadIsSelect(d, r.log, r.j.lastSeq, bounds);
    SelectBuckets(d.nr, d.bucketSize, d.disk, Dedup(SortBySeq(ScanBuckets(d.disk, d.nr))));
    forall i | 0 <= i < d.nr
      ensures BucketSeqs(d.disk)[i] <= |r.log|
    {
      ScannedSeq(d, r.log, r.j.lastSeq, bounds, i);
    }
  }

  lemma ScannedSeq<U(!new)>(d: Device<U>, log: seq<Record<U>>, lastSeq: nat, bounds: seq<nat>, i: nat)
    requires RingInv(d, log, lastSeq, bounds) && i < d.nr
    ensures LastSeqno(ScanBucket(d.disk[i], i, 0, 0)) <= |log|
  {
    BucketSlice(d, log, lastSeq, bounds, i);
    ScanOneBucket(d, log, lastSeq, bounds, i);
  }

  lemma SelectBuckets<U>(nr: nat, bucketSize: nat, disk: seq<seq<Record<U>>>, unique: seq<Found<U>>)
    requires nr >= 1 && |disk| == nr && Scanned(unique, nr, bucketSize)
    ensures var res := Select(nr, bucketSize, disk, unique);
            res.ReadOk? ==>
              && res.journal.Shaped() && res.journal.dev.nr == nr && res.journal.dev.bucketSeq == BucketSeqs(disk)
              && res.journal.seqno == res.curSeq
  {
  }

  lemma SpaceKeeps<U(!new)>(r: Run<U>, s: Step<U>)
    requires SpaceInv(r) && Enabled(r, s)
    ensures Safe(r, s) && SpaceInv(Apply(r, s))
  {
    StepKeeps(r, s);
    match s
    case FlushEntry(updates, sectors, fault) => FlushSpace(r, updates, sectors, fault);
    case Crash =>
      ReadSeqs(r);
      ReadTight(r.j.dev);
    case _ =>
      QuietSame(r, s);
      if Tight(r.j) {
        StepTight(r, s);
      }
  }

  lemma {:induction false} SpaceInRuns<U(!new)>(r0: Run<U>, ss: seq<Step<U>>, r: Run<U>)
    requires SpaceInv(r0) && Leads(r0, ss, r)
    ensures SpaceInv(r)
    decreases |ss|
  {
    if |ss| > 0 {
      SpaceKeeps(r0, ss[0]);
      SpaceInRuns(Apply(r0, ss[0]), ss[1..], r);
    }
  }

  lemma FormattedSpace<U(!new)>(r: Run<U>, nr: nat, bucketSize: nat)
    requires Formatted(r, nr, bucketSize)
    ensures SpaceInv(r)
  {
    FormattedKeeps(r, nr, bucketSize);
    ReadTight(EmptyDevice<U>(nr, bucketSize));
    var d := EmptyDevice<U>(nr, bucketSize);
    EmptyDeviceInv<U>(nr, bucketSize);
    RestartedKeeps(1, 1, d);
    assert RingInv(d, [], 1, seq(nr + 1, _ => 0));
    ReadSeqs(Run(Restarted(1, 1, d), []));
  }

  /** No pin is active and everything is replayed. */
  ghost predicate Idle<U>(j: Journal<U>) {
    (forall p: nat :: PinOf(j.pinSeq, p) == 0) && forall i | 0 <= i < |j.lists| :: !j.lists[i].unreplayed
  }

  lemma IdleLastSeq<U>(j: Journal<U>)
    requires PinInv(j) && Idle(j)
    ensures j.lastSeq == j.seqno
  {
    assert ListOk(j, 0);
    assert j.lists[0].pins == {};
  }

  /** What a flush after a checkpoint of everything returns. */
  predicate GoesOn<U>(j: Journal<U>, updates: seq<U>, sectors: nat)
    requires j.Shaped()
  {
    var (code, j') := UpdateLastSeqOndisk(j, j.seqno);
    && code == 0 && Flushable(j')
    && Flush(j', updates, sectors, false).0 == if sectors <= j.dev.sectorsFree || j.dev.nr >= 3 then 0 else -9
  }

  /**
   In every idle state of every run, once a checkpoint has caught up, a record that fits a bucket
   can be flushed if it fits the current one or there are three buckets; with two it cannot.
   */
  lemma IdleGoesOn<U(!new)>(
    nr: nat, bucketSize: nat, r0: Run<U>, ss: seq<Step<U>>, r: Run<U>, updates: seq<U>, sectors: nat)
    requires Formatted(r0, nr, bucketSize) && Leads(r0, ss, r) && Idle(r.j) && r.j.seqno < JournalSeqMax
    requires sectors <= r.j.dev.bucketSize
    ensures r.j.Shaped() && GoesOn(r.j, updates, sectors)
  {
    FormattedSpace(r0, nr, bucketSize);
    SpaceInRuns(r0, ss, r);
    IdleCheckpoint(r);
    FlushCode(UpdateLastSeqOndisk(r.j, r.j.seqno).1, updates, sectors, false);
  }

  /** All buckets but the current one are free. */
  predicate AllFree<U>(d: Device<U>)
    requires d.Shaped()
  {
    FreeAhead(d) == d.nr - 1 && d.dirtyIdxOndisk == d.dirtyIdx
  }

  lemma IdleCheckpoint<U(!new)>(r: Run<U>)
    requires SpaceInv(r) && Idle(r.j)
    ensures var (code, j) := UpdateLastSeqOndisk(r.j, r.j.seqno);
            && code == 0 && Flushable(j) && j.seqno == r.j.seqno && SameBuckets(r.j.dev, j.dev)
            && (j.dev.sectorsFree == j.dev.bucketSize || AllFree(j.dev))
  {
    IdleLastSeq(r.j);
    var step := Checkpoint(r.j.seqno);
    SpaceKeeps(r, step);
    QuietSame(r, step);
    var j := UpdateLastSeqOndisk(r.j, r.j.seqno).1;
    assert Apply(r, step).j == j;
    ReclaimEffect(r.j.(lastSeqOndisk := r.j.seqno));
    CaughtUp(j);
    OpenNextKeeps(j, OpenRecord(j, [], 0));
  }

  /** When nothing older than the open entry is needed, all buckets but the current one are free. */
  lemma CaughtUp<U>(j: Journal<U>)
    requires Ready(j) && SeqsBelow(j) && j.lastSeq == j.seqno <= j.lastSeqOndisk
    ensures j.dev.sectorsFree == j.dev.bucketSize || AllFree(j.dev)
  {
    NextIsWrap(j.dev.curIdx, j.dev.nr);
  }

  // ----- what a restart installs

  /** Nothing but the window is needed, every record of it is to be replayed, and the next entry is open. */
  ghost predicate Restart<U>(j: Journal<U>) {
    && j.front == j.lastSeq == j.lastSeqOndisk && j.seqOndisk + 1 == j.seqno && j.pinSeq == map[]
    && j.front + |j.lists| == j.seqno + 1 && |j.lists| > 0 && j.lists[|j.lists| - 1] == PinList(1, false, {})
    && forall i | 0 <= i < |j.lists| - 1 :: j.lists[i] == PinList(1, true, {})
  }

  lemma SelectRestarts<U>(nr: nat, bucketSize: nat, disk: seq<seq<Record<U>>>, unique: seq<Found<U>>)
    requires nr >= 1 && |disk| == nr && Scanned(unique, nr, bucketSize)
    ensures var res := Select(nr, bucketSize, disk, unique);
            res.ReadOk? ==>
              && Restart(res.journal) && res.journal.seqno == res.curSeq
              && (res.lastSeq != 0 ==> res.journal.lastSeq == res.lastSeq)
  {
  }

  lemma RestartState<U(!new)>(d: Device<U>)
    requires d.Shaped()
    ensures var res := ReadDevice(d);
            res.ReadOk? ==>
              && Restart(res.journal) && res.journal.seqno == res.curSeq
              && (res.lastSeq != 0 ==> res.journal.lastSeq == res.lastSeq)
  {
    if ReadDevice(d).ReadOk? {
      UniqueScanned(d.disk, d.bucketSize);
      SelectRestarts(d.nr, d.bucketSize, d.disk, Dedup(SortBySeq(ScanBuckets(d.disk, d.nr))));
    }
  }
}
