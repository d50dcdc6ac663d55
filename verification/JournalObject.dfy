/**
 The journal as the object it is: fields updated in place by loops.  Every method is
 proved to take exactly the step that `JournalModel` defines, so the theorems of
 `JournalRuns` and `WriteAhead` are theorems about this object.
 */
module JournalObject {
  import opened JournalModel
  import JournalSpace
  import opened JournalRead

  class JournalCell<U(==, !new)> {
    const nr: nat
    const bucketSize: nat

    var seqno: nat
    var seqOndisk: nat
    var lastSeq: nat
    var lastSeqOndisk: nat
    var front: nat
    var lists: seq<PinList>
    var pinSeq: map<nat, nat>

    var bucketSeq: seq<nat>
    var sectorsFree: nat
    var discardIdx: nat
    var dirtyIdxOndisk: nat
    var dirtyIdx: nat
    var curIdx: nat
    var disk: seq<seq<Record<U>>>

    ghost function Dev(): Device<U>
      reads this
    {
      Device(nr, bucketSize, bucketSeq, sectorsFree, discardIdx, dirtyIdxOndisk, dirtyIdx, curIdx, disk)
    }

    ghost function State(): Journal<U>
      reads this
    {
      Journal(seqno, seqOndisk, lastSeq, lastSeqOndisk, front, lists, pinSeq, Dev())
    }

    constructor (j: Journal<U>)
      ensures State() == j
    {
      nr, bucketSize := j.dev.nr, j.dev.bucketSize;
      seqno, seqOndisk, lastSeq, lastSeqOndisk := j.seqno, j.seqOndisk, j.lastSeq, j.lastSeqOndisk;
      front, lists, pinSeq := j.front, j.lists, j.pinSeq;
      bucketSeq, sectorsFree, disk := j.dev.bucketSeq, j.dev.sectorsFree, j.dev.disk;
      discardIdx, dirtyIdxOndisk, dirtyIdx, curIdx :=
        j.dev.discardIdx, j.dev.dirtyIdxOndisk, j.dev.dirtyIdx, j.dev.curIdx;
    }

    // ----- space

    method MoveDirty()
      requires Dev().Shaped()
      modifies this`dirtyIdx
      ensures Dev() == AdvanceDirty(old(Dev()), lastSeq)
    {
      while dirtyIdx != curIdx && bucketSeq[dirtyIdx] < lastSeq
        invariant Dev().Shaped()
        invariant AdvanceDirty(Dev(), lastSeq) == AdvanceDirty(old(Dev()), lastSeq)
        decreases Dist(dirtyIdx, curIdx, nr)
      {
        DistNextLeft(dirtyIdx, curIdx, nr);
        ghost var before := Dev();
        dirtyIdx := (dirtyIdx + 1) % nr;
        assert Dev() == before.(dirtyIdx := Next(before.dirtyIdx, nr));
      }
    }

    method MoveOndisk()
      requires Dev().Shaped()
      modifies this`dirtyIdxOndisk
      ensures Dev() == AdvanceOndisk(old(Dev()), lastSeqOndisk)
    {
      while dirtyIdxOndisk != dirtyIdx && bucketSeq[dirtyIdxOndisk] < lastSeqOndisk
        invariant Dev().Shaped()
        invariant AdvanceOndisk(Dev(), lastSeqOndisk) == AdvanceOndisk(old(Dev()), lastSeqOndisk)
        decreases Dist(dirtyIdxOndisk, dirtyIdx, nr)
      {
        DistNextLeft(dirtyIdxOndisk, dirtyIdx, nr);
        ghost var before := Dev();
        dirtyIdxOndisk := (dirtyIdxOndisk + 1) % nr;
        assert Dev() == before.(dirtyIdxOndisk := Next(before.dirtyIdxOndisk, nr));
      }
    }

    method SpaceAvailable()
      requires State().Shaped()
      modifies this`dirtyIdx, this`dirtyIdxOndisk
      ensures State() == JournalModel.SpaceAvailable(old(State()))
    {
      MoveDirty();
      MoveOndisk();
    }

    method DoDiscards()
      requires State().Shaped()
      modifies this`discardIdx
      ensures State() == JournalModel.DoDiscards(old(State()))
    {
      while discardIdx != dirtyIdxOndisk
        invariant discardIdx < nr
        decreases Dist(discardIdx, dirtyIdxOndisk, nr)
      {
        DistNextLeft(discardIdx, dirtyIdxOndisk, nr);
        discardIdx := (discardIdx + 1) % nr;
      }
    }

    // ----- last_seq

    method UpdateLastSeq()
      requires State().Shaped()
      modifies this
      ensures State() == JournalModel.UpdateLastSeq(old(State()))
    {
      while |lists| > 0 && front <= seqOndisk && lists[0].count == 0
        invariant PopLists(front, lists, seqOndisk) == PopLists(old(front), old(lists), seqOndisk)
        invariant State() == old(State()).(front := front, lists := lists)
        decreases |lists|
      {
        lists := lists[1..];
        front := front + 1;
      }
      var was := lastSeq;
      lastSeq := front;
      if lastSeq != was {
        SpaceAvailable();
        DoDiscards();
      }
    }

    method UpdateLastSeqOndisk(ondisk: nat) returns (code: int)
      requires State().Shaped()
      modifies this
      ensures (code, State()) == JournalModel.UpdateLastSeqOndisk(old(State()), ondisk)
    {
      if ondisk > seqno || ondisk > lastSeq {
        return -1;
      }
      if ondisk > lastSeqOndisk {
        lastSeqOndisk := ondisk;
        SpaceAvailable();
        DoDiscards();
      }
      return 0;
    }

    // ----- pins

    method PinSet(newSeq: nat, pin: nat)
      requires State().Shaped() && PinOnList(State(), pin) && front <= newSeq < front + |lists|
      modifies this
      ensures State() == JournalModel.PinSet(old(State()), newSeq, pin)
    {
      var oldSeq := if pin in pinSeq then pinSeq[pin] else 0;
      if oldSeq != 0 {
        var at := oldSeq - front;
        lists := lists[at := lists[at].(count := lists[at].count - 1, pins := lists[at].pins - {pin})];
      }
      var to := newSeq - front;
      lists := lists[to := lists[to].(count := lists[to].count + 1, pins := lists[to].pins + {pin})];
      pinSeq := pinSeq[pin := newSeq];
      if oldSeq != 0 {
        UpdateLastSeq();
      }
    }

    method PinAdd(newSeq: nat, pin: nat)
      requires State().Shaped() && PinOnList(State(), pin) && front <= newSeq < front + |lists|
      modifies this
      ensures State() == JournalModel.PinAdd(old(State()), newSeq, pin)
    {
      if pin !in pinSeq || pinSeq[pin] == 0 || pinSeq[pin] > newSeq {
        PinSet(newSeq, pin);
      }
    }

    method PinUpdate(newSeq: nat, pin: nat)
      requires State().Shaped() && PinOnList(State(), pin) && front <= newSeq < front + |lists|
      modifies this
      ensures State() == JournalModel.PinUpdate(old(State()), newSeq, pin)
    {
      if pin !in pinSeq || pinSeq[pin] == 0 || pinSeq[pin] < newSeq {
        PinSet(newSeq, pin);
      }
    }

    method PinDrop(pin: nat)
      requires State().Shaped() && PinOnList(State(), pin)
      modifies this
      ensures State() == JournalModel.PinDrop(old(State()), pin)
    {
      if pin !in pinSeq || pinSeq[pin] == 0 {
        return;
      }
      var at := pinSeq[pin] - front;
      lists := lists[at := lists[at].(count := lists[at].count - 1, pins := lists[at].pins - {pin})];
      pinSeq := pinSeq[pin := 0];
      UpdateLastSeq();
    }

    method ReplayPinsPut(end: nat)
      requires State().Shaped() && UnreplayedCounted(lists)
      modifies this
      ensures State() == JournalModel.ReplayPinsPut(old(State()), end)
    {
      var last := if end < seqno then end else seqno;
      var n: nat := 0;
      while front + n < last && n < |lists|
        invariant n <= |old(lists)| && |lists| == |old(lists)|
        invariant n <= ReplayedLists(old(State()), end)
        invariant State() == old(State()).(lists := PutReplayed(old(lists), n))
      {
        if lists[n].unreplayed {
          lists := lists[n := lists[n].(unreplayed := false, count := lists[n].count - 1)];
        }
        n := n + 1;
      }
      UpdateLastSeq();
    }

    // ----- flush

    method WriteRecord(r: Record<U>, fault: bool) returns (code: int)
      requires State().Shaped()
      modifies this`curIdx, this`sectorsFree, this`bucketSeq, this`disk
      ensures (code, Dev()) == JournalModel.WriteRecord(old(Dev()), r, fault)
      ensures code == 0 <==> r.sectors <= bucketSize && old(JournalSpace.RoomFor(Dev(), r.sectors)) && !fault
      ensures code == -9 <==> r.sectors <= bucketSize && !old(JournalSpace.RoomFor(Dev(), r.sectors))
    {
      JournalSpace.WriteCode(Dev(), r, fault);
      if r.sectors > bucketSize {
        return -4;
      }
      if r.sectors > sectorsFree {
        var available := (discardIdx + nr - curIdx - 1) % nr;
        if available != 0 && dirtyIdxOndisk == dirtyIdx {
          available := available - 1;
        }
        if available != 0 {
          curIdx := (curIdx + 1) % nr;
          sectorsFree := bucketSize;
          bucketSeq := bucketSeq[curIdx := r.seqno];
          disk := disk[curIdx := []];
        }
      }
      if r.sectors > sectorsFree {
        return -9;
      }
      if fault {
        return -5;
      }
      disk := disk[curIdx := disk[curIdx] + [r]];
      sectorsFree := sectorsFree - r.sectors;
      bucketSeq := bucketSeq[curIdx := r.seqno];
      return 0;
    }

    /** Opens the next sequence number once record `r` is durable. */
    method OpenEntry(r: Record<U>)
      requires Flushable(State())
      modifies this`lists, this`seqno, this`seqOndisk, this`lastSeqOndisk
      ensures State() == OpenNext(old(State()), r)
    {
      var was := seqno;
      var open := was - front;
      lists := lists[open := lists[open].(count := lists[open].count - 1)] + [PinList(1, false, {})];
      seqno := was + 1;
      seqOndisk := was;
      var empty := if r.seqno == r.lastSeq && |r.updates| == 0 then 1 else 0;
      if r.lastSeq + empty > lastSeqOndisk {
        lastSeqOndisk := r.lastSeq + empty;
      }
    }

    method Flush(updates: seq<U>, sectors: nat, fault: bool) returns (code: int)
      requires Flushable(State())
      modifies this
      ensures (code, State()) == JournalModel.Flush(old(State()), updates, sectors, fault)
      ensures code == 0 <==>
        sectors <= bucketSize && old(JournalSpace.RoomFor(Dev(), sectors)) && !fault && old(seqno) < JournalSeqMax
    {
      JournalSpace.FlushCode(State(), updates, sectors, fault);
      var r := Record(seqno, lastSeq, sectors, false, updates);
      code := WriteRecord(r, fault);
      if code != 0 {
        return;
      }
      if seqno + 1 > JournalSeqMax {
        return -2;
      }
      OpenEntry(r);
      UpdateLastSeq();
      SpaceAvailable();
      DoDiscards();
    }
  }

  // ----- reading the device back

  /** The scan of one bucket. */
  method ScanOne<U(==, !new)>(recs: seq<Record<U>>, bucket: nat) returns (found: seq<Found<U>>, maxSeq: nat)
    ensures found == ScanBucket(recs, bucket, 0, 0)
    ensures maxSeq == LastSeqno(found)
  {
    found, maxSeq := [], 0;
    var used: nat, i: nat := 0, 0;
    while i < |recs| && recs[i].seqno >= maxSeq
      invariant 0 <= i <= |recs|
      invariant found + ScanBucket(recs[i..], bucket, maxSeq, used) == ScanBucket(recs, bucket, 0, 0)
      invariant maxSeq == LastSeqno(found)
    {
      used := used + recs[i].sectors;
      assert recs[i..][1..] == recs[i + 1..];
      found := found + [Found(recs[i], bucket, used)];
      maxSeq := recs[i].seqno;
      i := i + 1;
    }
  }

  /** The scan of all buckets, with the newest sequence number of each. */
  method ScanAll<U(==, !new)>(disk: seq<seq<Record<U>>>) returns (found: seq<Found<U>>, bucketSeq: seq<nat>)
    ensures found == ScanBuckets(disk, |disk|)
    ensures bucketSeq == BucketSeqs(disk)
  {
    found, bucketSeq := [], [];
    for i := 0 to |disk|
      invariant found == ScanBuckets(disk, i)
      invariant |bucketSeq| == i
      invariant forall k | 0 <= k < i :: bucketSeq[k] == LastSeqno(ScanBucket(disk[k], k, 0, 0))
    {
      var part, maxSeq := ScanOne(disk[i], i);
      found := found + part;
      bucketSeq := bucketSeq + [maxSeq];
    }
  }

  /** The contiguity check over the window. */
  method CheckWindow<U(==, !new)>(unique: seq<Found<U>>, lo: nat, hi: nat) returns (ok: bool)
    ensures ok <==> WindowEnd(unique, lo, hi, lo) == (true, hi + 1)
  {
    var expected := lo;
    for i := 0 to |unique|
      invariant WindowEnd(unique, lo, hi, lo) == WindowEnd(unique[i..], lo, hi, expected)
    {
      var seqno := unique[i].rec.seqno;
      assert unique[i..][1..] == unique[i + 1..];
      if lo <= seqno <= hi {
        if seqno != expected {
          return false;
        }
        expected := expected + 1;
      }
    }
    ok := expected == hi + 1;
  }

  /** Walks the dirty index from just ahead of the current bucket past everything older than the window. */
  method PlaceDirty<U(==, !new)>(d: Device<U>, liveFrom: nat) returns (r: Device<U>)
    requires d.Shaped()
    ensures r == AdvanceDirty(d, liveFrom)
  {
    var dirty: nat := d.dirtyIdx;
    while dirty != d.curIdx && d.bucketSeq[dirty] < liveFrom
      invariant dirty < d.nr
      invariant AdvanceDirty(d.(dirtyIdx := dirty), liveFrom) == AdvanceDirty(d, liveFrom)
      decreases Dist(dirty, d.curIdx, d.nr)
    {
      DistNextLeft(dirty, d.curIdx, d.nr);
      dirty := (dirty + 1) % d.nr;
    }
    r := d.(dirtyIdx := dirty);
  }

  /** The ring indices around the current bucket. */
  method PlaceIndices<U(==, !new)>(
    nr: nat, bucketSize: nat, disk: seq<seq<Record<U>>>, bucketSeq: seq<nat>, cur: nat, used: nat, first: nat)
    returns (d: Device<U>)
    requires nr >= 1 && |disk| == nr && cur < nr && used <= bucketSize && bucketSeq == BucketSeqs(disk)
    ensures d.Shaped() && d == ReadRing(nr, bucketSize, disk, cur, used, first)
  {
    var next := (cur + 1) % nr;
    d := PlaceDirty(Device(nr, bucketSize, bucketSeq, bucketSize - used, next, next, next, cur, disk), first);
    d := d.(discardIdx := d.dirtyIdx, dirtyIdxOndisk := d.dirtyIdx);
  }

  /** Picks the window and rebuilds the journal from the scanned records. */
  method SelectBack<U(==, !new)>(
    nr: nat, bucketSize: nat, disk: seq<seq<Record<U>>>, unique: seq<Found<U>>, bucketSeq: seq<nat>)
    returns (res: ReadResult<U>)
    requires nr >= 1 && |disk| == nr && Scanned(unique, nr, bucketSize) && bucketSeq == BucketSeqs(disk)
    ensures res == Select(nr, bucketSize, disk, unique)
  {
    var flushed := LastFlush(unique);
    var lastSeq: nat, replayEnd: nat, clean := 0, 0, false;
    if flushed != 0 {
      var newest := unique[flushed - 1].rec;
      replayEnd := newest.seqno;
      lastSeq := Min(newest.lastSeq, newest.seqno);
      clean := lastSeq == replayEnd && |newest.updates| == 0;
      var ok := CheckWindow(unique, lastSeq, replayEnd);
      if !ok {
        return ReadErr(-8);
      }
    }
    res := InstallBack(nr, bucketSize, disk, unique, bucketSeq, lastSeq, replayEnd, clean);
  }

  /** The journal for a window that starts at `lastSeq`. */
  method InstallBack<U(==, !new)>(
    nr: nat, bucketSize: nat, disk: seq<seq<Record<U>>>, unique: seq<Found<U>>, bucketSeq: seq<nat>,
    lastSeq: nat, replayEnd: nat, clean: bool)
    returns (res: ReadResult<U>)
    requires nr >= 1 && |disk| == nr && Scanned(unique, nr, bucketSize) && bucketSeq == BucketSeqs(disk)
    requires lastSeq <= LastSeqno(unique)
    ensures res == Install(nr, bucketSize, disk, unique, lastSeq, replayEnd, clean)
  {
    var curSeq := LastSeqno(unique) + 1;
    var first := if lastSeq != 0 then lastSeq else curSeq;
    var cur: nat, used: nat := 0, 0;
    if |unique| > 0 {
      cur, used := unique[|unique| - 1].bucket, unique[|unique| - 1].used;
    }
    var d := PlaceIndices(nr, bucketSize, disk, bucketSeq, cur, used, first);
    var j := SpaceAvailable(Restarted(first, curSeq, d));
    res := ReadOk(SelectWindow(unique, lastSeq, replayEnd), lastSeq, replayEnd, curSeq, clean, j);
  }

  /** bch2_journal_read() */
  method ReadBack<U(==, !new)>(nr: nat, bucketSize: nat, disk: seq<seq<Record<U>>>) returns (res: ReadResult<U>)
    requires nr >= 1 && |disk| == nr
    ensures res == Read(nr, bucketSize, disk)
  {
    for i := 0 to nr
      invariant forall k | 0 <= k < i :: !BadBucket(disk[k], 0, 0, bucketSize)
    {
      if BadBucket(disk[i], 0, 0, bucketSize) {
        return ReadErr(-5);
      }
    }
    var found, bucketSeq := ScanAll(disk);
    var sorted := SortBySeq(found);
    if Conflict(sorted) {
      return ReadErr(-7);
    }
    UniqueScanned(disk, bucketSize);
    res := SelectBack(nr, bucketSize, disk, Dedup(sorted), bucketSeq);
  }
}
