/**
 Whole runs of the journal: any interleaving of pins, flushes (whose record write may
 fail), checkpoints, replay completion and crashes, starting from an empty device.
 */
module JournalRuns {
  import opened JournalModel
  import opened JournalRead
  import opened JournalRing
  import opened JournalRecovery
  import opened JournalPins

  /** A journal together with everything it ever flushed. */
  datatype Run<U> = Run(j: Journal<U>, log: seq<Record<U>>)

  datatype Step<U> =
    | SetPin(newSeq: nat, pin: nat)
    | AddPin(newSeq: nat, pin: nat)
    | UpdatePin(newSeq: nat, pin: nat)
    | DropPin(pin: nat)
    | ReplayDone(end: nat)
    | Checkpoint(lastSeqOndisk: nat)
    | FlushEntry(updates: seq<U>, sectors: nat, fault: bool)
    | Crash

  /** The newest record's window, as a contiguous part of the log. */
  function Window<U>(log: seq<Record<U>>): seq<Record<U>> {
    if |log| == 0 then []
    else
      var first := log[|log| - 1].lastSeq;
      if 1 <= first <= |log| then log[first - 1..] else log
  }

  // ----- recovery

  /** bch2_journal_read() finds the newest record's window and nothing else, with cur_seq one past it. */
  ghost predicate ReadsWindow<U(!new)>(res: ReadResult<U>, log: seq<Record<U>>) {
    && res.ReadOk?
    && res.records == Window(log)
    && res.curSeq == |log| + 1 && res.replayEnd == |log|
    && res.lastSeq == (if |log| == 0 then 0 else log[|log| - 1].lastSeq)
    && res.clean == (|log| > 0 && EmptyRecord(log[|log| - 1]))
  }

  ghost predicate JournalInv<U>(r: Run<U>) {
    && PinInv(r.j)
    && |r.log| + 1 == r.j.seqno <= JournalSeqMax
    && (|r.log| > 0 ==> r.log[|r.log| - 1].lastSeq <= r.j.lastSeq)
    && RingOk(r.j.dev, r.log, r.j.lastSeq)
  }

  ghost predicate RingOk<U>(d: Device<U>, log: seq<Record<U>>, lastSeq: nat) {
    exists bounds :: RingInv(d, log, lastSeq, bounds)
  }

  /** Reading this device returns the newest record's window. */
  ghost predicate Recovers<U(!new)>(d: Device<U>, log: seq<Record<U>>) {
    d.Shaped() && ReadsWindow(ReadDevice(d), log)
  }

  function ReadDevice<U(==, !new)>(d: Device<U>): ReadResult<U>
    requires d.Shaped()
  {
    Read(d.nr, d.bucketSize, d.disk)
  }

  lemma NewestBucket<U(!new)>(d: Device<U>, log: seq<Record<U>>, lastSeq: nat, bounds: seq<nat>, f: Found<U>)
      returns (k: nat)
    requires RingInv(d, log, lastSeq, bounds) && |log| >= 1
    requires Genuine(f, d, log, bounds[d.nr]) && f.rec == log[|log| - 1]
    ensures k < d.nr && bounds[k] == |log| && bounds[k + 1] < |log|
    ensures f.bucket == Behind(d.curIdx, k, d.nr) && f.used == Used(d.disk[f.bucket])
  {
    k := Dist(f.bucket, d.curIdx, d.nr);
    BehindDist(f.bucket, d.curIdx, d.nr);
    BucketSlice(d, log, lastSeq, bounds, f.bucket);
    var recs := d.disk[f.bucket];
    var t :| 0 <= t < |recs| && recs[t] == f.rec;
    assert recs[t] == log[bounds[k + 1] + t];
    assert log[bounds[k + 1] + t].seqno == |log|;
    assert recs[|recs| - 1] == f.rec;
  }

  lemma ReadOfTail<U(!new)>(d: Device<U>, log: seq<Record<U>>, lastSeq: nat, bounds: seq<nat>, unique: seq<Found<U>>)
    requires RingInv(d, log, lastSeq, bounds) && IsTail(unique, d, log, bounds[d.nr])
    requires Scanned(unique, d.nr, d.bucketSize)
    ensures ReadsWindow(Select(d.nr, d.bucketSize, d.disk, unique), log)
  {
    var lo := bounds[d.nr];
    forall i | 0 <= i < |unique|
      ensures !unique[i].rec.noFlush
    {
      assert unique[i].rec == log[lo + i];
    }
    LastFlushIsLast(unique);
    if |log| == 0 {
      assert unique == [];
    } else {
      var last := log[|log| - 1];
      assert unique[|unique| - 1].rec == log[lo + |unique| - 1] == last;
      WindowOfTail(unique, log, lo, last.lastSeq, last.lastSeq);
      SelectsWindow(d, log, unique, last);
    }
  }

  /** When the newest record found is the log's last, its window is what is selected. */
  lemma {:induction false} SelectsWindow<U(!new)>(
    d: Device<U>, log: seq<Record<U>>, unique: seq<Found<U>>, last: Record<U>)
    requires d.Shaped() && Scanned(unique, d.nr, d.bucketSize) && |log| >= 1 && last == log[|log| - 1]
    requires LastFlush(unique) == |unique| >= 1 && unique[|unique| - 1].rec == last
    requires 1 <= last.lastSeq <= last.seqno == |log|
    requires WindowEnd(unique, last.lastSeq, |log|, last.lastSeq) == (true, |log| + 1)
    requires SelectWindow(unique, last.lastSeq, |log|) == log[last.lastSeq - 1..]
    ensures ReadsWindow(Select(d.nr, d.bucketSize, d.disk, unique), log)
  {
  }

  /** The rebuilt journal keeps the invariant. */
  lemma RebuiltKeeps<U(!new)>(
    d: Device<U>, log: seq<Record<U>>, lastSeq: nat, bounds: seq<nat>, k: nat, used: nat, first: nat)
    requires RingInv(d, log, lastSeq, bounds) && k < d.nr && bounds[k] == |log| < JournalSeqMax
    requires |log| >= 1 ==> bounds[k + 1] < |log| && first == log[|log| - 1].lastSeq
    requires |log| == 0 ==> first == 1
    requires used == Used(d.disk[Behind(d.curIdx, k, d.nr)])
    ensures 1 <= first <= |log| + 1
    ensures var ring := ReadRing(d.nr, d.bucketSize, d.disk, Behind(d.curIdx, k, d.nr), used, first);
            JournalInv(Run(SpaceAvailable(Restarted(first, |log| + 1, ring)), log))
  {
    ReadRingInv(d, log, lastSeq, bounds, k, used, first);
    var ring := ReadRing(d.nr, d.bucketSize, d.disk, Behind(d.curIdx, k, d.nr), used, first);
    var restarted := Restarted(first, |log| + 1, ring);
    RestartedKeeps(first, |log| + 1, ring);
    ReclaimKeeps(restarted, log, Rotated(bounds, k));
    PinsIgnoreDevice(restarted, SpaceAvailable(restarted));
  }

  /** Where the scan puts the current bucket and how full it finds it. */
  lemma NewestFound<U(!new)>(d: Device<U>, log: seq<Record<U>>, lastSeq: nat, bounds: seq<nat>, unique: seq<Found<U>>)
    returns (k: nat)
    requires RingInv(d, log, lastSeq, bounds) && IsTail(unique, d, log, bounds[d.nr])
    ensures k < d.nr && bounds[k] == |log| && (|log| >= 1 ==> bounds[k + 1] < |log|)
    ensures var (cur, used) :=
              if |unique| == 0 then (0, 0) else (unique[|unique| - 1].bucket, unique[|unique| - 1].used);
            cur == Behind(d.curIdx, k, d.nr) && used == Used(d.disk[cur])
  {
    if |log| == 0 {
      OnlyEmptyBuckets(d, log, lastSeq, bounds);
      k := Dist(0, d.curIdx, d.nr);
      BehindDist(0, d.curIdx, d.nr);
    } else {
      var f := unique[|unique| - 1];
      assert f in unique && f.rec == log[bounds[d.nr] + |unique| - 1];
      k := NewestBucket(d, log, lastSeq, bounds, f);
    }
  }

  lemma ReadRebuilds<U(!new)>(d: Device<U>, log: seq<Record<U>>, lastSeq: nat, bounds: seq<nat>, unique: seq<Found<U>>)
    requires RingInv(d, log, lastSeq, bounds) && IsTail(unique, d, log, bounds[d.nr])
    requires Scanned(unique, d.nr, d.bucketSize) && |log| < JournalSeqMax
    ensures ReadsWindow(Select(d.nr, d.bucketSize, d.disk, unique), log)
    ensures JournalInv(Run(Select(d.nr, d.bucketSize, d.disk, unique).journal, log))
  {
    ReadOfTail(d, log, lastSeq, bounds, unique);
    var k := NewestFound(d, log, lastSeq, bounds, unique);
    var res := Select(d.nr, d.bucketSize, d.disk, unique);
    var first := if |log| == 0 then 1 else log[|log| - 1].lastSeq;
    var cur := Behind(d.curIdx, k, d.nr);
    RebuiltKeeps(d, log, lastSeq, bounds, k, Used(d.disk[cur]), first);
  }

  lemma OnlyEmptyBuckets<U(!new)>(d: Device<U>, log: seq<Record<U>>, lastSeq: nat, bounds: seq<nat>)
    requires RingInv(d, log, lastSeq, bounds) && |log| == 0
    ensures forall i | 0 <= i < d.nr :: Used(d.disk[i]) == 0
    ensures forall k | 0 <= k <= d.nr :: bounds[k] == 0
  {
    forall i | 0 <= i < d.nr
      ensures Used(d.disk[i]) == 0
    {
      BucketSlice(d, log, lastSeq, bounds, i);
    }
    assert forall k | 0 <= k <= d.nr :: bounds[k] <= bounds[0];
  }

  /** What the scan of such a device hands to the selection of the window. */
  lemma ReadIsSelect<U(!new)>(d: Device<U>, log: seq<Record<U>>, lastSeq: nat, bounds: seq<nat>)
    requires RingInv(d, log, lastSeq, bounds)
    ensures var unique := Dedup(SortBySeq(ScanBuckets(d.disk, d.nr)));
            && IsTail(unique, d, log, bounds[d.nr]) && Scanned(unique, d.nr, d.bucketSize)
            && ReadDevice(d) == Select(d.nr, d.bucketSize, d.disk, unique)
  {
    forall i | 0 <= i < d.nr
      ensures !BadBucket(d.disk[i], 0, 0, d.bucketSize)
    {
      ScanOneBucket(d, log, lastSeq, bounds, i);
    }
    UniqueIsTail(d, log, lastSeq, bounds);
    UniqueScanned(d.disk, d.bucketSize);
  }

  /** Reading the device of any state that satisfies the invariant, whether or not memory survived. */
  lemma ReadKeeps<U(!new)>(r: Run<U>)
    requires JournalInv(r)
    ensures Recovers(r.j.dev, r.log) && JournalInv(Run(ReadDevice(r.j.dev).journal, r.log))
  {
    var d := r.j.dev;
    var bounds :| RingInv(d, r.log, r.j.lastSeq, bounds);
    ReadIsSelect(d, r.log, r.j.lastSeq, bounds);
    ReadRebuilds(d, r.log, r.j.lastSeq, bounds, Dedup(SortBySeq(ScanBuckets(d.disk, d.nr))));
  }

  // ----- steps

  /** What a caller owes: pins name a tracked sequence number, records are not empty blocks. */
  predicate Enabled<U>(r: Run<U>, s: Step<U>) {
    match s
    case SetPin(newSeq, _) => r.j.front <= newSeq <= r.j.seqno
    case AddPin(newSeq, _) => r.j.front <= newSeq <= r.j.seqno
    case UpdatePin(newSeq, _) => r.j.front <= newSeq <= r.j.seqno
    case FlushEntry(_, sectors, _) => sectors >= 1 && r.j.seqno < JournalSeqMax
    case _ => true
  }

  /** No assertion of the code fails, and a read of the device succeeds. */
  ghost predicate Safe<U(!new)>(r: Run<U>, s: Step<U>) {
    && r.j.Shaped()
    && match s
       case SetPin(newSeq, pin) => PinOnList(r.j, pin) && newSeq < r.j.front + |r.j.lists|
       case AddPin(newSeq, pin) => PinOnList(r.j, pin) && newSeq < r.j.front + |r.j.lists|
       case UpdatePin(newSeq, pin) => PinOnList(r.j, pin) && newSeq < r.j.front + |r.j.lists|
       case DropPin(pin) => PinOnList(r.j, pin)
       case ReplayDone(_) => UnreplayedCounted(r.j.lists)
       case Checkpoint(_) => true
       case FlushEntry(_, _, _) => Flushable(r.j) && r.j.front + |r.j.lists| == r.j.seqno + 1
       case Crash => ReadDevice(r.j.dev).ReadOk?
  }

  ghost function Apply<U(!new)>(r: Run<U>, s: Step<U>): Run<U>
    requires Enabled(r, s) && Safe(r, s)
  {
    match s
    case SetPin(newSeq, pin) => r.(j := PinSet(r.j, newSeq, pin))
    case AddPin(newSeq, pin) => r.(j := PinAdd(r.j, newSeq, pin))
    case UpdatePin(newSeq, pin) => r.(j := PinUpdate(r.j, newSeq, pin))
    case DropPin(pin) => r.(j := PinDrop(r.j, pin))
    case ReplayDone(end) => r.(j := ReplayPinsPut(r.j, end))
    case Checkpoint(lastSeqOndisk) => r.(j := UpdateLastSeqOndisk(r.j, lastSeqOndisk).1)
    case FlushEntry(updates, sectors, fault) =>
      var (code, j) := Flush(r.j, updates, sectors, fault);
      Run(j, if code == 0 then r.log + [OpenRecord(r.j, updates, sectors)] else r.log)
    case Crash => r.(j := ReadDevice(r.j.dev).journal)
  }

  /** In a state that satisfies the invariant no step can fail an assertion. */
  lemma InvariantIsSafe<U(!new)>(r: Run<U>, s: Step<U>)
    requires JournalInv(r) && Enabled(r, s)
    ensures Safe(r, s)
  {
    match s
    case SetPin(_, pin) => PinIsOnList(r.j, pin);
    case AddPin(_, pin) => PinIsOnList(r.j, pin);
    case UpdatePin(_, pin) => PinIsOnList(r.j, pin);
    case DropPin(pin) => PinIsOnList(r.j, pin);
    case ReplayDone(_) => PinCountsUnreplayed(r.j);
    case Checkpoint(_) =>
    case FlushEntry(_, _, _) => OpenNextKeeps(r.j, OpenRecord(r.j, [], 1));
    case Crash => ReadKeeps(r);
  }

  /** Steps that only update last_seq on top of unchanged device contents. */
  lemma LastSeqRing<U>(before: Journal<U>, j: Journal<U>, log: seq<Record<U>>, bounds: seq<nat>)
    requires j.Shaped() && before.dev == j.dev && RingInv(j.dev, log, before.lastSeq, bounds)
    requires PinBase(j) && before.lastSeq == j.lastSeq <= j.front
    ensures RingInv(UpdateLastSeq(j).dev, log, UpdateLastSeq(j).lastSeq, bounds)
  {
    UpdateLastSeqKeeps(j);
    var (front, lists) := PopLists(j.front, j.lists, j.seqOndisk);
    PopKeeps(j);
    var popped := j.(front := front, lists := lists, lastSeq := front);
    LaterLastSeqKeeps(j.dev, log, j.lastSeq, front, bounds);
    ReclaimKeeps(popped, log, bounds);
  }

  lemma SetPinRing<U(!new)>(r: Run<U>, newSeq: nat, pin: nat, bounds: seq<nat>)
    requires PinInv(r.j) && r.j.front <= newSeq <= r.j.seqno && PinOnList(r.j, pin)
    requires RingInv(r.j.dev, r.log, r.j.lastSeq, bounds)
    ensures RingInv(PinSet(r.j, newSeq, pin).dev, r.log, PinSet(r.j, newSeq, pin).lastSeq, bounds)
  {
    var at := PinOf(r.j.pinSeq, pin);
    if at != 0 {
      ReleaseKeeps(r.j, pin);
      var released := r.j.(lists := ListPut(r.j.lists, at - r.j.front, pin), pinSeq := r.j.pinSeq[pin := 0]);
      AcquireKeeps(released, newSeq, pin);
      var moved := r.j.(lists := ListGet(released.lists, newSeq - r.j.front, pin), pinSeq := r.j.pinSeq[pin := newSeq]);
      assert released.pinSeq[pin := newSeq] == moved.pinSeq;
      LastSeqRing(r.j, moved, r.log, bounds);
    }
  }

  lemma SetPinKeeps<U(!new)>(r: Run<U>, newSeq: nat, pin: nat)
    requires JournalInv(r) && r.j.front <= newSeq <= r.j.seqno
    ensures PinOnList(r.j, pin) && JournalInv(r.(j := PinSet(r.j, newSeq, pin)))
    ensures PinSet(r.j, newSeq, pin).lastSeq >= r.j.lastSeq
  {
    var bounds :| RingInv(r.j.dev, r.log, r.j.lastSeq, bounds);
    PinSetKeeps(r.j, newSeq, pin);
    SetPinRing(r, newSeq, pin, bounds);
  }

  lemma DropPinKeeps<U(!new)>(r: Run<U>, pin: nat)
    requires JournalInv(r)
    ensures PinOnList(r.j, pin) && JournalInv(r.(j := PinDrop(r.j, pin)))
    ensures PinDrop(r.j, pin).lastSeq >= r.j.lastSeq
  {
    var bounds :| RingInv(r.j.dev, r.log, r.j.lastSeq, bounds);
    PinDropKeeps(r.j, pin);
    var at := PinOf(r.j.pinSeq, pin);
    if at != 0 {
      ReleaseKeeps(r.j, pin);
      var released := r.j.(lists := ListPut(r.j.lists, at - r.j.front, pin), pinSeq := r.j.pinSeq[pin := 0]);
      LastSeqRing(r.j, released, r.log, bounds);
      assert PinDrop(r.j, pin) == UpdateLastSeq(released);
    }
    RingFound(r, PinDrop(r.j, pin), bounds);
  }

  lemma RingFound<U(!new)>(r: Run<U>, j: Journal<U>, bounds: seq<nat>)
    requires JournalInv(r) && PinInv(j) && j.seqno == r.j.seqno && j.lastSeq >= r.j.lastSeq
    requires RingInv(j.dev, r.log, j.lastSeq, bounds)
    ensures JournalInv(r.(j := j))
  {
  }

  lemma ReplayDoneKeeps<U(!new)>(r: Run<U>, end: nat)
    requires JournalInv(r)
    ensures UnreplayedCounted(r.j.lists) && JournalInv(r.(j := ReplayPinsPut(r.j, end)))
    ensures ReplayPinsPut(r.j, end).lastSeq >= r.j.lastSeq
  {
    var bounds :| RingInv(r.j.dev, r.log, r.j.lastSeq, bounds);
    ReplayPinsPutKeeps(r.j, end);
    PutReplayedKeeps(r.j, ReplayedLists(r.j, end));
    LastSeqRing(r.j, r.j.(lists := PutReplayed(r.j.lists, ReplayedLists(r.j, end))), r.log, bounds);
  }

  lemma CheckpointKeeps<U(!new)>(r: Run<U>, lastSeqOndisk: nat)
    requires JournalInv(r)
    ensures JournalInv(r.(j := UpdateLastSeqOndisk(r.j, lastSeqOndisk).1))
  {
    var bounds :| RingInv(r.j.dev, r.log, r.j.lastSeq, bounds);
    var j := UpdateLastSeqOndisk(r.j, lastSeqOndisk).1;
    ReclaimKeeps(r.j.(lastSeqOndisk := lastSeqOndisk), r.log, bounds);
    PinsIgnoreDevice(r.j, j);
    assert RingInv(j.dev, r.log, j.lastSeq, bounds);
  }

  /** The device after the write: the record appended on success, the log unchanged otherwise. */
  lemma WriteKeeps<U(!new)>(r: Run<U>, updates: seq<U>, sectors: nat, fault: bool) returns (bounds: seq<nat>)
    requires JournalInv(r) && sectors >= 1
    ensures var rec := OpenRecord(r.j, updates, sectors);
            var (code, d) := WriteRecord(r.j.dev, rec, fault);
            RingInv(d, if code == 0 then r.log + [rec] else r.log, r.j.lastSeq, bounds)
  {
    bounds :| RingInv(r.j.dev, r.log, r.j.lastSeq, bounds);
    var rec := OpenRecord(r.j, updates, sectors);
    if sectors <= r.j.dev.bucketSize {
      if NeedsBucket(r.j.dev, sectors) {
        AdvanceBucketKeeps(r.j.dev, r.log, r.j.lastSeq, bounds, rec.seqno, sectors);
        bounds := [|r.log|] + bounds[..r.j.dev.nr];
      }
      bounds := AppendOrNot(AdvanceBucket(r.j.dev, rec.seqno, sectors), r.log, r.j.lastSeq, bounds, rec, fault);
    }
  }

  lemma AppendOrNot<U(!new)>(
    d: Device<U>, log: seq<Record<U>>, lastSeq: nat, bounds: seq<nat>, rec: Record<U>, fault: bool)
    returns (bounds': seq<nat>)
    requires RingInv(d, log, lastSeq, bounds) && |log| < JournalSeqMax
    requires rec.seqno == |log| + 1 && rec.lastSeq == lastSeq && 1 <= lastSeq <= rec.seqno && !rec.noFlush
    requires rec.sectors >= 1
    requires |log| > 0 ==> log[|log| - 1].lastSeq <= lastSeq
    ensures if rec.sectors <= d.sectorsFree && !fault then RingInv(AppendRecord(d, rec), log + [rec], lastSeq, bounds')
            else RingInv(d, log, lastSeq, bounds')
  {
    bounds' := bounds;
    if rec.sectors <= d.sectorsFree && !fault {
      AppendKeeps(d, log, lastSeq, bounds, rec);
      bounds' := bounds[0 := |log| + 1];
    }
  }

  /** Everything a flush does once its record is durable. */
  lemma PublishKeeps<U(!new)>(j: Journal<U>, rec: Record<U>, log: seq<Record<U>>, bounds: seq<nat>)
    requires PinInv(j) && RingInv(j.dev, log, j.lastSeq, bounds)
    requires |log| == j.seqno < JournalSeqMax && log[|log| - 1].lastSeq == j.lastSeq
    ensures Flushable(j)
    ensures JournalInv(Run(DoDiscards(SpaceAvailable(UpdateLastSeq(OpenNext(j, rec)))), log))
    ensures UpdateLastSeq(OpenNext(j, rec)).lastSeq >= j.lastSeq
  {
    OpenNextKeeps(j, rec);
    var next := OpenNext(j, rec);
    UpdateLastSeqKeeps(next);
    LastSeqRing(next, next, log, bounds);
    ReclaimedKeeps(UpdateLastSeq(next), log, bounds);
  }

  /** Moving the ring indices last keeps everything. */
  lemma {:induction false} ReclaimedKeeps<U(!new)>(j: Journal<U>, log: seq<Record<U>>, bounds: seq<nat>)
    requires PinInv(j) && RingInv(j.dev, log, j.lastSeq, bounds)
    requires |log| + 1 == j.seqno <= JournalSeqMax && (|log| > 0 ==> log[|log| - 1].lastSeq <= j.lastSeq)
    ensures JournalInv(Run(DoDiscards(SpaceAvailable(j)), log))
  {
    ReclaimKeeps(j, log, bounds);
    PinsIgnoreDevice(j, DoDiscards(SpaceAvailable(j)));
  }

  lemma FlushKeeps<U(!new)>(r: Run<U>, updates: seq<U>, sectors: nat, fault: bool)
    requires JournalInv(r) && sectors >= 1 && r.j.seqno < JournalSeqMax
    ensures Flushable(r.j)
    ensures var (code, j) := Flush(r.j, updates, sectors, fault);
            && JournalInv(Run(j, if code == 0 then r.log + [OpenRecord(r.j, updates, sectors)] else r.log))
            && j.lastSeq >= r.j.lastSeq
  {
    var rec := OpenRecord(r.j, updates, sectors);
    OpenNextKeeps(r.j, rec);
    var bounds := WriteKeeps(r, updates, sectors, fault);
    var (code, d) := WriteRecord(r.j.dev, rec, fault);
    var written := r.j.(dev := d);
    PinsIgnoreDevice(r.j, written);
    if code == 0 {
      PublishKeeps(written, rec, r.log + [rec], bounds);
    } else {
      RingFound(r, written, bounds);
    }
  }

  lemma PinStepKeeps<U(!new)>(r: Run<U>, s: Step<U>)
    requires JournalInv(r) && Enabled(r, s) && (s.SetPin? || s.AddPin? || s.UpdatePin? || s.DropPin?)
    ensures Safe(r, s) && JournalInv(Apply(r, s)) && Apply(r, s).j.lastSeq >= r.j.lastSeq
  {
    InvariantIsSafe(r, s);
    if s.DropPin? {
      DropPinKeeps(r, s.pin);
    } else {
      SetPinKeeps(r, s.newSeq, s.pin);
    }
  }

  lemma StepKeeps<U(!new)>(r: Run<U>, s: Step<U>)
    requires JournalInv(r) && Enabled(r, s)
    ensures Safe(r, s) && JournalInv(Apply(r, s))
    ensures !s.Crash? ==> Apply(r, s).j.lastSeq >= r.j.lastSeq
  {
    InvariantIsSafe(r, s);
    match s
    case SetPin(_, _) => PinStepKeeps(r, s);
    case AddPin(_, _) => PinStepKeeps(r, s);
    case UpdatePin(_, _) => PinStepKeeps(r, s);
    case DropPin(_) => PinStepKeeps(r, s);
    case ReplayDone(end) => ReplayDoneKeeps(r, end);
    case Checkpoint(lastSeqOndisk) => CheckpointKeeps(r, lastSeqOndisk);
    case FlushEntry(updates, sectors, fault) => FlushKeeps(r, updates, sectors, fault);
    case Crash => ReadKeeps(r);
  }

  // ----- runs

  /** Formatting a device of `nr` buckets and reading it for the first time. */
  ghost predicate Formatted<U(!new)>(r: Run<U>, nr: nat, bucketSize: nat) {
    && nr >= 1
    && var res := ReadDevice(EmptyDevice<U>(nr, bucketSize));
       res.ReadOk? && r == Run(res.journal, [])
  }

  /** The steps `ss` lead from `r0` to `r`. */
  ghost predicate Leads<U(!new)>(r0: Run<U>, ss: seq<Step<U>>, r: Run<U>)
    decreases |ss|
  {
    if |ss| == 0 then r == r0
    else Enabled(r0, ss[0]) && Safe(r0, ss[0]) && Leads(Apply(r0, ss[0]), ss[1..], r)
  }

  lemma FormattedKeeps<U(!new)>(r: Run<U>, nr: nat, bucketSize: nat)
    requires Formatted(r, nr, bucketSize)
    ensures JournalInv(r)
  {
    var d := EmptyDevice<U>(nr, bucketSize);
    EmptyDeviceInv<U>(nr, bucketSize);
    RestartedKeeps(1, 1, d);
    assert RingInv(d, [], 1, seq(nr + 1, _ => 0));
    assert JournalInv(Run(Restarted(1, 1, d), []));
    ReadKeeps(Run(Restarted(1, 1, d), []));
  }

  /** Every run keeps the journal invariant, and flushed records are never forgotten or changed. */
  lemma {:induction false} RunsKeepInvariant<U(!new)>(r0: Run<U>, ss: seq<Step<U>>, r: Run<U>)
    requires JournalInv(r0) && Leads(r0, ss, r)
    ensures JournalInv(r) && r0.log <= r.log
    decreases |ss|
  {
    if |ss| > 0 {
      StepKeeps(r0, ss[0]);
      LogGrows(r0, ss[0]);
      RunsKeepInvariant(Apply(r0, ss[0]), ss[1..], r);
    }
  }

  lemma LogGrows<U(!new)>(r: Run<U>, s: Step<U>)
    requires Enabled(r, s) && Safe(r, s)
    ensures r.log <= Apply(r, s).log
  {
  }

  /**
   In every state of every run from an empty device -- also right after a failed record
   write, when the next bucket is already zeroed, and also after a checkpoint moved
   last_seq_ondisk ahead of what any record says -- no assertion of the code can fail and
   reading the device returns exactly the newest record's window.
   */
  lemma ReadReturnsWindow<U(!new)>(nr: nat, bucketSize: nat, r0: Run<U>, ss: seq<Step<U>>, r: Run<U>, s: Step<U>)
    requires Formatted(r0, nr, bucketSize) && Leads(r0, ss, r)
    ensures Recovers(r.j.dev, r.log)
    ensures Enabled(r, s) ==> Safe(r, s)
  {
    FormattedKeeps(r0, nr, bucketSize);
    RunsKeepInvariant(r0, ss, r);
    ReadKeeps(r);
    if Enabled(r, s) {
      InvariantIsSafe(r, s);
    }
  }

  /** The last sequence number: its record is still written and still recovered, but -2 is returned. */
  lemma FlushAtSeqMax<U(!new)>(r: Run<U>, updates: seq<U>, sectors: nat)
    requires JournalInv(r) && sectors >= 1 && r.j.seqno == JournalSeqMax
    requires WriteRecord(r.j.dev, OpenRecord(r.j, updates, sectors), false).0 == 0
    ensures Flushable(r.j)
    ensures var (code, j) := Flush(r.j, updates, sectors, false);
            && code == -2 && j == r.j.(dev := j.dev)
            && Recovers(j.dev, r.log + [OpenRecord(r.j, updates, sectors)])
  {
    var rec := OpenRecord(r.j, updates, sectors);
    OpenNextKeeps(r.j, rec);
    var bounds := WriteKeeps(r, updates, sectors, false);
    var d := WriteRecord(r.j.dev, rec, false).1;
    var log := r.log + [rec];
    ReadIsSelect(d, log, r.j.lastSeq, bounds);
    ReadOfTail(d, log, r.j.lastSeq, bounds, Dedup(SortBySeq(ScanBuckets(d.disk, d.nr))));
  }

  // ----- last_seq_ondisk ahead of last_seq

  /** A new journal: sequence number 1 is open and nothing is flushed. */
  lemma FreshEntry<U(!new)>(r: Run<U>, nr: nat, bucketSize: nat, updates: seq<U>)
    requires Formatted(r, nr, bucketSize) && bucketSize >= 1
    ensures JournalInv(r) && r.j.seqno == r.j.front == r.j.lastSeq == 1 && |r.j.lists| == 1
    ensures WriteRecord(r.j.dev, OpenRecord(r.j, updates, 1), false).0 == 0
  {
    FormattedKeeps(r, nr, bucketSize);
    var d := r.j.dev;
    var bounds :| RingInv(d, r.log, r.j.lastSeq, bounds);
    OnlyEmptyBuckets(d, r.log, r.j.lastSeq, bounds);
    SameBucketSize(EmptyDevice<U>(nr, bucketSize));
  }

  lemma SameBucketSize<U(!new)>(d: Device<U>)
    requires d.Shaped()
    ensures ReadDevice(d).ReadOk? ==> ReadDevice(d).journal.dev.bucketSize == d.bucketSize
  {
  }

  /**
   A pin on sequence number 1 and a flush of the empty entry it is on: last_seq_ondisk passes
   last_seq, on every formatted device.
   */
  lemma PinnedEmptyFlush<U(!new)>(r0: Run<U>, nr: nat, bucketSize: nat, pin: nat) returns (r: Run<U>)
    requires Formatted(r0, nr, bucketSize) && bucketSize >= 1
    ensures Leads(r0, [AddPin(1, pin), FlushEntry([], 1, false)], r)
    ensures r.j.lastSeqOndisk > r.j.lastSeq == 1
  {
    FreshEntry(r0, nr, bucketSize, []);
    var ss: seq<Step<U>> := [AddPin(1, pin), FlushEntry([], 1, false)];
    StepKeeps(r0, ss[0]);
    var r1 := Apply(r0, ss[0]);
    StepKeeps(r1, ss[1]);
    r := Apply(r1, ss[1]);
    assert ss[1..] == [FlushEntry([], 1, false)] && ss[1..][1..] == [];
    assert Leads(r, [], r);
  }
}
