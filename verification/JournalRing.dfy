/**
 What the circular log keeps: the buckets, read backwards from the current one, hold
 consecutive slices of everything ever flushed, and the chasing indices never let the
 newest record's window be overwritten.
 */
module JournalRing {
  import opened JournalModel

  /** The bucket `k` steps behind `cur`. */
  function Behind(cur: nat, k: nat, nr: nat): (i: nat)
    requires cur < nr && k < nr
    ensures i < nr
  {
    if k <= cur then cur - k else cur + nr - k
  }

  function Used<U>(recs: seq<Record<U>>): nat {
    if |recs| == 0 then 0 else Used(recs[..|recs| - 1]) + recs[|recs| - 1].sectors
  }

  /** Everything ever flushed: record i has sequence number i + 1. */
  ghost predicate LogOk<U>(log: seq<Record<U>>) {
    && |log| <= JournalSeqMax
    && forall i | 0 <= i < |log| ::
         log[i].seqno == i + 1 && 1 <= log[i].lastSeq <= i + 1 && !log[i].noFlush && log[i].sectors >= 1
  }

  /** Bucket `k` steps back holds log[bounds[k + 1]..bounds[k]]. */
  ghost predicate SliceAt<U>(d: Device<U>, log: seq<Record<U>>, bounds: seq<nat>, k: nat)
    requires d.Shaped() && k < d.nr && |bounds| == d.nr + 1
  {
    var at := Behind(d.curIdx, k, d.nr);
    && bounds[k + 1] <= bounds[k] <= |log|
    && d.disk[at] == log[bounds[k + 1]..bounds[k]]
    && (bounds[k + 1] < bounds[k] ==> d.bucketSeq[at] == bounds[k])
  }

  ghost predicate Decreasing(bounds: seq<nat>) {
    forall j, k | 0 <= j <= k < |bounds| :: bounds[k] <= bounds[j]
  }

  ghost predicate Slices<U>(d: Device<U>, log: seq<Record<U>>, bounds: seq<nat>)
    requires d.Shaped()
  {
    && |bounds| == d.nr + 1 && bounds[0] == |log|
    && Decreasing(bounds)
    && forall k | 0 <= k < d.nr :: SliceAt(d, log, bounds, k)
  }

  /** discard, dirty-on-disk, dirty and current chase each other; one bucket stays clear of dirty. */
  ghost predicate Chase<U>(d: Device<U>)
    requires d.Shaped()
  {
    && Dist(d.dirtyIdx, d.curIdx, d.nr) <= Dist(d.dirtyIdxOndisk, d.curIdx, d.nr) <= Dist(d.discardIdx, d.curIdx, d.nr)
    && (d.nr >= 2 ==> Dist(d.dirtyIdx, d.curIdx, d.nr) <= d.nr - 2)
  }

  /** No record from `lastSeq` on lies in a bucket the dirty index has passed. */
  ghost predicate DirtyCovers<U>(d: Device<U>, bounds: seq<nat>, lastSeq: nat)
    requires d.Shaped() && |bounds| == d.nr + 1
  {
    bounds[Dist(d.dirtyIdx, d.curIdx, d.nr) + 1] < lastSeq
  }

  /** The newest record's window is on the device, and clear of the bucket that would be zeroed next. */
  ghost predicate WindowKept<U>(d: Device<U>, log: seq<Record<U>>, bounds: seq<nat>)
    requires d.Shaped() && |bounds| == d.nr + 1
  {
    |log| >= 1 ==>
      && bounds[d.nr] < log[|log| - 1].lastSeq
      && (bounds[1] < bounds[0] && d.nr >= 2 ==> bounds[d.nr - 1] < log[|log| - 1].lastSeq)
  }

  ghost predicate Filled<U>(d: Device<U>)
    requires d.Shaped()
  {
    d.sectorsFree + Used(d.disk[d.curIdx]) == d.bucketSize
  }

  ghost predicate RingInv<U>(d: Device<U>, log: seq<Record<U>>, lastSeq: nat, bounds: seq<nat>) {
    && d.Shaped() && LogOk(log)
    && Slices(d, log, bounds) && Chase(d) && DirtyCovers(d, bounds, lastSeq)
    && WindowKept(d, log, bounds) && Filled(d)
    && forall i | 0 <= i < d.nr :: Used(d.disk[i]) <= d.bucketSize
  }

  lemma BehindDist(a: nat, cur: nat, nr: nat)
    requires a < nr && cur < nr
    ensures Dist(a, cur, nr) < nr && Behind(cur, Dist(a, cur, nr), nr) == a
  {
  }

  lemma AvailableIsDistance<U>(d: Device<U>)
    requires d.Shaped()
    ensures var room := d.nr - 1 - Dist(d.discardIdx, d.curIdx, d.nr);
            Available(d, d.discardIdx) == if room > 0 && d.dirtyIdxOndisk == d.dirtyIdx then room - 1 else room
  {
    var room := d.nr - 1 - Dist(d.discardIdx, d.curIdx, d.nr);
    var raw := d.discardIdx + d.nr - d.curIdx - 1;
    assert raw == room || raw == room + d.nr;
    assert 0 <= room < d.nr;
    assert raw % d.nr == room by {
      if raw == room {
        SmallMod(room, d.nr);
      } else {
        WrapMod(room, d.nr);
      }
    }
  }

  lemma SmallMod(a: nat, n: nat)
    requires a < n
    ensures a % n == a
  {
  }

  lemma WrapMod(a: nat, n: nat)
    requires a < n
    ensures (a + n) % n == a
  {
    assert (a + n) / n == 1;
  }

  // ----- index moves keep the invariant

  lemma SlicesIgnoreIndices<U>(d: Device<U>, d': Device<U>, log: seq<Record<U>>, bounds: seq<nat>)
    requires d.Shaped() && d'.Shaped() && Slices(d, log, bounds)
    requires d'.nr == d.nr && d'.curIdx == d.curIdx && d'.disk == d.disk && d'.bucketSeq == d.bucketSeq
    ensures Slices(d', log, bounds)
  {
    forall k | 0 <= k < d.nr
      ensures SliceAt(d', log, bounds, k)
    {
      assert SliceAt(d, log, bounds, k);
    }
  }

  lemma {:induction false} AdvanceDirtyKeeps<U>(d: Device<U>, log: seq<Record<U>>, lastSeq: nat, bounds: seq<nat>)
    requires RingInv(d, log, lastSeq, bounds)
    ensures RingInv(AdvanceDirty(d, lastSeq), log, lastSeq, bounds)
    decreases Dist(d.dirtyIdx, d.curIdx, d.nr)
  {
    if d.dirtyIdx != d.curIdx && d.bucketSeq[d.dirtyIdx] < lastSeq {
      var k := Dist(d.dirtyIdx, d.curIdx, d.nr);
      DistNextLeft(d.dirtyIdx, d.curIdx, d.nr);
      BehindDist(d.dirtyIdx, d.curIdx, d.nr);
      assert SliceAt(d, log, bounds, k);
      var d' := d.(dirtyIdx := Next(d.dirtyIdx, d.nr));
      SlicesIgnoreIndices(d, d', log, bounds);
      AdvanceDirtyKeeps(d', log, lastSeq, bounds);
    }
  }

  lemma {:induction false} AdvanceOndiskKeeps<U>(
    d: Device<U>, log: seq<Record<U>>, lastSeq: nat, lastSeqOndisk: nat, bounds: seq<nat>)
    requires RingInv(d, log, lastSeq, bounds)
    ensures RingInv(AdvanceOndisk(d, lastSeqOndisk), log, lastSeq, bounds)
    decreases Dist(d.dirtyIdxOndisk, d.dirtyIdx, d.nr)
  {
    if d.dirtyIdxOndisk != d.dirtyIdx && d.bucketSeq[d.dirtyIdxOndisk] < lastSeqOndisk {
      DistNextLeft(d.dirtyIdxOndisk, d.dirtyIdx, d.nr);
      DistNextLeft(d.dirtyIdxOndisk, d.curIdx, d.nr);
      var d' := d.(dirtyIdxOndisk := Next(d.dirtyIdxOndisk, d.nr));
      SlicesIgnoreIndices(d, d', log, bounds);
      AdvanceOndiskKeeps(d', log, lastSeq, lastSeqOndisk, bounds);
    }
  }

  /** bch2_journal_space_available() followed by bch2_journal_do_discards(). */
  lemma ReclaimKeeps<U>(j: Journal<U>, log: seq<Record<U>>, bounds: seq<nat>)
    requires RingInv(j.dev, log, j.lastSeq, bounds)
    ensures RingInv(SpaceAvailable(j).dev, log, j.lastSeq, bounds)
    ensures RingInv(DoDiscards(SpaceAvailable(j)).dev, log, j.lastSeq, bounds)
  {
    AdvanceDirtyKeeps(j.dev, log, j.lastSeq, bounds);
    AdvanceOndiskKeeps(AdvanceDirty(j.dev, j.lastSeq), log, j.lastSeq, j.lastSeqOndisk, bounds);
    SlicesIgnoreIndices(SpaceAvailable(j).dev, DoDiscards(SpaceAvailable(j)).dev, log, bounds);
  }

  lemma LaterLastSeqKeeps<U>(d: Device<U>, log: seq<Record<U>>, lastSeq: nat, later: nat, bounds: seq<nat>)
    requires RingInv(d, log, lastSeq, bounds) && lastSeq <= later
    ensures RingInv(d, log, later, bounds)
  {
  }

  // ----- the device part of a flush

  lemma AdvanceSlices<U>(d: Device<U>, log: seq<Record<U>>, bounds: seq<nat>, seqno: nat, sectors: nat)
    requires d.Shaped() && Slices(d, log, bounds) && NeedsBucket(d, sectors)
    ensures Slices(AdvanceBucket(d, seqno, sectors), log, [|log|] + bounds[..d.nr])
  {
    var d' := AdvanceBucket(d, seqno, sectors);
    var bounds' := [|log|] + bounds[..d.nr];
    NextIsWrap(d.curIdx, d.nr);
    forall k | 0 <= k < d.nr
      ensures SliceAt(d', log, bounds', k)
    {
      assert bounds'[k + 1] == bounds[k];
      if k > 0 {
        assert SliceAt(d, log, bounds, k - 1);
        assert bounds'[k] == bounds[k - 1];
        assert Behind(d'.curIdx, k, d.nr) == Behind(d.curIdx, k - 1, d.nr) != d'.curIdx;
      }
    }
  }

  lemma AdvanceChase<U>(d: Device<U>, seqno: nat, sectors: nat)
    requires d.Shaped() && Chase(d) && NeedsBucket(d, sectors)
    ensures Chase(AdvanceBucket(d, seqno, sectors))
    ensures Dist(d.dirtyIdx, Next(d.curIdx, d.nr), d.nr) == Dist(d.dirtyIdx, d.curIdx, d.nr) + 1
  {
    NextIsWrap(d.curIdx, d.nr);
    AvailableIsDistance(d);
  }

  lemma AdvanceCovers<U>(d: Device<U>, log: seq<Record<U>>, lastSeq: nat, bounds: seq<nat>, seqno: nat, sectors: nat)
    requires d.Shaped() && |bounds| == d.nr + 1 && bounds[0] == |log| >= 1 && bounds[1] < bounds[0]
    requires DirtyCovers(d, bounds, lastSeq) && WindowKept(d, log, bounds)
    requires NeedsBucket(d, sectors)
    requires Dist(d.dirtyIdx, Next(d.curIdx, d.nr), d.nr) == Dist(d.dirtyIdx, d.curIdx, d.nr) + 1
    ensures DirtyCovers(AdvanceBucket(d, seqno, sectors), [|log|] + bounds[..d.nr], lastSeq)
    ensures WindowKept(AdvanceBucket(d, seqno, sectors), log, [|log|] + bounds[..d.nr])
  {
    AvailableIsDistance(d);
    assert ([|log|] + bounds[..d.nr])[d.nr] == bounds[d.nr - 1];
  }

  lemma AdvanceFilled<U>(d: Device<U>, seqno: nat, sectors: nat)
    requires d.Shaped() && NeedsBucket(d, sectors)
    requires forall i | 0 <= i < d.nr :: Used(d.disk[i]) <= d.bucketSize
    ensures Filled(AdvanceBucket(d, seqno, sectors))
    ensures forall i | 0 <= i < d.nr :: Used(AdvanceBucket(d, seqno, sectors).disk[i]) <= d.bucketSize
  {
  }

  /** Zeroing the next bucket costs nothing the newest record needs. */
  lemma AdvanceBucketKeeps<U>(
      d: Device<U>, log: seq<Record<U>>, lastSeq: nat, bounds: seq<nat>, seqno: nat, sectors: nat)
    requires RingInv(d, log, lastSeq, bounds) && NeedsBucket(d, sectors)
    ensures RingInv(AdvanceBucket(d, seqno, sectors), log, lastSeq, [|log|] + bounds[..d.nr])
  {
    AdvanceSlices(d, log, bounds, seqno, sectors);
    AdvanceChase(d, seqno, sectors);
    CurrentNonEmpty(d, log, lastSeq, bounds);
    AdvanceCovers(d, log, lastSeq, bounds, seqno, sectors);
    AdvanceFilled(d, seqno, sectors);
  }

  /** A bucket that is not wholly free holds a record. */
  lemma CurrentNonEmpty<U>(d: Device<U>, log: seq<Record<U>>, lastSeq: nat, bounds: seq<nat>)
    requires RingInv(d, log, lastSeq, bounds) && d.sectorsFree < d.bucketSize
    ensures |log| >= 1 && bounds[1] < bounds[0]
  {
    assert SliceAt(d, log, bounds, 0);
    assert |d.disk[d.curIdx]| > 0;
  }

  lemma AppendSlices<U>(d: Device<U>, log: seq<Record<U>>, bounds: seq<nat>, r: Record<U>)
    requires d.Shaped() && Slices(d, log, bounds)
    requires r.seqno == |log| + 1 && r.sectors <= d.sectorsFree
    ensures Slices(AppendRecord(d, r), log + [r], bounds[0 := |log| + 1])
  {
    var d' := AppendRecord(d, r);
    var log' := log + [r];
    var bounds' := bounds[0 := |log| + 1];
    forall k | 0 <= k < d.nr
      ensures SliceAt(d', log', bounds', k)
    {
      assert SliceAt(d, log, bounds, k);
      assert bounds'[k + 1] == bounds[k + 1];
      if k == 0 {
        assert Behind(d.curIdx, 0, d.nr) == d.curIdx;
        assert log'[bounds[1]..|log| + 1] == log[bounds[1]..|log|] + [r];
      } else {
        assert Behind(d.curIdx, k, d.nr) != d.curIdx;
        assert log'[bounds[k + 1]..bounds[k]] == log[bounds[k + 1]..bounds[k]];
      }
    }
  }

  lemma AppendUsed<U>(recs: seq<Record<U>>, r: Record<U>)
    ensures Used(recs + [r]) == Used(recs) + r.sectors
  {
    assert (recs + [r])[..|recs|] == recs;
  }

  lemma AppendKeeps<U>(d: Device<U>, log: seq<Record<U>>, lastSeq: nat, bounds: seq<nat>, r: Record<U>)
    requires RingInv(d, log, lastSeq, bounds)
    requires r.seqno == |log| + 1 <= JournalSeqMax && r.lastSeq == lastSeq && 1 <= lastSeq <= r.seqno
    requires 1 <= r.sectors <= d.sectorsFree && !r.noFlush
    ensures RingInv(AppendRecord(d, r), log + [r], lastSeq, bounds[0 := |log| + 1])
  {
    AppendSlices(d, log, bounds, r);
    AppendUsed(d.disk[d.curIdx], r);
    assert DirtyCovers(AppendRecord(d, r), bounds[0 := |log| + 1], lastSeq);
  }

  lemma {:induction false} EmptyDeviceInv<U>(nr: nat, bucketSize: nat)
    requires nr >= 1
    ensures RingInv(EmptyDevice<U>(nr, bucketSize), [], 1, seq(nr + 1, _ => 0))
  {
    var d := EmptyDevice<U>(nr, bucketSize);
    var bounds: seq<nat> := seq(nr + 1, _ => 0);
    forall k | 0 <= k < nr
      ensures SliceAt(d, [], bounds, k)
    {
      assert d.disk[Behind(d.curIdx, k, nr)] == [];
    }
  }
}
