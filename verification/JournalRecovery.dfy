/**
 bch2_journal_read() on a device that satisfies the ring invariant finds exactly the
 newest record's window, and the journal it installs satisfies the invariant again.
 */
module JournalRecovery {
  import opened JournalModel
  import opened JournalRead
  import opened JournalRing

  // ----- scanning one bucket

  lemma {:induction false} UsedFront<U(!new)>(recs: seq<Record<U>>)
    requires |recs| > 0
    ensures Used(recs) == recs[0].sectors + Used(recs[1..])
  {
    if |recs| > 1 {
      UsedFront(recs[..|recs| - 1]);
      assert recs[..|recs| - 1][1..] == recs[1..][..|recs| - 2];
    }
  }

  /** A bucket holding log[a..b] is scanned whole. */
  lemma {:induction false} ScanSlice<U(!new)>(
    log: seq<Record<U>>, a: nat, b: nat, bucket: nat, maxSeq: nat, used: nat, bucketSize: nat)
    requires LogOk(log) && a <= b <= |log| && maxSeq <= a + 1
    requires used + Used(log[a..b]) <= bucketSize
    ensures !BadBucket(log[a..b], maxSeq, used, bucketSize)
    ensures var f := ScanBucket(log[a..b], bucket, maxSeq, used);
            && |f| == b - a
            && (forall t | 0 <= t < b - a :: f[t].rec == log[a + t] && f[t].bucket == bucket && f[t].used <= bucketSize)
            && (b > a ==> f[b - a - 1].used == used + Used(log[a..b]))
    decreases b - a
  {
    var recs := log[a..b];
    if a < b {
      UsedFront(recs);
      assert recs[1..] == log[a + 1..b];
      ScanSlice(log, a + 1, b, bucket, recs[0].seqno, used + recs[0].sectors, bucketSize);
      var rest := ScanBucket(log[a + 1..b], bucket, recs[0].seqno, used + recs[0].sectors);
      var f := ScanBucket(recs, bucket, maxSeq, used);
      assert f == [Found(recs[0], bucket, used + recs[0].sectors)] + rest;
      if a + 1 == b {
        assert Used(recs[1..]) == 0;
      } else {
        assert f[b - a - 1] == rest[b - a - 2];
      }
    }
  }

  // ----- the order of what was found

  /** Strictly increasing, nothing outside (lo, hi], nothing missing: it is lo + 1, lo + 2, ... */
  lemma {:induction false} StrictAndComplete<U(!new)>(u: seq<Found<U>>, lo: nat, hi: nat)
    requires StrictBySeq(u) && lo <= hi
    requires forall i | 0 <= i < |u| :: lo < u[i].rec.seqno <= hi
    requires forall t | lo < t <= hi :: HasSeq(u, t)
    ensures |u| == hi - lo
    ensures forall i | 0 <= i < |u| :: u[i].rec.seqno == lo + 1 + i
    decreases hi - lo
  {
    assert |u| > 0 ==> lo < u[0].rec.seqno <= hi;
    if lo < hi {
      assert HasSeq(u, lo + 1);
      var k :| 0 <= k < |u| && u[k].rec.seqno == lo + 1;
      assert u[0].rec.seqno == lo + 1;
      var rest := u[1..];
      forall t | lo + 1 < t <= hi
        ensures HasSeq(rest, t)
      {
        assert HasSeq(u, t);
        var m :| 0 <= m < |u| && u[m].rec.seqno == t;
        assert rest[m - 1].rec.seqno == t;
      }
      StrictAndComplete(rest, lo + 1, hi);
      forall i | 0 <= i < |u|
        ensures u[i].rec.seqno == lo + 1 + i
      {
        if i > 0 {
          assert u[i] == rest[i - 1];
        }
      }
    }
  }

  // ----- scanning the whole device

  /** `f` is the log record with its own sequence number, found in the bucket that holds it. */
  ghost predicate Genuine<U(!new)>(f: Found<U>, d: Device<U>, log: seq<Record<U>>, lo: nat)
    requires d.Shaped()
  {
    && lo < f.rec.seqno <= |log| && f.rec == log[f.rec.seqno - 1]
    && f.bucket < d.nr && f.used <= d.bucketSize
    && |d.disk[f.bucket]| > 0
    && (f.rec == d.disk[f.bucket][|d.disk[f.bucket]| - 1] ==> f.used == Used(d.disk[f.bucket]))
    && f.rec in d.disk[f.bucket]
  }

  ghost predicate AllGenuine<U(!new)>(s: seq<Found<U>>, d: Device<U>, log: seq<Record<U>>, lo: nat)
    requires d.Shaped()
  {
    forall f | f in s :: Genuine(f, d, log, lo)
  }

  /** The slice bounds of bucket `i`. */
  lemma BucketSlice<U(!new)>(d: Device<U>, log: seq<Record<U>>, lastSeq: nat, bounds: seq<nat>, i: nat)
    requires RingInv(d, log, lastSeq, bounds) && i < d.nr
    ensures var k := Dist(i, d.curIdx, d.nr);
            && k < d.nr && bounds[d.nr] <= bounds[k + 1] <= bounds[k] <= |log|
            && d.disk[i] == log[bounds[k + 1]..bounds[k]]
  {
    BehindDist(i, d.curIdx, d.nr);
    assert SliceAt(d, log, bounds, Dist(i, d.curIdx, d.nr));
  }

  lemma SliceGenuine<U(!new)>(d: Device<U>, log: seq<Record<U>>, lo: nat, a: nat, b: nat, i: nat)
    requires d.Shaped() && LogOk(log) && lo <= a <= b <= |log| && i < d.nr
    requires d.disk[i] == log[a..b] && Used(d.disk[i]) <= d.bucketSize
    ensures !BadBucket(d.disk[i], 0, 0, d.bucketSize)
    ensures |ScanBucket(d.disk[i], i, 0, 0)| == b - a
    ensures forall t | 0 <= t < b - a ::
              && ScanBucket(d.disk[i], i, 0, 0)[t].rec.seqno == a + t + 1
              && ScanBucket(d.disk[i], i, 0, 0)[t].bucket == i
              && Genuine(ScanBucket(d.disk[i], i, 0, 0)[t], d, log, lo)
  {
    ScanSlice(log, a, b, i, 0, 0, d.bucketSize);
    var s := ScanBucket(d.disk[i], i, 0, 0);
    forall t | 0 <= t < b - a
      ensures s[t].rec.seqno == a + t + 1 && s[t].bucket == i && Genuine(s[t], d, log, lo)
    {
      assert s[t].rec == log[a + t] == d.disk[i][t];
      assert d.disk[i][b - a - 1] == log[b - 1];
    }
  }

  lemma ScanOneBucket<U(!new)>(d: Device<U>, log: seq<Record<U>>, lastSeq: nat, bounds: seq<nat>, i: nat)
    requires RingInv(d, log, lastSeq, bounds) && i < d.nr
    ensures !BadBucket(d.disk[i], 0, 0, d.bucketSize)
    ensures AllGenuine(ScanBucket(d.disk[i], i, 0, 0), d, log, bounds[d.nr])
    ensures var k := Dist(i, d.curIdx, d.nr);
            && |ScanBucket(d.disk[i], i, 0, 0)| == bounds[k] - bounds[k + 1]
            && (forall t | 0 <= t < bounds[k] - bounds[k + 1] ::
                  ScanBucket(d.disk[i], i, 0, 0)[t].rec.seqno == bounds[k + 1] + t + 1)
  {
    var k := Dist(i, d.curIdx, d.nr);
    BucketSlice(d, log, lastSeq, bounds, i);
    SliceGenuine(d, log, bounds[d.nr], bounds[k + 1], bounds[k], i);
  }

  lemma {:induction false} ScanGenuine<U(!new)>(
    d: Device<U>, log: seq<Record<U>>, lastSeq: nat, bounds: seq<nat>, n: nat)
    requires RingInv(d, log, lastSeq, bounds) && n <= d.nr
    ensures AllGenuine(ScanBuckets(d.disk, n), d, log, bounds[d.nr])
  {
    if n > 0 {
      ScanGenuine(d, log, lastSeq, bounds, n - 1);
      ScanOneBucket(d, log, lastSeq, bounds, n - 1);
    }
  }

  lemma {:induction false} ScanIncludes<U(!new)>(disk: seq<seq<Record<U>>>, n: nat, i: nat)
    requires i < n <= |disk|
    ensures forall f | f in ScanBucket(disk[i], i, 0, 0) :: f in ScanBuckets(disk, n)
  {
    if i < n - 1 {
      ScanIncludes(disk, n - 1, i);
    }
  }

  /** The distance of the bucket holding sequence number `t`. */
  lemma Locate<U(!new)>(d: Device<U>, log: seq<Record<U>>, bounds: seq<nat>, t: nat) returns (k: nat)
    requires d.Shaped() && Slices(d, log, bounds) && bounds[d.nr] < t <= |log|
    ensures k < d.nr && bounds[k + 1] < t <= bounds[k]
  {
    k := 0;
    while bounds[k + 1] >= t
      invariant k < d.nr && t <= bounds[k]
      decreases d.nr - k
    {
      if k + 1 == d.nr {
        assert false;
      }
      k := k + 1;
    }
  }

  ghost predicate FoundSeq<U(!new)>(found: seq<Found<U>>, t: nat) {
    exists f :: f in found && f.rec.seqno == t
  }

  ghost predicate AllFound<U(!new)>(found: seq<Found<U>>, lo: nat, hi: nat) {
    forall t | lo < t <= hi :: FoundSeq(found, t)
  }

  lemma ScanComplete<U(!new)>(d: Device<U>, log: seq<Record<U>>, lastSeq: nat, bounds: seq<nat>, t: nat)
    requires RingInv(d, log, lastSeq, bounds) && bounds[d.nr] < t <= |log|
    ensures FoundSeq(ScanBuckets(d.disk, d.nr), t)
  {
    var k := Locate(d, log, bounds, t);
    var i := Behind(d.curIdx, k, d.nr);
    assert Dist(i, d.curIdx, d.nr) == k;
    ScanOneBucket(d, log, lastSeq, bounds, i);
    ScanIncludes(d.disk, d.nr, i);
    var s := ScanBucket(d.disk[i], i, 0, 0);
    var f := s[t - 1 - bounds[k + 1]];
    assert f in s && f.rec.seqno == t;
  }

  lemma GenuineNoConflict<U(!new)>(s: seq<Found<U>>, d: Device<U>, log: seq<Record<U>>, lo: nat)
    requires d.Shaped() && AllGenuine(s, d, log, lo)
    ensures !Conflict(s)
  {
    forall i | 0 <= i < |s| - 1
      ensures s[i].rec.seqno == s[i + 1].rec.seqno ==> s[i].rec == s[i + 1].rec
    {
      assert s[i] in s && s[i + 1] in s;
    }
  }

  /** `u` is log[lo..], each record with the bucket it lies in. */
  ghost predicate IsTail<U(!new)>(u: seq<Found<U>>, d: Device<U>, log: seq<Record<U>>, lo: nat)
    requires d.Shaped()
  {
    && lo <= |log| && |u| == |log| - lo
    && AllGenuine(u, d, log, lo)
    && forall i | 0 <= i < |u| :: u[i].rec == log[lo + i]
  }

  /** Scan, sort and deduplicate give the retained tail of the log, in order. */
  lemma UniqueIsTail<U(!new)>(d: Device<U>, log: seq<Record<U>>, lastSeq: nat, bounds: seq<nat>)
    requires RingInv(d, log, lastSeq, bounds)
    ensures !Conflict(SortBySeq(ScanBuckets(d.disk, d.nr)))
    ensures var u := Dedup(SortBySeq(ScanBuckets(d.disk, d.nr)));
            IsTail(u, d, log, bounds[d.nr])
  {
    ScanGenuine(d, log, lastSeq, bounds, d.nr);
    AllComplete(d, log, lastSeq, bounds);
    BucketSlice(d, log, lastSeq, bounds, 0);
    TailOfFound(ScanBuckets(d.disk, d.nr), d, log, bounds[d.nr]);
  }

  lemma AllComplete<U(!new)>(d: Device<U>, log: seq<Record<U>>, lastSeq: nat, bounds: seq<nat>)
    requires RingInv(d, log, lastSeq, bounds)
    ensures AllFound(ScanBuckets(d.disk, d.nr), bounds[d.nr], |log|)
  {
    forall t | bounds[d.nr] < t <= |log|
      ensures FoundSeq(ScanBuckets(d.disk, d.nr), t)
    {
      ScanComplete(d, log, lastSeq, bounds, t);
    }
  }

  lemma TailOfFound<U(!new)>(found: seq<Found<U>>, d: Device<U>, log: seq<Record<U>>, lo: nat)
    requires d.Shaped() && lo <= |log|
    requires AllGenuine(found, d, log, lo) && AllFound(found, lo, |log|)
    ensures !Conflict(SortBySeq(found))
    ensures var u := Dedup(SortBySeq(found));
            IsTail(u, d, log, lo)
  {
    var sorted := SortBySeq(found);
    SortBySeqSorts(found);
    assert AllGenuine(sorted, d, log, lo);
    GenuineNoConflict(sorted, d, log, lo);
    DedupStrict(sorted);
    var u := Dedup(sorted);
    assert AllGenuine(u, d, log, lo);
    UniqueHasAll(found, lo, |log|);
    GenuineTail(u, d, log, lo);
  }

  lemma UniqueHasAll<U(!new)>(found: seq<Found<U>>, lo: nat, hi: nat)
    requires AllFound(found, lo, hi)
    ensures forall t | lo < t <= hi :: HasSeq(Dedup(SortBySeq(found)), t)
  {
    var sorted := SortBySeq(found);
    SortBySeqSorts(found);
    DedupStrict(sorted);
    forall t | lo < t <= hi
      ensures HasSeq(Dedup(sorted), t)
    {
      assert FoundSeq(found, t);
      var f :| f in found && f.rec.seqno == t;
      assert f in sorted;
      var i :| 0 <= i < |sorted| && sorted[i] == f;
    }
  }

  lemma GenuineTail<U(!new)>(u: seq<Found<U>>, d: Device<U>, log: seq<Record<U>>, lo: nat)
    requires d.Shaped() && lo <= |log| && AllGenuine(u, d, log, lo) && StrictBySeq(u)
    requires forall t | lo < t <= |log| :: HasSeq(u, t)
    ensures IsTail(u, d, log, lo)
  {
    forall i | 0 <= i < |u|
      ensures lo < u[i].rec.seqno <= |log| && u[i].rec == log[u[i].rec.seqno - 1]
    {
      assert u[i] in u;
      assert Genuine(u[i], d, log, lo);
    }
    StrictAndComplete(u, lo, |log|);
  }

  // ----- the window

  lemma {:induction false} LastFlushIsLast<U(!new)>(u: seq<Found<U>>)
    requires forall i | 0 <= i < |u| :: !u[i].rec.noFlush
    ensures LastFlush(u) == |u|
  {
  }

  lemma {:induction false} WindowOfTail<U(!new)>(u: seq<Found<U>>, log: seq<Record<U>>, a: nat, lo: nat, expected: nat)
    requires LogOk(log) && a <= |log| && |u| == |log| - a
    requires forall i | 0 <= i < |u| :: u[i].rec == log[a + i]
    requires 1 <= lo && expected == Max(lo, a + 1) && expected <= |log| + 1
    ensures WindowEnd(u, lo, |log|, expected) == (true, |log| + 1)
    ensures SelectWindow(u, lo, |log|) == log[expected - 1..]
    decreases |u|
  {
    if |u| > 0 {
      var rest := u[1..];
      assert forall i | 0 <= i < |rest| :: rest[i] == u[i + 1];
      assert u[0].rec == log[a];
      if a + 1 < lo {
        WindowOfTail(rest, log, a + 1, lo, expected);
      } else {
        WindowOfTail(rest, log, a + 1, lo, expected + 1);
        assert log[a..] == [log[a]] + log[a + 1..];
      }
    }
  }

  // ----- the rebuilt ring

  /** The slice boundaries seen from the bucket `k` steps back, when everything nearer is empty. */
  function Rotated(bounds: seq<nat>, k: nat): (r: seq<nat>)
    requires k < |bounds|
    ensures |r| == |bounds|
  {
    bounds[k..] + seq(k, _ => bounds[|bounds| - 1])
  }

  lemma BehindBehind(cur: nat, k: nat, i: nat, nr: nat)
    requires cur < nr && k < nr && i < nr
    ensures Behind(Behind(cur, k, nr), i, nr) == Behind(cur, if i + k < nr then i + k else i + k - nr, nr)
  {
  }

  /** What the scan records as a bucket's newest sequence number. */
  lemma ScannedSeq<U(!new)>(d: Device<U>, log: seq<Record<U>>, lastSeq: nat, bounds: seq<nat>, i: nat)
    requires RingInv(d, log, lastSeq, bounds) && i < d.nr
    ensures var k := Dist(i, d.curIdx, d.nr);
            LastSeqno(ScanBucket(d.disk[i], i, 0, 0)) == if bounds[k + 1] < bounds[k] then bounds[k] else 0
  {
    ScanOneBucket(d, log, lastSeq, bounds, i);
  }

  /** The scanned device, before its dirty index is placed, seen from the newest record's bucket. */
  function ScannedRing<U>(d: Device<U>, cur: nat, used: nat, idx: nat): (r: Device<U>)
    requires d.Shaped() && cur < d.nr && used <= d.bucketSize && idx < d.nr
    ensures r.Shaped()
  {
    var next := Next(cur, d.nr);
    Device(d.nr, d.bucketSize, BucketSeqs(d.disk), d.bucketSize - used, next, next, idx, cur, d.disk)
  }

  /** One bucket of the rotated ring. */
  lemma RotatedBucket<U(!new)>(d: Device<U>, log: seq<Record<U>>, lastSeq: nat, bounds: seq<nat>, k: nat, i: nat)
    requires RingInv(d, log, lastSeq, bounds) && k < d.nr && bounds[k] == |log| && i < d.nr
    ensures var at := Behind(Behind(d.curIdx, k, d.nr), i, d.nr);
            var bounds' := Rotated(bounds, k);
            && bounds'[i + 1] <= bounds'[i] <= |log|
            && d.disk[at] == log[bounds'[i + 1]..bounds'[i]]
            && (bounds'[i + 1] < bounds'[i] ==> LastSeqno(ScanBucket(d.disk[at], at, 0, 0)) == bounds'[i])
  {
    var at := Behind(Behind(d.curIdx, k, d.nr), i, d.nr);
    BehindBehind(d.curIdx, k, i, d.nr);
    BucketSlice(d, log, lastSeq, bounds, at);
    ScannedSeq(d, log, lastSeq, bounds, at);
    RotatedAt(bounds, k, i);
    if i + k >= d.nr {
      var m := i + k - d.nr;
      assert Dist(at, d.curIdx, d.nr) == m;
      assert bounds[k] <= bounds[m + 1] && bounds[k] <= bounds[m];
    } else {
      assert Dist(at, d.curIdx, d.nr) == i + k;
    }
  }

  lemma RotatedAt(bounds: seq<nat>, k: nat, i: nat)
    requires k < |bounds| - 1 && i < |bounds| - 1
    ensures var r := Rotated(bounds, k);
            if i + k < |bounds| - 1 then r[i] == bounds[i + k] && r[i + 1] == bounds[i + k + 1]
            else r[i] == r[i + 1]
  {
  }

  lemma RotatedMonotone(bounds: seq<nat>, k: nat)
    requires k < |bounds| && Decreasing(bounds)
    ensures Decreasing(Rotated(bounds, k))
  {
  }

  lemma RotatedSlices<U(!new)>(
    d: Device<U>, log: seq<Record<U>>, lastSeq: nat, bounds: seq<nat>, k: nat, used: nat, idx: nat)
    requires RingInv(d, log, lastSeq, bounds) && k < d.nr && bounds[k] == |log|
    requires used <= d.bucketSize && idx < d.nr
    ensures Slices(ScannedRing(d, Behind(d.curIdx, k, d.nr), used, idx), log, Rotated(bounds, k))
  {
    var cur := Behind(d.curIdx, k, d.nr);
    var r := ScannedRing(d, cur, used, idx);
    var bounds' := Rotated(bounds, k);
    RotatedMonotone(bounds, k);
    forall i | 0 <= i < d.nr
      ensures SliceAt(r, log, bounds', i)
    {
      RotatedBucket(d, log, lastSeq, bounds, k, i);
    }
  }

  /** Placing the dirty index: it starts one bucket ahead and passes everything older than the window. */
  lemma PlaceDirty<U(!new)>(
    d: Device<U>, log: seq<Record<U>>, lastSeq: nat, bounds: seq<nat>, k: nat, used: nat, first: nat)
    requires RingInv(d, log, lastSeq, bounds) && k < d.nr && bounds[k] == |log|
    requires |log| >= 1 ==> bounds[k + 1] < |log| && first == log[|log| - 1].lastSeq
    requires |log| == 0 ==> first == 1
    requires used == Used(d.disk[Behind(d.curIdx, k, d.nr)])
    ensures var cur := Behind(d.curIdx, k, d.nr);
            RingInv(AdvanceDirty(ScannedRing(d, cur, used, Next(cur, d.nr)), first), log, first, Rotated(bounds, k))
  {
    var cur := Behind(d.curIdx, k, d.nr);
    var next := Next(cur, d.nr);
    NextIsWrap(cur, d.nr);
    if d.nr == 1 {
      ScannedRingInv(d, log, lastSeq, bounds, k, used, first, next);
      AdvanceDirtyKeeps(ScannedRing(d, cur, used, next), log, first, Rotated(bounds, k));
    } else {
      OldestIsFree(d, log, lastSeq, bounds, k, first);
      NextIsWrap(next, d.nr);
      var d1 := ScannedRing(d, cur, used, Next(next, d.nr));
      ScannedRingInv(d, log, lastSeq, bounds, k, used, first, Next(next, d.nr));
      AdvanceDirtyKeeps(d1, log, first, Rotated(bounds, k));
      assert d1 == ScannedRing(d, cur, used, next).(dirtyIdx := Next(next, d.nr));
      assert AdvanceDirty(ScannedRing(d, cur, used, next), first) == AdvanceDirty(d1, first);
    }
  }

  /** The ring bch2_journal_read() installs keeps everything from `first` on. */
  lemma ReadRingInv<U(!new)>(
    d: Device<U>, log: seq<Record<U>>, lastSeq: nat, bounds: seq<nat>, k: nat, used: nat, first: nat)
    requires RingInv(d, log, lastSeq, bounds) && k < d.nr && bounds[k] == |log|
    requires |log| >= 1 ==> bounds[k + 1] < |log| && first == log[|log| - 1].lastSeq
    requires |log| == 0 ==> first == 1
    requires used == Used(d.disk[Behind(d.curIdx, k, d.nr)])
    ensures RingInv(ReadRing(d.nr, d.bucketSize, d.disk, Behind(d.curIdx, k, d.nr), used, first), log, first,
                    Rotated(bounds, k))
  {
    var cur := Behind(d.curIdx, k, d.nr);
    PlaceDirty(d, log, lastSeq, bounds, k, used, first);
    var placed := AdvanceDirty(ScannedRing(d, cur, used, Next(cur, d.nr)), first);
    CatchUpKeeps(placed, log, first, Rotated(bounds, k));
    ReadRingIs(d, cur, used, first);
  }

  lemma ReadRingIs<U(!new)>(d: Device<U>, cur: nat, used: nat, first: nat)
    requires d.Shaped() && cur < d.nr && used <= d.bucketSize
    ensures var placed := AdvanceDirty(ScannedRing(d, cur, used, Next(cur, d.nr)), first);
            ReadRing(d.nr, d.bucketSize, d.disk, cur, used, first)
              == placed.(discardIdx := placed.dirtyIdx, dirtyIdxOndisk := placed.dirtyIdx)
  {
  }

  lemma CatchUpKeeps<U(!new)>(d: Device<U>, log: seq<Record<U>>, lastSeq: nat, bounds: seq<nat>)
    requires RingInv(d, log, lastSeq, bounds)
    ensures RingInv(d.(discardIdx := d.dirtyIdx, dirtyIdxOndisk := d.dirtyIdx), log, lastSeq, bounds)
  {
    SlicesIgnoreIndices(d, d.(discardIdx := d.dirtyIdx, dirtyIdxOndisk := d.dirtyIdx), log, bounds);
  }

  /** The bucket just ahead of the newest record's is clear of the window. */
  lemma OldestIsFree<U(!new)>(d: Device<U>, log: seq<Record<U>>, lastSeq: nat, bounds: seq<nat>, k: nat, first: nat)
    requires RingInv(d, log, lastSeq, bounds) && d.nr >= 2 && k < d.nr && bounds[k] == |log|
    requires |log| >= 1 ==> bounds[k + 1] < |log| && first == log[|log| - 1].lastSeq
    requires |log| == 0 ==> first == 1
    ensures var cur := Behind(d.curIdx, k, d.nr);
            var next := Next(cur, d.nr);
            next != cur && LastSeqno(ScanBucket(d.disk[next], next, 0, 0)) < first
  {
    var cur := Behind(d.curIdx, k, d.nr);
    var next := Next(cur, d.nr);
    NextIsWrap(cur, d.nr);
    RotatedWindow(d, log, lastSeq, bounds, k, first);
    assert Behind(cur, d.nr - 1, d.nr) == next;
    RotatedBucket(d, log, lastSeq, bounds, k, d.nr - 1);
    EmptyScan(d.disk[next], next);
  }

  lemma EmptyScan<U(!new)>(recs: seq<Record<U>>, i: nat)
    ensures |recs| == 0 ==> LastSeqno(ScanBucket(recs, i, 0, 0)) == 0
  {
  }

  lemma ScannedRingInv<U(!new)>(
    d: Device<U>, log: seq<Record<U>>, lastSeq: nat, bounds: seq<nat>, k: nat, used: nat, first: nat, idx: nat)
    requires RingInv(d, log, lastSeq, bounds) && k < d.nr && bounds[k] == |log|
    requires |log| >= 1 ==> bounds[k + 1] < |log| && first == log[|log| - 1].lastSeq
    requires |log| == 0 ==> first == 1
    requires used == Used(d.disk[Behind(d.curIdx, k, d.nr)])
    requires idx < d.nr
    requires d.nr >= 2 ==> Dist(idx, Behind(d.curIdx, k, d.nr), d.nr) == d.nr - 2
    ensures RingInv(ScannedRing(d, Behind(d.curIdx, k, d.nr), used, idx), log, first, Rotated(bounds, k))
  {
    var cur := Behind(d.curIdx, k, d.nr);
    RotatedSlices(d, log, lastSeq, bounds, k, used, idx);
    NextIsWrap(cur, d.nr);
    if d.nr >= 2 {
      RotatedWindow(d, log, lastSeq, bounds, k, first);
    } else {
      assert Rotated(bounds, k) == bounds;
    }
    assert Chase(ScannedRing(d, cur, used, idx));
    assert DirtyCovers(ScannedRing(d, cur, used, idx), Rotated(bounds, k), first);
  }

  lemma RotatedWindow<U(!new)>(d: Device<U>, log: seq<Record<U>>, lastSeq: nat, bounds: seq<nat>, k: nat, first: nat)
    requires RingInv(d, log, lastSeq, bounds) && d.nr >= 2 && k < d.nr && bounds[k] == |log|
    requires |log| >= 1 ==> bounds[k + 1] < |log| && first == log[|log| - 1].lastSeq
    requires |log| == 0 ==> first == 1
    ensures Rotated(bounds, k)[d.nr - 1] < first && Rotated(bounds, k)[d.nr] < first
  {
    if |log| == 0 {
      assert bounds[d.nr] <= bounds[0] && bounds[d.nr - 1] <= bounds[0];
    } else if k == 0 {
      assert Rotated(bounds, 0) == bounds;
    } else {
      assert Rotated(bounds, k)[d.nr - 1] == bounds[d.nr];
    }
  }
}
