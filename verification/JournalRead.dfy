/**
 bch2_journal_read(): scan every bucket, sort what was found, pick the window of the
 newest flushed record and rebuild the journal.  Checksums and block parsing are taken
 to succeed on records that were written whole.
 */
module JournalRead {
  import opened JournalModel

  /** A record with the bucket it was found in and the sectors used up to its end. */
  datatype Found<U> = Found(rec: Record<U>, bucket: nat, used: nat)

  datatype ReadResult<U> =
    | ReadErr(code: int)
    | ReadOk(records: seq<Record<U>>, lastSeq: nat, replayEnd: nat, curSeq: nat, clean: bool, journal: Journal<U>)

  /** A header the scan refuses: sequence number out of range or record past the bucket end. */
  predicate BadHeader<U>(r: Record<U>, used: nat, bucketSize: nat) {
    r.seqno == 0 || r.seqno > JournalSeqMax || used + r.sectors > bucketSize
  }

  predicate BadBucket<U>(recs: seq<Record<U>>, maxSeq: nat, used: nat, bucketSize: nat) {
    |recs| > 0 &&
    (BadHeader(recs[0], used, bucketSize) ||
     (recs[0].seqno >= maxSeq && BadBucket(recs[1..], recs[0].seqno, used + recs[0].sectors, bucketSize)))
  }

  /** The scan of one bucket stops at the first sequence number that goes backwards. */
  function ScanBucket<U>(recs: seq<Record<U>>, bucket: nat, maxSeq: nat, used: nat): seq<Found<U>> {
    if |recs| == 0 || recs[0].seqno < maxSeq then []
    else
      var end := used + recs[0].sectors;
      [Found(recs[0], bucket, end)] + ScanBucket(recs[1..], bucket, recs[0].seqno, end)
  }

  function LastSeqno<U>(found: seq<Found<U>>): nat {
    if |found| == 0 then 0 else found[|found| - 1].rec.seqno
  }

  function ScanBuckets<U>(disk: seq<seq<Record<U>>>, n: nat): seq<Found<U>>
    requires n <= |disk|
  {
    if n == 0 then [] else ScanBuckets(disk, n - 1) + ScanBucket(disk[n - 1], n - 1, 0, 0)
  }

  /** Stable insertion by sequence number. */
  function InsertBySeq<U>(f: Found<U>, s: seq<Found<U>>): seq<Found<U>> {
    if |s| == 0 then [f]
    else if s[|s| - 1].rec.seqno <= f.rec.seqno then s + [f]
    else InsertBySeq(f, s[..|s| - 1]) + [s[|s| - 1]]
  }

  function SortBySeq<U>(s: seq<Found<U>>): seq<Found<U>> {
    if |s| == 0 then [] else InsertBySeq(s[|s| - 1], SortBySeq(s[..|s| - 1]))
  }

  /** Two different records carry the same sequence number. */
  predicate Conflict<U(==)>(s: seq<Found<U>>) {
    exists i | 0 <= i < |s| - 1 :: s[i].rec.seqno == s[i + 1].rec.seqno && s[i].rec != s[i + 1].rec
  }

  function Dedup<U>(s: seq<Found<U>>): seq<Found<U>> {
    if |s| == 0 then []
    else
      var rest := Dedup(s[..|s| - 1]);
      if |rest| > 0 && rest[|rest| - 1].rec.seqno == s[|s| - 1].rec.seqno then rest else rest + [s[|s| - 1]]
  }

  /** Number of entries up to and including the newest one that is a flush, 0 if none. */
  function LastFlush<U>(s: seq<Found<U>>): (n: nat)
    ensures n <= |s|
  {
    if |s| == 0 then 0
    else if !s[|s| - 1].rec.noFlush then |s|
    else LastFlush(s[..|s| - 1])
  }

  /** Walks the window: one past its last sequence number, or None at a hole. */
  function WindowEnd<U>(s: seq<Found<U>>, lo: nat, hi: nat, expected: nat): (r: (bool, nat)) {
    if |s| == 0 then (true, expected)
    else if s[0].rec.seqno < lo || s[0].rec.seqno > hi then WindowEnd(s[1..], lo, hi, expected)
    else if s[0].rec.seqno != expected then (false, 0)
    else WindowEnd(s[1..], lo, hi, expected + 1)
  }

  function SelectWindow<U>(s: seq<Found<U>>, lo: nat, hi: nat): seq<Record<U>> {
    if |s| == 0 then []
    else (if lo <= s[0].rec.seqno <= hi then [s[0].rec] else []) + SelectWindow(s[1..], lo, hi)
  }

  /** The newest sequence number found in each bucket, 0 if none. */
  function BucketSeqs<U>(disk: seq<seq<Record<U>>>): (r: seq<nat>)
    ensures |r| == |disk| && forall i | 0 <= i < |disk| :: r[i] == LastSeqno(ScanBucket(disk[i], i, 0, 0))
  {
    seq(|disk|, i requires 0 <= i < |disk| => LastSeqno(ScanBucket(disk[i], i, 0, 0)))
  }

  /** The device bch2_journal_read() installs, ring indices included. */
  function ReadRing<U>(
      nr: nat, bucketSize: nat, disk: seq<seq<Record<U>>>, cur: nat, used: nat, liveFrom: nat): (d: Device<U>)
    requires nr >= 1 && |disk| == nr && cur < nr && used <= bucketSize
    ensures d.Shaped()
  {
    var next := Next(cur, nr);
    var d0 := Device(nr, bucketSize, BucketSeqs(disk), bucketSize - used, next, next, next, cur, disk);
    var d := AdvanceDirty(d0, liveFrom);
    d.(discardIdx := d.dirtyIdx, dirtyIdxOndisk := d.dirtyIdx)
  }

  /** What sorting and deduplication hand on: in range, and nothing newer than the last one. */
  ghost predicate Scanned<U>(unique: seq<Found<U>>, nr: nat, bucketSize: nat) {
    forall i | 0 <= i < |unique| ::
      unique[i].bucket < nr && unique[i].used <= bucketSize && 1 <= unique[i].rec.seqno <= LastSeqno(unique)
  }

  /** The part of bch2_journal_read() after sorting and deduplication. */
  function Select<U>(nr: nat, bucketSize: nat, disk: seq<seq<Record<U>>>, unique: seq<Found<U>>): ReadResult<U>
    requires nr >= 1 && |disk| == nr && Scanned(unique, nr, bucketSize)
  {
    var flushed := LastFlush(unique);
    var replayEnd := if flushed == 0 then 0 else unique[flushed - 1].rec.seqno;
    var lastSeq := if flushed == 0 then 0 else Min(unique[flushed - 1].rec.lastSeq, replayEnd);
    var clean := flushed != 0 && lastSeq == replayEnd && |unique[flushed - 1].rec.updates| == 0;
    if replayEnd != 0 && WindowEnd(unique, lastSeq, replayEnd, lastSeq) != (true, replayEnd + 1) then ReadErr(-8)
    else Install(nr, bucketSize, disk, unique, lastSeq, replayEnd, clean)
  }

  /** The result for a window of the records found, with the journal it installs. */
  function Install<U>(
    nr: nat, bucketSize: nat, disk: seq<seq<Record<U>>>, unique: seq<Found<U>>,
    lastSeq: nat, replayEnd: nat, clean: bool)
    : ReadResult<U>
    requires nr >= 1 && |disk| == nr && Scanned(unique, nr, bucketSize) && lastSeq <= LastSeqno(unique)
  {
    var curSeq := LastSeqno(unique) + 1;
    var first := if lastSeq != 0 then lastSeq else curSeq;
    var (cur, used) := if |unique| == 0 then (0, 0) else (unique[|unique| - 1].bucket, unique[|unique| - 1].used);
    ReadOk(SelectWindow(unique, lastSeq, replayEnd), lastSeq, replayEnd, curSeq, clean,
           SpaceAvailable(Restarted(first, curSeq, ReadRing(nr, bucketSize, disk, cur, used, first))))
  }

  // ----- sorting what was found

  ghost predicate SortedBySeq<U(!new)>(s: seq<Found<U>>) {
    forall i, j | 0 <= i <= j < |s| :: s[i].rec.seqno <= s[j].rec.seqno
  }

  ghost predicate StrictBySeq<U(!new)>(s: seq<Found<U>>) {
    forall i, j | 0 <= i < j < |s| :: s[i].rec.seqno < s[j].rec.seqno
  }

  lemma {:induction false} InsertSorted<U(!new)>(f: Found<U>, s: seq<Found<U>>)
    requires SortedBySeq(s)
    ensures SortedBySeq(InsertBySeq(f, s))
    ensures forall x :: x in InsertBySeq(f, s) <==> x == f || x in s
  {
    if |s| > 0 && s[|s| - 1].rec.seqno > f.rec.seqno {
      var init := s[..|s| - 1];
      assert s == init + [s[|s| - 1]];
      InsertSorted(f, init);
      var r := InsertBySeq(f, init);
      forall i | 0 <= i < |r|
        ensures r[i].rec.seqno <= s[|s| - 1].rec.seqno
      {
        assert r[i] in InsertBySeq(f, init);
        if r[i] != f {
          assert r[i] in init;
          var m :| 0 <= m < |init| && init[m] == r[i];
          assert s[m] == r[i];
        }
      }
    }
  }

  lemma {:induction false} SortBySeqSorts<U(!new)>(s: seq<Found<U>>)
    ensures SortedBySeq(SortBySeq(s))
    ensures forall x :: x in SortBySeq(s) <==> x in s
  {
    if |s| > 0 {
      SortBySeqSorts(s[..|s| - 1]);
      InsertSorted(s[|s| - 1], SortBySeq(s[..|s| - 1]));
      assert s == s[..|s| - 1] + [s[|s| - 1]];
    }
  }

  ghost predicate HasSeq<U(!new)>(u: seq<Found<U>>, t: nat) {
    exists k :: 0 <= k < |u| && u[k].rec.seqno == t
  }

  lemma {:induction false} DedupStrict<U(!new)>(s: seq<Found<U>>)
    requires SortedBySeq(s)
    ensures StrictBySeq(Dedup(s))
    ensures |s| > 0 ==> |Dedup(s)| > 0 && LastSeqno(Dedup(s)) == LastSeqno(s)
    ensures forall f :: f in Dedup(s) ==> f in s
    ensures forall i | 0 <= i < |s| :: HasSeq(Dedup(s), s[i].rec.seqno)
  {
    if |s| > 0 {
      var init := s[..|s| - 1];
      DedupStrict(init);
      var rest := Dedup(init);
      var u := Dedup(s);
      if |init| > 0 {
        assert LastSeqno(rest) == s[|s| - 2].rec.seqno;
      }
      forall i | 0 <= i < |s|
        ensures HasSeq(u, s[i].rec.seqno)
      {
        if i < |s| - 1 {
          assert HasSeq(rest, init[i].rec.seqno);
          var k :| 0 <= k < |rest| && rest[k].rec.seqno == init[i].rec.seqno;
          assert u[k] == rest[k];
        } else {
          assert u[|u| - 1].rec.seqno == s[i].rec.seqno;
        }
      }
    }
  }

  lemma {:induction false} ScanBucketRange<U>(
      recs: seq<Record<U>>, bucket: nat, maxSeq: nat, used: nat, bucketSize: nat)
    requires !BadBucket(recs, maxSeq, used, bucketSize)
    ensures forall i | 0 <= i < |ScanBucket(recs, bucket, maxSeq, used)| ::
              var f := ScanBucket(recs, bucket, maxSeq, used)[i];
              f.bucket == bucket && f.used <= bucketSize && f.rec.seqno >= 1
  {
    if |recs| > 0 && recs[0].seqno >= maxSeq {
      ScanBucketRange(recs[1..], bucket, recs[0].seqno, used + recs[0].sectors, bucketSize);
    }
  }

  lemma {:induction false} ScanBucketsRange<U>(disk: seq<seq<Record<U>>>, n: nat, bucketSize: nat)
    requires n <= |disk| && forall i | 0 <= i < |disk| :: !BadBucket(disk[i], 0, 0, bucketSize)
    ensures forall i | 0 <= i < |ScanBuckets(disk, n)| ::
              var f := ScanBuckets(disk, n)[i];
              f.bucket < n && f.used <= bucketSize && f.rec.seqno >= 1
  {
    if n > 0 {
      ScanBucketsRange(disk, n - 1, bucketSize);
      ScanBucketRange(disk[n - 1], n - 1, 0, 0, bucketSize);
    }
  }

  lemma UniqueScanned<U(!new)>(disk: seq<seq<Record<U>>>, bucketSize: nat)
    requires forall i | 0 <= i < |disk| :: !BadBucket(disk[i], 0, 0, bucketSize)
    ensures Scanned(Dedup(SortBySeq(ScanBuckets(disk, |disk|))), |disk|, bucketSize)
  {
    var found := ScanBuckets(disk, |disk|);
    var sorted := SortBySeq(found);
    var unique := Dedup(sorted);
    ScanBucketsRange(disk, |disk|, bucketSize);
    SortBySeqSorts(found);
    DedupStrict(sorted);
    forall i | 0 <= i < |unique|
      ensures unique[i].bucket < |disk| && unique[i].used <= bucketSize
      ensures 1 <= unique[i].rec.seqno <= LastSeqno(unique)
    {
      assert unique[i] in unique;
      assert unique[i] in found;
    }
  }

  /** bch2_journal_read() */
  function Read<U(==, !new)>(nr: nat, bucketSize: nat, disk: seq<seq<Record<U>>>): ReadResult<U>
    requires nr >= 1 && |disk| == nr
  {
    if exists i | 0 <= i < nr :: BadBucket(disk[i], 0, 0, bucketSize) then ReadErr(-5)
    else
      var sorted := SortBySeq(ScanBuckets(disk, nr));
      if Conflict(sorted) then ReadErr(-7)
      else
        UniqueScanned(disk, bucketSize);
        Select(nr, bucketSize, disk, Dedup(sorted))
  }

  // ----- what a read refuses, on any device

  /** The sectors of the first `k` records. */
  function SectorsOf<U>(recs: seq<Record<U>>, k: nat): nat
    requires k <= |recs|
  {
    if k == 0 then 0 else SectorsOf(recs, k - 1) + recs[k - 1].sectors
  }

  /** The scan of a bucket gets to record `k`: no earlier sequence number goes backwards. */
  ghost predicate Reaches<U>(recs: seq<Record<U>>, maxSeq: nat, k: int) {
    0 <= k < |recs| && forall i | 0 <= i < k :: NotBack(recs, maxSeq, i)
  }

  predicate NotBack<U>(recs: seq<Record<U>>, maxSeq: nat, i: nat)
    requires i < |recs|
  {
    recs[i].seqno >= if i == 0 then maxSeq else recs[i - 1].seqno
  }

  ghost predicate BadAt<U>(recs: seq<Record<U>>, maxSeq: nat, used: nat, bucketSize: nat, k: int) {
    Reaches(recs, maxSeq, k) && BadHeader(recs[k], used + SectorsOf(recs, k), bucketSize)
  }

  /** A bucket is refused exactly when its scan gets to a bad header. */
  lemma {:induction false} BadBucketIff<U>(recs: seq<Record<U>>, maxSeq: nat, used: nat, bucketSize: nat)
    ensures BadBucket(recs, maxSeq, used, bucketSize) <==> exists k :: BadAt(recs, maxSeq, used, bucketSize, k)
    decreases |recs|
  {
    if |recs| > 0 && recs[0].seqno >= maxSeq {
      var rest, seqno, used' := recs[1..], recs[0].seqno, used + recs[0].sectors;
      BadBucketIff(rest, seqno, used', bucketSize);
      if k :| BadAt(rest, seqno, used', bucketSize, k) {
        BadAtRest(recs, maxSeq, used, bucketSize, k + 1);
      }
      if k :| BadAt(recs, maxSeq, used, bucketSize, k) && k > 0 {
        BadAtRest(recs, maxSeq, used, bucketSize, k);
      }
    }
    if |recs| > 0 && BadHeader(recs[0], used, bucketSize) {
      assert BadAt(recs, maxSeq, used, bucketSize, 0);
    }
    if k :| BadAt(recs, maxSeq, used, bucketSize, k) {
      assert k > 0 ==> NotBack(recs, maxSeq, 0);
    }
  }

  lemma BadAtRest<U>(recs: seq<Record<U>>, maxSeq: nat, used: nat, bucketSize: nat, k: nat)
    requires 0 < k < |recs| && recs[0].seqno >= maxSeq
    ensures BadAt(recs, maxSeq, used, bucketSize, k)
       <==> BadAt(recs[1..], recs[0].seqno, used + recs[0].sectors, bucketSize, k - 1)
  {
    SectorsOfRest(recs, k - 1);
    var rest := recs[1..];
    if Reaches(rest, recs[0].seqno, k - 1) {
      forall i | 0 <= i < k
        ensures NotBack(recs, maxSeq, i)
      {
        assert i > 0 ==> NotBack(rest, recs[0].seqno, i - 1);
      }
    }
    if Reaches(recs, maxSeq, k) {
      forall i | 0 <= i < k - 1
        ensures NotBack(rest, recs[0].seqno, i)
      {
        assert NotBack(recs, maxSeq, i + 1);
      }
    }
  }

  lemma {:induction false} SectorsOfRest<U>(recs: seq<Record<U>>, k: nat)
    requires k < |recs|
    ensures recs[0].sectors + SectorsOf(recs[1..], k) == SectorsOf(recs, k + 1)
  {
    if k > 0 {
      SectorsOfRest(recs, k - 1);
    }
  }

  /** Two of the records found differ although they carry the same sequence number. */
  ghost predicate Contradict<U(!new)>(s: seq<Found<U>>, f: Found<U>, g: Found<U>) {
    f in s && g in s && f.rec.seqno == g.rec.seqno && f.rec != g.rec
  }

  /** The comparison of neighbours after sorting finds every contradiction. */
  lemma ConflictIff<U(!new)>(s: seq<Found<U>>)
    ensures Conflict(SortBySeq(s)) <==> Contradicted(s)
  {
    SortBySeqSorts(s);
    var t := SortBySeq(s);
    if i :| 0 <= i < |t| - 1 && t[i].rec.seqno == t[i + 1].rec.seqno && t[i].rec != t[i + 1].rec {
      assert t[i] in t && t[i + 1] in t;
      assert Contradict(s, t[i], t[i + 1]);
    }
    if f, g :| Contradict(s, f, g) {
      assert f in t && g in t;
      var a :| 0 <= a < |t| && t[a] == f;
      var b :| 0 <= b < |t| && t[b] == g;
      if !Conflict(t) {
        SameAlong(t, a, b);
        SameAlong(t, b, a);
      }
    }
  }

  lemma {:induction false} SameAlong<U(!new)>(t: seq<Found<U>>, a: nat, b: nat)
    requires SortedBySeq(t) && !Conflict(t) && a < |t| && b < |t| && t[a].rec.seqno == t[b].rec.seqno
    ensures a <= b ==> t[a].rec == t[b].rec
  {
    if a < b {
      assert t[a].rec.seqno <= t[b - 1].rec.seqno <= t[b].rec.seqno;
      SameAlong(t, a, b - 1);
    }
  }

  lemma {:induction false} LastFlushNewest<U>(u: seq<Found<U>>)
    ensures var n := LastFlush(u);
            (n > 0 ==> !u[n - 1].rec.noFlush) && forall i | n <= i < |u| :: u[i].rec.noFlush
    decreases |u|
  {
    if |u| > 0 && u[|u| - 1].rec.noFlush {
      LastFlushNewest(u[..|u| - 1]);
    }
  }

  /** The walk ends well exactly when no sequence number of the window is missing. */
  lemma {:induction false} WindowEndIff<U(!new)>(u: seq<Found<U>>, lo: nat, hi: nat, e: nat)
    requires StrictBySeq(u) && lo <= e <= hi + 1
    requires forall i | 0 <= i < |u| && lo <= u[i].rec.seqno <= hi :: u[i].rec.seqno >= e
    ensures WindowEnd(u, lo, hi, e) == (true, hi + 1) <==> forall t | e <= t <= hi :: HasSeq(u, t)
    ensures (forall t | e <= t <= hi :: HasSeq(u, t)) ==>
      var w := SelectWindow(u, lo, hi); |w| == hi + 1 - e && forall i | 0 <= i < |w| :: w[i].seqno == e + i
    decreases |u|
  {
    if |u| == 0 {
      assert e <= hi ==> !HasSeq(u, e);
    } else {
      var rest := u[1..];
      RestHas(u);
      if lo <= u[0].rec.seqno <= hi {
        if u[0].rec.seqno == e {
          assert HasSeq(u, e);
          WindowEndIff(rest, lo, hi, e + 1);
        } else {
          assert !HasSeq(u, e);
        }
      } else {
        WindowEndIff(rest, lo, hi, e);
      }
    }
  }

  lemma RestHas<U(!new)>(u: seq<Found<U>>)
    requires StrictBySeq(u) && |u| > 0
    ensures forall t :: t != u[0].rec.seqno ==> (HasSeq(u, t) <==> HasSeq(u[1..], t))
    ensures forall i | 0 <= i < |u[1..]| :: u[1..][i].rec.seqno > u[0].rec.seqno
  {
    forall t | t != u[0].rec.seqno
      ensures HasSeq(u, t) <==> HasSeq(u[1..], t)
    {
      if k :| 0 <= k < |u| && u[k].rec.seqno == t {
        assert u[1..][k - 1].rec.seqno == t;
      }
      if k :| 0 <= k < |u[1..]| && u[1..][k].rec.seqno == t {
        assert u[k + 1].rec.seqno == t;
      }
    }
  }

  lemma {:induction false} WindowMembers<U(!new)>(u: seq<Found<U>>, lo: nat, hi: nat)
    ensures forall i | 0 <= i < |SelectWindow(u, lo, hi)| :: InFound(u, SelectWindow(u, lo, hi)[i])
    decreases |u|
  {
    if |u| > 0 {
      WindowMembers(u[1..], lo, hi);
      var rest := SelectWindow(u[1..], lo, hi);
      var w := SelectWindow(u, lo, hi);
      forall i | 0 <= i < |w|
        ensures InFound(u, w[i])
      {
        var n := |w| - |rest|;
        if i < n {
          assert u[0].rec == w[i];
        } else {
          assert w[i] == rest[i - n] && InFound(u[1..], rest[i - n]);
          var k :| 0 <= k < |u[1..]| && u[1..][k].rec == rest[i - n];
          assert u[k + 1].rec == w[i];
        }
      }
    }
  }

  ghost predicate InFound<U(!new)>(u: seq<Found<U>>, r: Record<U>) {
    exists k :: 0 <= k < |u| && u[k].rec == r
  }

  /**
   The selection on whatever was scanned: refused with -8 exactly when a sequence number from the
   newest flush's last_seq to its own is missing; otherwise exactly those records, in order.
   */
  lemma {:induction false} SelectExact<U(!new)>(nr: nat, bucketSize: nat, disk: seq<seq<Record<U>>>, u: seq<Found<U>>)
    requires nr >= 1 && |disk| == nr && Scanned(u, nr, bucketSize) && StrictBySeq(u)
    ensures var res, n := Select(nr, bucketSize, disk, u), LastFlush(u);
            if n == 0 then res.ReadOk? && res.records == [] && res.lastSeq == res.replayEnd == 0 && !res.clean
            else SelectedWindow(res, u, u[n - 1].rec)
    ensures var res := Select(nr, bucketSize, disk, u); res.ReadOk? ==> res.curSeq == LastSeqno(u) + 1
    ensures var n := LastFlush(u);
            (n > 0 ==> !u[n - 1].rec.noFlush) && forall i | n <= i < |u| :: u[i].rec.noFlush
  {
    LastFlushNewest(u);
    var n := LastFlush(u);
    if n == 0 {
      NoneAtZero(u);
    } else {
      SelectFrom(nr, bucketSize, disk, u, u[n - 1].rec);
    }
  }

  lemma {:induction false} SelectFrom<U(!new)>(
    nr: nat, bucketSize: nat, disk: seq<seq<Record<U>>>, u: seq<Found<U>>, newest: Record<U>)
    requires nr >= 1 && |disk| == nr && Scanned(u, nr, bucketSize) && StrictBySeq(u)
    requires LastFlush(u) > 0 && newest == u[LastFlush(u) - 1].rec
    ensures SelectedWindow(Select(nr, bucketSize, disk, u), u, newest)
  {
    var lo := Min(newest.lastSeq, newest.seqno);
    WindowEndIff(u, lo, newest.seqno, lo);
    WindowMembers(u, lo, newest.seqno);
  }

  lemma {:induction false} NoneAtZero<U(!new)>(u: seq<Found<U>>)
    requires forall i | 0 <= i < |u| :: u[i].rec.seqno >= 1
    ensures SelectWindow(u, 0, 0) == []
    decreases |u|
  {
    if |u| > 0 {
      NoneAtZero(u[1..]);
    }
  }

  /** The outcome for a newest flush `newest` among the records found. */
  ghost predicate SelectedWindow<U(!new)>(res: ReadResult<U>, u: seq<Found<U>>, newest: Record<U>) {
    var lo := Min(newest.lastSeq, newest.seqno);
    if forall t | lo <= t <= newest.seqno :: HasSeq(u, t) then
      && res.ReadOk? && res.lastSeq == lo && res.replayEnd == newest.seqno
      && (res.clean <==> lo == newest.seqno && newest.updates == [])
      && |res.records| == newest.seqno + 1 - lo
      && forall i | 0 <= i < |res.records| :: res.records[i].seqno == lo + i && InFound(u, res.records[i])
    else res == ReadErr(-8)
  }

  /** A bad header is reached in some bucket. */
  ghost predicate BadDevice<U(!new)>(disk: seq<seq<Record<U>>>, bucketSize: nat) {
    exists i, k :: 0 <= i < |disk| && BadAt(disk[i], 0, 0, bucketSize, k)
  }

  lemma BadDeviceIff<U(!new)>(disk: seq<seq<Record<U>>>, bucketSize: nat)
    ensures BadDevice(disk, bucketSize) <==> exists i | 0 <= i < |disk| :: BadBucket(disk[i], 0, 0, bucketSize)
  {
    forall i | 0 <= i < |disk|
      ensures BadBucket(disk[i], 0, 0, bucketSize) <==> exists k :: BadAt(disk[i], 0, 0, bucketSize, k)
    {
      BadBucketIff(disk[i], 0, 0, bucketSize);
    }
    if i :| 0 <= i < |disk| && BadBucket(disk[i], 0, 0, bucketSize) {
      var k :| BadAt(disk[i], 0, 0, bucketSize, k);
    }
  }

  ghost predicate Contradicted<U(!new)>(s: seq<Found<U>>) {
    exists f, g :: Contradict(s, f, g)
  }

  /** A read of any device: -5 for a bad header that is reached, else -7 for a contradiction, else the selection. */
  lemma ReadExact<U(!new)>(nr: nat, bucketSize: nat, disk: seq<seq<Record<U>>>)
    requires nr >= 1 && |disk| == nr
    ensures !BadDevice(disk, bucketSize) ==> Scanned(Dedup(SortBySeq(ScanBuckets(disk, nr))), nr, bucketSize)
    ensures Read(nr, bucketSize, disk)
         == if BadDevice(disk, bucketSize) then ReadErr(-5)
            else if Contradicted(ScanBuckets(disk, nr)) then ReadErr(-7)
            else Select(nr, bucketSize, disk, Dedup(SortBySeq(ScanBuckets(disk, nr))))
  {
    BadDeviceIff(disk, bucketSize);
    ConflictIff(ScanBuckets(disk, nr));
    if !BadDevice(disk, bucketSize) {
      UniqueScanned(disk, bucketSize);
    }
  }

  /** The scan of a bucket finds its records up to the first that goes backwards, and where each of them ends. */
  lemma {:induction false} ScanBucketExact<U>(recs: seq<Record<U>>, bucket: nat, maxSeq: nat, used: nat)
    ensures var f := ScanBucket(recs, bucket, maxSeq, used);
            && |f| <= |recs| && (|f| < |recs| ==> !NotBack(recs, maxSeq, |f|))
            && (forall i | 0 <= i < |f| :: NotBack(recs, maxSeq, i))
            && forall i | 0 <= i < |f| :: f[i] == Found(recs[i], bucket, used + SectorsOf(recs, i + 1))
    decreases |recs|
  {
    if |recs| > 0 && recs[0].seqno >= maxSeq {
      var rest, seqno, end := recs[1..], recs[0].seqno, used + recs[0].sectors;
      ScanBucketExact(rest, bucket, seqno, end);
      var f, g := ScanBucket(recs, bucket, maxSeq, used), ScanBucket(rest, bucket, seqno, end);
      forall i | 0 <= i < |recs|
        ensures NotBack(recs, maxSeq, i) == if i == 0 then true else NotBack(rest, seqno, i - 1)
      {
      }
      forall i | 0 <= i < |f|
        ensures f[i] == Found(recs[i], bucket, used + SectorsOf(recs, i + 1))
      {
        SectorsOfRest(recs, i);
        assert i > 0 ==> f[i] == g[i - 1];
      }
    }
  }

  // ----- of equal records the one scanned first counts

  /** The records found under one sequence number, in order. */
  function Under<U>(s: seq<Found<U>>, t: nat): seq<Found<U>> {
    if |s| == 0 then []
    else Under(s[..|s| - 1], t) + if s[|s| - 1].rec.seqno == t then [s[|s| - 1]] else []
  }

  lemma {:induction false} InsertStable<U>(f: Found<U>, s: seq<Found<U>>, t: nat)
    ensures Under(InsertBySeq(f, s), t) == Under(s, t) + if f.rec.seqno == t then [f] else []
    decreases |s|
  {
    if |s| > 0 && s[|s| - 1].rec.seqno > f.rec.seqno {
      var last := s[|s| - 1];
      InsertStable(f, s[..|s| - 1], t);
      UnderLast(InsertBySeq(f, s[..|s| - 1]), last, t);
    } else {
      UnderLast(s, f, t);
      assert |s| == 0 ==> s + [f] == [f];
    }
  }

  lemma UnderLast<U>(s: seq<Found<U>>, f: Found<U>, t: nat)
    ensures Under(s + [f], t) == Under(s, t) + if f.rec.seqno == t then [f] else []
  {
    assert (s + [f])[..|s|] == s;
  }

  /** Sorting keeps the order in which records of one sequence number were found. */
  lemma {:induction false} SortStable<U>(s: seq<Found<U>>, t: nat)
    ensures Under(SortBySeq(s), t) == Under(s, t)
    decreases |s|
  {
    if |s| > 0 {
      SortStable(s[..|s| - 1], t);
      InsertStable(s[|s| - 1], SortBySeq(s[..|s| - 1]), t);
    }
  }

  /** Dropping duplicates keeps the first of them. */
  lemma {:induction false} DedupUnder<U(!new)>(s: seq<Found<U>>, t: nat)
    requires SortedBySeq(s)
    ensures Under(Dedup(s), t) == if Under(s, t) == [] then [] else [Under(s, t)[0]]
    decreases |s|
  {
    if |s| > 0 {
      var init, last := s[..|s| - 1], s[|s| - 1];
      DedupUnder(init, t);
      DedupStrict(init);
      var rest := Dedup(init);
      UnderLast(rest, last, t);
      NoneUnder(init, last.rec.seqno);
      if |rest| > 0 && rest[|rest| - 1].rec.seqno == last.rec.seqno {
        assert LastSeqno(init) == last.rec.seqno;
      }
    }
  }

  /** In a sorted list that ends below a sequence number nothing carries it; in one that ends at it something does. */
  lemma {:induction false} NoneUnder<U(!new)>(s: seq<Found<U>>, t: nat)
    requires SortedBySeq(s) && forall i | 0 <= i < |s| :: s[i].rec.seqno <= t
    ensures Under(s, t) == [] <==> |s| == 0 || LastSeqno(s) < t
    decreases |s|
  {
    if |s| > 0 {
      NoneUnder(s[..|s| - 1], t);
    }
  }

  /** What a read goes by for each sequence number is the copy it scanned first. */
  lemma FirstCounts<U(!new)>(s: seq<Found<U>>, t: nat)
    ensures Under(Dedup(SortBySeq(s)), t) == if Under(s, t) == [] then [] else [Under(s, t)[0]]
  {
    SortBySeqSorts(s);
    SortStable(s, t);
    DedupUnder(SortBySeq(s), t);
  }
}
