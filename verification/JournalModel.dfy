/**
 The journal as a value: sequence numbers, per-sequence pin lists and the circular
 device log.  Every function below is one atomic step of the journal, because the
 engine's mutex serialises all access to it.  The imperative journal (module
 `JournalObject`) is proved to compute exactly these steps, and the theorems about
 whole runs (`JournalRuns`, `WriteAhead`) are stated over them.
 */
module JournalModel {

  const JournalSeqMax: nat := 0xff_ffff_ffff_ffff

  /** One jset: `updates` are its btree-key entries, `sectors` its block-rounded size. */
  datatype Record<U> = Record(seqno: nat, lastSeq: nat, sectors: nat, noFlush: bool, updates: seq<U>)

  /** journal_entry_empty(): nothing older is live and no btree keys are carried. */
  predicate EmptyRecord<U>(r: Record<U>) {
    r.seqno == r.lastSeq && |r.updates| == 0
  }

  /** The pin list of one sequence number; `pins` are the pins currently on it. */
  datatype PinList = PinList(count: nat, unreplayed: bool, pins: set<nat>)

  /** The device: ring indices plus the records each bucket holds, oldest first. */
  datatype Device<U> = Device(
    nr: nat, bucketSize: nat, bucketSeq: seq<nat>, sectorsFree: nat,
    discardIdx: nat, dirtyIdxOndisk: nat, dirtyIdx: nat, curIdx: nat,
    disk: seq<seq<Record<U>>>)
  {
    predicate Shaped() {
      && nr >= 1
      && |bucketSeq| == nr && |disk| == nr
      && discardIdx < nr && dirtyIdxOndisk < nr && dirtyIdx < nr && curIdx < nr
    }
  }

  datatype Journal<U> = Journal(
    seqno: nat, seqOndisk: nat, lastSeq: nat, lastSeqOndisk: nat,
    front: nat, lists: seq<PinList>, pinSeq: map<nat, nat>, dev: Device<U>)
  {
    predicate Shaped() {
      dev.Shaped()
    }
  }

  /** The sequence number a pin is on; 0 while it is not active. */
  function PinOf(pinSeq: map<nat, nat>, pin: nat): nat {
    if pin in pinSeq then pinSeq[pin] else 0
  }

  // ----- the ring

  /** Steps from bucket `a` forward to bucket `b`. */
  function Dist(a: nat, b: nat, nr: nat): nat
    requires a < nr && b < nr
  {
    if a <= b then b - a else b + nr - a
  }

  function Next(i: nat, nr: nat): nat
    requires i < nr
  {
    (i + 1) % nr
  }

  lemma NextIsWrap(i: nat, nr: nat)
    requires i < nr
    ensures Next(i, nr) == if i + 1 == nr then 0 else i + 1
  {
    if i + 1 == nr {
      assert nr % nr == 0;
    }
  }

  lemma DistNextLeft(a: nat, b: nat, nr: nat)
    requires a < nr && b < nr && a != b
    ensures Next(a, nr) < nr && Dist(Next(a, nr), b, nr) == Dist(a, b, nr) - 1
  {
    NextIsWrap(a, nr);
  }

  /** bch2_journal_dev_buckets_available() */
  function Available<U>(d: Device<U>, from: nat): nat
    requires d.Shaped() && from < d.nr
  {
    var available := (from + d.nr - d.curIdx - 1) % d.nr;
    if available != 0 && d.dirtyIdxOndisk == d.dirtyIdx then available - 1 else available
  }

  // ----- space accounting

  function AdvanceDirty<U>(d: Device<U>, lastSeq: nat): (r: Device<U>)
    requires d.Shaped()
    ensures r.Shaped() && r == d.(dirtyIdx := r.dirtyIdx)
    decreases Dist(d.dirtyIdx, d.curIdx, d.nr)
  {
    if d.dirtyIdx != d.curIdx && d.bucketSeq[d.dirtyIdx] < lastSeq then
      DistNextLeft(d.dirtyIdx, d.curIdx, d.nr);
      AdvanceDirty(d.(dirtyIdx := Next(d.dirtyIdx, d.nr)), lastSeq)
    else d
  }

  function AdvanceOndisk<U>(d: Device<U>, lastSeqOndisk: nat): (r: Device<U>)
    requires d.Shaped()
    ensures r.Shaped() && r == d.(dirtyIdxOndisk := r.dirtyIdxOndisk)
    decreases Dist(d.dirtyIdxOndisk, d.dirtyIdx, d.nr)
  {
    if d.dirtyIdxOndisk != d.dirtyIdx && d.bucketSeq[d.dirtyIdxOndisk] < lastSeqOndisk then
      DistNextLeft(d.dirtyIdxOndisk, d.dirtyIdx, d.nr);
      AdvanceOndisk(d.(dirtyIdxOndisk := Next(d.dirtyIdxOndisk, d.nr)), lastSeqOndisk)
    else d
  }

  /** bch2_journal_space_available(), the part that moves the ring indices. */
  function SpaceAvailable<U>(j: Journal<U>): (r: Journal<U>)
    requires j.Shaped()
    ensures r.Shaped()
  {
    j.(dev := AdvanceOndisk(AdvanceDirty(j.dev, j.lastSeq), j.lastSeqOndisk))
  }

  /** bch2_journal_do_discards() */
  function DoDiscards<U>(j: Journal<U>): (r: Journal<U>)
    requires j.Shaped()
    ensures r.Shaped()
  {
    j.(dev := j.dev.(discardIdx := j.dev.dirtyIdxOndisk))
  }

  // ----- pins

  function PopLists(front: nat, lists: seq<PinList>, seqOndisk: nat): (nat, seq<PinList>)
    decreases |lists|
  {
    if |lists| > 0 && front <= seqOndisk && lists[0].count == 0 then
      PopLists(front + 1, lists[1..], seqOndisk)
    else (front, lists)
  }

  /** bch2_journal_update_last_seq() */
  function UpdateLastSeq<U>(j: Journal<U>): (r: Journal<U>)
    requires j.Shaped()
    ensures r.Shaped()
  {
    var (front, lists) := PopLists(j.front, j.lists, j.seqOndisk);
    var popped := j.(front := front, lists := lists, lastSeq := front);
    if front != j.lastSeq then DoDiscards(SpaceAvailable(popped)) else popped
  }

  /** bch2_journal_update_last_seq_ondisk(), called by a completed checkpoint. */
  function UpdateLastSeqOndisk<U>(j: Journal<U>, lastSeqOndisk: nat): (r: (int, Journal<U>))
    requires j.Shaped()
    ensures r.1.Shaped()
  {
    if lastSeqOndisk > j.seqno || lastSeqOndisk > j.lastSeq then (-1, j)
    else if lastSeqOndisk > j.lastSeqOndisk then
      (0, DoDiscards(SpaceAvailable(j.(lastSeqOndisk := lastSeqOndisk))))
    else (0, j)
  }

  function ListPut(lists: seq<PinList>, i: nat, pin: nat): seq<PinList>
    requires i < |lists| && lists[i].count > 0
  {
    lists[i := lists[i].(count := lists[i].count - 1, pins := lists[i].pins - {pin})]
  }

  function ListGet(lists: seq<PinList>, i: nat, pin: nat): seq<PinList>
    requires i < |lists|
  {
    lists[i := lists[i].(count := lists[i].count + 1, pins := lists[i].pins + {pin})]
  }

  /** What bch2_journal_pin_set() and bch2_journal_pin_drop() assert about an active pin. */
  predicate PinOnList<U>(j: Journal<U>, pin: nat) {
    var at := PinOf(j.pinSeq, pin);
    at != 0 ==> j.front <= at < j.front + |j.lists| && j.lists[at - j.front].count > 0
  }

  /** bch2_journal_pin_set() */
  function PinSet<U>(j: Journal<U>, newSeq: nat, pin: nat): (r: Journal<U>)
    requires j.Shaped() && PinOnList(j, pin)
    requires j.front <= newSeq < j.front + |j.lists|
    ensures r.Shaped()
  {
    var at := PinOf(j.pinSeq, pin);
    var released := if at != 0 then ListPut(j.lists, at - j.front, pin) else j.lists;
    var moved := j.(lists := ListGet(released, newSeq - j.front, pin), pinSeq := j.pinSeq[pin := newSeq]);
    if at != 0 then UpdateLastSeq(moved) else moved
  }

  /** bch2_journal_pin_add(): keep the oldest sequence number. */
  function PinAdd<U>(j: Journal<U>, newSeq: nat, pin: nat): (r: Journal<U>)
    requires j.Shaped() && PinOnList(j, pin)
    requires j.front <= newSeq < j.front + |j.lists|
    ensures r.Shaped()
  {
    if PinOf(j.pinSeq, pin) == 0 || PinOf(j.pinSeq, pin) > newSeq then PinSet(j, newSeq, pin) else j
  }

  /** bch2_journal_pin_update(): keep the newest sequence number. */
  function PinUpdate<U>(j: Journal<U>, newSeq: nat, pin: nat): (r: Journal<U>)
    requires j.Shaped() && PinOnList(j, pin)
    requires j.front <= newSeq < j.front + |j.lists|
    ensures r.Shaped()
  {
    if PinOf(j.pinSeq, pin) == 0 || PinOf(j.pinSeq, pin) < newSeq then PinSet(j, newSeq, pin) else j
  }

  /** bch2_journal_pin_drop() */
  function PinDrop<U>(j: Journal<U>, pin: nat): (r: Journal<U>)
    requires j.Shaped() && PinOnList(j, pin)
    ensures r.Shaped()
  {
    var at := PinOf(j.pinSeq, pin);
    if at == 0 then j
    else UpdateLastSeq(j.(lists := ListPut(j.lists, at - j.front, pin), pinSeq := j.pinSeq[pin := 0]))
  }

  /** What bch2_journal_replay_pins_put() asserts about an unreplayed list. */
  predicate UnreplayedCounted(lists: seq<PinList>) {
    forall i | 0 <= i < |lists| :: lists[i].unreplayed ==> lists[i].count > 0
  }

  /** Clears the unreplayed mark of the first `n` lists. */
  function PutReplayed(lists: seq<PinList>, n: nat): (r: seq<PinList>)
    requires n <= |lists| && UnreplayedCounted(lists)
    ensures |r| == |lists| && UnreplayedCounted(r)
  {
    if n == 0 then lists
    else
      var rest := PutReplayed(lists, n - 1);
      var l := rest[n - 1];
      if l.unreplayed then rest[n - 1 := l.(unreplayed := false, count := l.count - 1)] else rest
  }

  function Min(a: int, b: int): int { if a < b then a else b }
  function Max(a: int, b: int): int { if a > b then a else b }

  /** How many lists bch2_journal_replay_pins_put() visits. */
  function ReplayedLists<U>(j: Journal<U>, end: nat): nat {
    var last := Min(end, j.seqno);
    if last <= j.front then 0 else Min(last - j.front, |j.lists|)
  }

  /** bch2_journal_replay_pins_put() */
  function ReplayPinsPut<U>(j: Journal<U>, end: nat): (r: Journal<U>)
    requires j.Shaped() && UnreplayedCounted(j.lists)
    ensures r.Shaped()
  {
    UpdateLastSeq(j.(lists := PutReplayed(j.lists, ReplayedLists(j, end))))
  }

  // ----- flush

  /** The record does not fit the current bucket and a discarded one is available. */
  predicate NeedsBucket<U>(d: Device<U>, sectors: nat)
    requires d.Shaped()
  {
    d.sectorsFree < sectors <= d.bucketSize && Available(d, d.discardIdx) != 0
  }

  /** Moves on to the next bucket when the record does not fit the current one. */
  function AdvanceBucket<U>(d: Device<U>, seqno: nat, sectors: nat): (r: Device<U>)
    requires d.Shaped()
    ensures r.Shaped()
  {
    if NeedsBucket(d, sectors) then
      var next := Next(d.curIdx, d.nr);
      d.(curIdx := next, sectorsFree := d.bucketSize,
         bucketSeq := d.bucketSeq[next := seqno], disk := d.disk[next := []])
    else d
  }

  function AppendRecord<U>(d: Device<U>, r: Record<U>): (r': Device<U>)
    requires d.Shaped() && r.sectors <= d.sectorsFree
    ensures r'.Shaped()
  {
    d.(sectorsFree := d.sectorsFree - r.sectors,
       bucketSeq := d.bucketSeq[d.curIdx := r.seqno],
       disk := d.disk[d.curIdx := d.disk[d.curIdx] + [r]])
  }

  /** The device part of bch2_journal_flush(); `fault` makes the record's own write fail. */
  function WriteRecord<U>(d: Device<U>, r: Record<U>, fault: bool): (res: (int, Device<U>))
    requires d.Shaped()
    ensures res.1.Shaped()
  {
    if r.sectors > d.bucketSize then (-4, d)
    else
      var advanced := AdvanceBucket(d, r.seqno, r.sectors);
      if r.sectors > advanced.sectorsFree then (-9, advanced)
      else if fault then (-5, advanced)
      else (0, AppendRecord(advanced, r))
  }

  function OpenRecord<U>(j: Journal<U>, updates: seq<U>, sectors: nat): Record<U> {
    Record(j.seqno, j.lastSeq, sectors, false, updates)
  }

  /** The open entry has a list, which counts it. */
  predicate Flushable<U>(j: Journal<U>) {
    j.Shaped() && j.front <= j.seqno && j.seqno - j.front < |j.lists| && j.lists[j.seqno - j.front].count > 0
  }

  /** Opens the next sequence number once the record is durable. */
  function OpenNext<U>(j: Journal<U>, r: Record<U>): (r': Journal<U>)
    requires Flushable(j)
    ensures r'.Shaped()
  {
    var open := j.seqno - j.front;
    var lists := j.lists[open := j.lists[open].(count := j.lists[open].count - 1)] + [PinList(1, false, {})];
    j.(seqno := j.seqno + 1, lists := lists, seqOndisk := j.seqno,
       lastSeqOndisk := Max(j.lastSeqOndisk, r.lastSeq + if EmptyRecord(r) then 1 else 0))
  }

  /** bch2_journal_flush(), with no reservation outstanding. */
  function Flush<U>(j: Journal<U>, updates: seq<U>, sectors: nat, fault: bool): (res: (int, Journal<U>))
    requires Flushable(j)
    ensures res.1.Shaped()
  {
    var r := OpenRecord(j, updates, sectors);
    var (code, dev) := WriteRecord(j.dev, r, fault);
    var written := j.(dev := dev);
    if code != 0 then (code, written)
    else if j.seqno + 1 > JournalSeqMax then (-2, written)
    else (0, DoDiscards(SpaceAvailable(UpdateLastSeq(OpenNext(written, r)))))
  }

  // ----- start-up

  /** A freshly formatted device. */
  function EmptyDevice<U>(nr: nat, bucketSize: nat): (d: Device<U>)
    requires nr >= 1
    ensures d.Shaped()
  {
    Device(nr, bucketSize, seq(nr, _ => 0), bucketSize, 0, 0, 0, 0, seq(nr, _ => []))
  }

  /** The journal bch2_journal_read() installs for a live window starting at `first`. */
  function Restarted<U>(first: nat, curSeq: nat, dev: Device<U>): (j: Journal<U>)
    requires dev.Shaped() && 1 <= first <= curSeq
    ensures j.Shaped()
  {
    Journal(curSeq, curSeq - 1, first, first, first,
            seq(curSeq - first, _ => PinList(1, true, {})) + [PinList(1, false, {})], map[], dev)
  }
}
