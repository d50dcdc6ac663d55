/**
 Pin accounting: every list's count is its active pins plus one while it is open plus
 one while it is unreplayed, and last_seq is the oldest sequence number still needed.
 */
module JournalPins {
  import opened JournalModel

  function One(b: bool): nat { if b then 1 else 0 }

  ghost predicate ListOk<U>(j: Journal<U>, i: nat)
    requires i < |j.lists|
  {
    var l := j.lists[i];
    && l.count == |l.pins| + One(i == |j.lists| - 1) + One(l.unreplayed)
    && (l.unreplayed ==> i < |j.lists| - 1)
    && forall p: nat :: p in l.pins <==> PinOf(j.pinSeq, p) == j.front + i
  }

  /** Holds also between a change of the lists and the following update of last_seq. */
  ghost predicate PinBase<U>(j: Journal<U>) {
    && j.Shaped()
    && 1 <= j.front <= j.seqno && j.front + |j.lists| == j.seqno + 1
    && j.seqOndisk + 1 == j.seqno
    && (forall i | 0 <= i < |j.lists| :: ListOk(j, i))
    && (forall p: nat :: PinOf(j.pinSeq, p) != 0 ==> j.front <= PinOf(j.pinSeq, p) <= j.seqno)
  }

  ghost predicate PinInv<U>(j: Journal<U>) {
    PinBase(j) && j.lastSeq == j.front && j.lists[0].count > 0
  }

  // ----- bch2_journal_update_last_seq()

  lemma {:induction false} PopKeeps<U>(j: Journal<U>)
    requires PinBase(j)
    ensures var (front, lists) := PopLists(j.front, j.lists, j.seqOndisk);
            && j.front <= front
            && PinBase(j.(front := front, lists := lists))
            && lists[0].count > 0
            && lists == j.lists[front - j.front..]
    decreases |j.lists|
  {
    if |j.lists| > 0 && j.front <= j.seqOndisk && j.lists[0].count == 0 {
      var j' := j.(front := j.front + 1, lists := j.lists[1..]);
      assert ListOk(j, 0);
      forall i | 0 <= i < |j'.lists|
        ensures ListOk(j', i)
      {
        assert ListOk(j, i + 1);
      }
      forall p | PinOf(j.pinSeq, p) != 0
        ensures PinOf(j.pinSeq, p) >= j.front + 1
      {
        assert p !in j.lists[0].pins;
      }
      PopKeeps(j');
    } else {
      assert ListOk(j, 0);
    }
  }

  /** last_seq only moves forward, and stops at the first list that still counts something. */
  lemma UpdateLastSeqKeeps<U>(j: Journal<U>)
    requires PinBase(j) && j.lastSeq <= j.front
    ensures PinInv(UpdateLastSeq(j))
    ensures UpdateLastSeq(j).lastSeq >= j.lastSeq && UpdateLastSeq(j).front >= j.front
    ensures UpdateLastSeq(j).lists == j.lists[UpdateLastSeq(j).front - j.front..]
    ensures UpdateLastSeq(j).pinSeq == j.pinSeq && UpdateLastSeq(j).seqno == j.seqno
    ensures UpdateLastSeq(j).lastSeqOndisk == j.lastSeqOndisk && UpdateLastSeq(j).seqOndisk == j.seqOndisk
  {
    PopKeeps(j);
    var (front, lists) := PopLists(j.front, j.lists, j.seqOndisk);
    var popped := j.(front := front, lists := lists, lastSeq := front);
    PinsIgnoreDevice(j.(front := front, lists := lists), popped);
    PinsIgnoreDevice(popped, UpdateLastSeq(j));
  }

  /** Nothing about pins depends on the device, last_seq or last_seq_ondisk. */
  lemma PinsIgnoreDevice<U>(j: Journal<U>, j': Journal<U>)
    requires PinBase(j) && j'.Shaped()
    requires j' == j.(dev := j'.dev, lastSeq := j'.lastSeq, lastSeqOndisk := j'.lastSeqOndisk)
    ensures PinBase(j')
  {
    forall i | 0 <= i < |j'.lists|
      ensures ListOk(j', i)
    {
      assert ListOk(j, i);
    }
  }

  // ----- setting and dropping pins

  lemma PinUpdated(pinSeq: map<nat, nat>, pin: nat, at: nat)
    ensures forall p: nat :: PinOf(pinSeq[pin := at], p) == if p == pin then at else PinOf(pinSeq, p)
  {
    forall p: nat
      ensures PinOf(pinSeq[pin := at], p) == if p == pin then at else PinOf(pinSeq, p)
    {
    }
  }

  lemma PinIsOnList<U>(j: Journal<U>, pin: nat)
    requires PinBase(j)
    ensures PinOnList(j, pin)
  {
    var at := PinOf(j.pinSeq, pin);
    if at != 0 {
      assert ListOk(j, at - j.front);
      assert pin in j.lists[at - j.front].pins;
    }
  }

  /** Releasing a pin from its list; its recorded sequence number is cleared. */
  lemma ReleaseKeeps<U>(j: Journal<U>, pin: nat)
    requires PinBase(j) && PinOf(j.pinSeq, pin) != 0
    ensures j.lists[PinOf(j.pinSeq, pin) - j.front].count > 0
    ensures PinBase(j.(lists := ListPut(j.lists, PinOf(j.pinSeq, pin) - j.front, pin), pinSeq := j.pinSeq[pin := 0]))
  {
    var at := PinOf(j.pinSeq, pin) - j.front;
    assert ListOk(j, at);
    var j' := j.(lists := ListPut(j.lists, at, pin), pinSeq := j.pinSeq[pin := 0]);
    PinUpdated(j.pinSeq, pin, 0);
    forall p: nat | PinOf(j'.pinSeq, p) != 0
      ensures j'.front <= PinOf(j'.pinSeq, p) <= j'.seqno
    {
      assert p != pin ==> PinOf(j.pinSeq, p) == PinOf(j'.pinSeq, p);
    }
    forall i | 0 <= i < |j'.lists|
      ensures ListOk(j', i)
    {
      assert ListOk(j, i);
    }
  }

  /** Putting an inactive pin on a list. */
  lemma AcquireKeeps<U>(j: Journal<U>, newSeq: nat, pin: nat)
    requires PinBase(j) && PinOf(j.pinSeq, pin) == 0 && j.front <= newSeq <= j.seqno
    ensures PinBase(j.(lists := ListGet(j.lists, newSeq - j.front, pin), pinSeq := j.pinSeq[pin := newSeq]))
  {
    var j' := j.(lists := ListGet(j.lists, newSeq - j.front, pin), pinSeq := j.pinSeq[pin := newSeq]);
    PinUpdated(j.pinSeq, pin, newSeq);
    forall p: nat | PinOf(j'.pinSeq, p) != 0
      ensures j'.front <= PinOf(j'.pinSeq, p) <= j'.seqno
    {
      assert p != pin ==> PinOf(j.pinSeq, p) == PinOf(j'.pinSeq, p);
    }
    forall i | 0 <= i < |j'.lists|
      ensures ListOk(j', i)
    {
      assert ListOk(j, i);
    }
  }

  lemma PinSetKeeps<U>(j: Journal<U>, newSeq: nat, pin: nat)
    requires PinInv(j) && j.front <= newSeq <= j.seqno
    ensures PinOnList(j, pin) && PinInv(PinSet(j, newSeq, pin))
    ensures PinSet(j, newSeq, pin).lastSeq >= j.lastSeq
    ensures PinSet(j, newSeq, pin).pinSeq == j.pinSeq[pin := newSeq]
  {
    PinIsOnList(j, pin);
    var at := PinOf(j.pinSeq, pin);
    if at == 0 {
      AcquireKeeps(j, newSeq, pin);
    } else {
      ReleaseKeeps(j, pin);
      var released := j.(lists := ListPut(j.lists, at - j.front, pin), pinSeq := j.pinSeq[pin := 0]);
      AcquireKeeps(released, newSeq, pin);
      var moved := j.(lists := ListGet(released.lists, newSeq - j.front, pin), pinSeq := j.pinSeq[pin := newSeq]);
      assert released.pinSeq[pin := newSeq] == moved.pinSeq;
      UpdateLastSeqKeeps(moved);
    }
  }

  lemma PinDropKeeps<U>(j: Journal<U>, pin: nat)
    requires PinInv(j)
    ensures PinOnList(j, pin) && PinInv(PinDrop(j, pin))
    ensures PinDrop(j, pin).lastSeq >= j.lastSeq
    ensures PinOf(j.pinSeq, pin) != 0 ==> PinDrop(j, pin).pinSeq == j.pinSeq[pin := 0]
  {
    PinIsOnList(j, pin);
    if PinOf(j.pinSeq, pin) != 0 {
      ReleaseKeeps(j, pin);
      var at := PinOf(j.pinSeq, pin) - j.front;
      UpdateLastSeqKeeps(j.(lists := ListPut(j.lists, at, pin), pinSeq := j.pinSeq[pin := 0]));
    }
  }

  // ----- replay

  lemma PinCountsUnreplayed<U>(j: Journal<U>)
    requires PinBase(j)
    ensures UnreplayedCounted(j.lists)
  {
    forall i | 0 <= i < |j.lists|
      ensures j.lists[i].unreplayed ==> j.lists[i].count > 0
    {
      assert ListOk(j, i);
    }
  }

  lemma {:induction false} PutReplayedKeeps<U>(j: Journal<U>, n: nat)
    requires PinBase(j) && n <= |j.lists|
    ensures UnreplayedCounted(j.lists)
    ensures PinBase(j.(lists := PutReplayed(j.lists, n)))
    ensures forall i | 0 <= i < |j.lists| ::
              PutReplayed(j.lists, n)[i].unreplayed == (i >= n && j.lists[i].unreplayed)
    ensures forall i | 0 <= i < |j.lists| :: PutReplayed(j.lists, n)[i].pins == j.lists[i].pins
    decreases n
  {
    PinCountsUnreplayed(j);
    if n > 0 {
      PutReplayedKeeps(j, n - 1);
      var rest := j.(lists := PutReplayed(j.lists, n - 1));
      var done := j.(lists := PutReplayed(j.lists, n));
      forall i | 0 <= i < |j.lists|
        ensures ListOk(done, i)
      {
        assert ListOk(rest, i);
      }
    }
  }

  lemma ReplayPinsPutKeeps<U>(j: Journal<U>, end: nat)
    requires PinInv(j)
    ensures UnreplayedCounted(j.lists) && PinInv(ReplayPinsPut(j, end))
    ensures ReplayPinsPut(j, end).lastSeq >= j.lastSeq
    ensures ReplayPinsPut(j, end).pinSeq == j.pinSeq
  {
    PutReplayedKeeps(j, ReplayedLists(j, end));
    UpdateLastSeqKeeps(j.(lists := PutReplayed(j.lists, ReplayedLists(j, end))));
  }

  /** A list after the entries below `last` are replayed. */
  function Released(l: PinList, at: nat, last: int): PinList {
    if l.unreplayed && at < last && l.count > 0 then l.(unreplayed := false, count := l.count - 1) else l
  }

  lemma {:induction false} PutReplayedAt(lists: seq<PinList>, n: nat, i: nat)
    requires UnreplayedCounted(lists) && n <= |lists| && i < |lists|
    ensures PutReplayed(lists, n)[i] == Released(lists[i], i, n)
  {
    if n > 0 {
      PutReplayedAt(lists, n - 1, i);
    }
  }

  /** Every list is released or as it was, and from the front those that then count nothing are gone. */
  ghost predicate ReplayedTo(front: nat, lists: seq<PinList>, last: int, front': nat, lists': seq<PinList>) {
    && front <= front' && front' + |lists'| == front + |lists|
    && (forall i | 0 <= i < |lists'| :: lists'[i] == Released(lists[front' - front + i], front' + i, last))
    && (forall i | 0 <= i < |lists'| && front' + i < last :: !lists'[i].unreplayed)
    && (forall i | 0 <= i < front' - front :: Released(lists[i], front + i, last).count == 0)
  }

  /** Exactly the closed entries below `end` are released, one count each, and no other list changes. */
  lemma ReplayEffect<U>(j: Journal<U>, end: nat)
    requires PinInv(j)
    ensures UnreplayedCounted(j.lists)
    ensures var j' := ReplayPinsPut(j, end); ReplayedTo(j.front, j.lists, Min(end, j.seqno), j'.front, j'.lists)
  {
    PinCountsUnreplayed(j);
    var n := ReplayedLists(j, end);
    PutReplayedKeeps(j, n);
    var put := j.(lists := PutReplayed(j.lists, n));
    UpdateLastSeqKeeps(put);
    PutIsReleased(j, end);
    PopReplayed(j.front, j.lists, put.lists, Min(end, j.seqno), j.seqOndisk);
  }

  lemma PopReplayed(front: nat, lists: seq<PinList>, put: seq<PinList>, last: int, seqOndisk: nat)
    requires |put| == |lists| && UnreplayedCounted(lists)
    requires forall i | 0 <= i < |lists| :: put[i] == Released(lists[i], front + i, last)
    ensures var (front', lists') := PopLists(front, put, seqOndisk); ReplayedTo(front, lists, last, front', lists')
  {
    PopsEmpty(front, put, seqOndisk);
  }

  lemma PutIsReleased<U>(j: Journal<U>, end: nat)
    requires PinInv(j) && UnreplayedCounted(j.lists)
    ensures forall i | 0 <= i < |j.lists| ::
              PutReplayed(j.lists, ReplayedLists(j, end))[i] == Released(j.lists[i], j.front + i, Min(end, j.seqno))
  {
    forall i | 0 <= i < |j.lists|
      ensures PutReplayed(j.lists, ReplayedLists(j, end))[i] == Released(j.lists[i], j.front + i, Min(end, j.seqno))
    {
      PutReplayedAt(j.lists, ReplayedLists(j, end), i);
    }
  }

  /** Only lists that count nothing are popped. */
  lemma {:induction false} PopsEmpty(front: nat, lists: seq<PinList>, seqOndisk: nat)
    ensures var (front', lists') := PopLists(front, lists, seqOndisk);
            && front <= front' <= front + |lists| && lists' == lists[front' - front..]
            && forall i | 0 <= i < front' - front :: lists[i].count == 0
    decreases |lists|
  {
    if |lists| > 0 && front <= seqOndisk && lists[0].count == 0 {
      PopsEmpty(front + 1, lists[1..], seqOndisk);
      var front' := PopLists(front + 1, lists[1..], seqOndisk).0;
      forall i | 0 <= i < front' - front
        ensures lists[i].count == 0
      {
        assert i > 0 ==> lists[i] == lists[1..][i - 1];
      }
    }
  }

  // ----- flush

  lemma OpenNextKeeps<U>(j: Journal<U>, r: Record<U>)
    requires PinInv(j)
    ensures Flushable(j)
    ensures PinBase(OpenNext(j, r))
  {
    assert ListOk(j, j.seqno - j.front);
    var j' := OpenNext(j, r);
    forall i | 0 <= i < |j'.lists|
      ensures ListOk(j', i)
    {
      if i < |j.lists| {
        assert ListOk(j, i);
      }
    }
  }

  /**
   last_seq_ondisk stays at or behind last_seq across a flush exactly when an empty
   record carries no pin: then its own list is released at once.
   */
  lemma FlushOndiskBound<U>(j: Journal<U>, r: Record<U>)
    requires PinInv(j) && j.lastSeqOndisk <= j.lastSeq && r.seqno == j.seqno && r.lastSeq == j.lastSeq
    ensures Flushable(j)
    ensures var after := UpdateLastSeq(OpenNext(j, r));
            after.lastSeqOndisk <= after.lastSeq <==> !(EmptyRecord(r) && |j.lists[j.seqno - j.front].pins| > 0)
  {
    OpenNextKeeps(j, r);
    var next := OpenNext(j, r);
    UpdateLastSeqKeeps(next);
    if EmptyRecord(r) {
      assert |j.lists| == 1;
      assert ListOk(j, 0);
      assert next.lists[0].count == |j.lists[0].pins|;
      var (front, lists) := PopLists(next.front, next.lists, next.seqOndisk);
      if |j.lists[0].pins| == 0 {
        assert PopLists(next.front, next.lists, next.seqOndisk)
            == PopLists(next.front + 1, next.lists[1..], next.seqOndisk);
      } else {
        assert front == next.front;
      }
    }
  }

  // ----- what the steps leave alone

  /** last_seq does not move backwards, and not at all while its entry is unreplayed. */
  ghost predicate Held<U>(j: Journal<U>, j': Journal<U>) {
    && j.front <= j'.front
    && (|j.lists| > 0 && j.lists[0].unreplayed ==> j'.front == j.front && |j'.lists| > 0 && j'.lists[0].unreplayed)
  }

  lemma UpdateLastSeqHolds<U>(j: Journal<U>)
    requires PinBase(j) && j.lastSeq <= j.front
    ensures Held(j, UpdateLastSeq(j)) && UpdateLastSeq(j).pinSeq == j.pinSeq
  {
    UpdateLastSeqKeeps(j);
    assert ListOk(j, 0);
  }

  /** The sequence number bch2_journal_pin_add() leaves a pin on: the older of the two. */
  function Oldest(at: nat, newSeq: nat): nat {
    if at == 0 || at > newSeq then newSeq else at
  }

  lemma PinAddEffect<U>(j: Journal<U>, newSeq: nat, pin: nat)
    requires PinInv(j) && j.front <= newSeq <= j.seqno
    ensures PinOnList(j, pin) && Held(j, PinAdd(j, newSeq, pin))
    ensures forall p: nat ::
              PinOf(PinAdd(j, newSeq, pin).pinSeq, p)
              == if p == pin then Oldest(PinOf(j.pinSeq, pin), newSeq) else PinOf(j.pinSeq, p)
  {
    PinSetKeeps(j, newSeq, pin);
    PinUpdated(j.pinSeq, pin, newSeq);
    PinSetHolds(j, newSeq, pin);
  }

  /** The sequence number bch2_journal_pin_update() leaves a pin on: the newer of the two. */
  lemma PinUpdateEffect<U>(j: Journal<U>, newSeq: nat, pin: nat)
    requires PinInv(j) && j.front <= newSeq <= j.seqno
    ensures PinOnList(j, pin) && Held(j, PinUpdate(j, newSeq, pin))
    ensures forall p: nat ::
              PinOf(PinUpdate(j, newSeq, pin).pinSeq, p)
              == if p == pin then Max(PinOf(j.pinSeq, pin), newSeq) else PinOf(j.pinSeq, p)
  {
    PinSetKeeps(j, newSeq, pin);
    PinUpdated(j.pinSeq, pin, newSeq);
    PinSetHolds(j, newSeq, pin);
  }

  lemma {:induction false} PinSetHolds<U>(j: Journal<U>, newSeq: nat, pin: nat)
    requires PinInv(j) && j.front <= newSeq <= j.seqno && PinOnList(j, pin)
    ensures Held(j, PinSet(j, newSeq, pin))
  {
    var at := PinOf(j.pinSeq, pin);
    if at != 0 {
      ReleaseKeeps(j, pin);
      var released := j.(lists := ListPut(j.lists, at - j.front, pin), pinSeq := j.pinSeq[pin := 0]);
      AcquireKeeps(released, newSeq, pin);
      var moved := j.(lists := ListGet(released.lists, newSeq - j.front, pin), pinSeq := j.pinSeq[pin := newSeq]);
      assert released.pinSeq[pin := newSeq] == moved.pinSeq;
      UpdateLastSeqHolds(moved);
    }
  }

  lemma PinDropEffect<U>(j: Journal<U>, pin: nat)
    requires PinInv(j)
    ensures PinOnList(j, pin) && Held(j, PinDrop(j, pin))
    ensures forall p: nat :: PinOf(PinDrop(j, pin).pinSeq, p) == if p == pin then 0 else PinOf(j.pinSeq, p)
  {
    PinDropKeeps(j, pin);
    PinUpdated(j.pinSeq, pin, 0);
    if PinOf(j.pinSeq, pin) != 0 {
      ReleaseKeeps(j, pin);
      var at := PinOf(j.pinSeq, pin) - j.front;
      UpdateLastSeqHolds(j.(lists := ListPut(j.lists, at, pin), pinSeq := j.pinSeq[pin := 0]));
    }
  }

  lemma FlushEffect<U>(j: Journal<U>, updates: seq<U>, sectors: nat, fault: bool)
    requires PinInv(j)
    ensures Flushable(j)
    ensures var j' := Flush(j, updates, sectors, fault).1; Held(j, j') && j'.pinSeq == j.pinSeq
  {
    var r := OpenRecord(j, updates, sectors);
    OpenNextKeeps(j, r);
    var written := j.(dev := WriteRecord(j.dev, r, fault).1);
    PinsIgnoreDevice(j, written);
    OpenNextKeeps(written, r);
    UpdateLastSeqHolds(OpenNext(written, r));
    assert ListOk(j, 0);
  }

  /**
   A flush that fails changes the device at most; one that succeeds opens the next sequence number
   and makes durable that nothing older than last_seq is needed, or nothing at all if it was empty.
   */
  lemma FlushState<U>(j: Journal<U>, updates: seq<U>, sectors: nat, fault: bool)
    requires PinInv(j)
    ensures Flushable(j)
    ensures var (code, j') := Flush(j, updates, sectors, fault);
            && (code != 0 ==> j' == j.(dev := j'.dev))
            && (code == 0 ==> j'.seqno == j.seqno + 1 && j'.seqOndisk == j.seqno)
            && (code == 0 ==> j'.front + |j'.lists| == j.seqno + 2)
            && (code == 0 ==>
                  var done := if j.lastSeq == j.seqno && updates == [] then j.seqno + 1 else j.lastSeq;
                  j'.lastSeqOndisk == Max(j.lastSeqOndisk, done))
  {
    var r := OpenRecord(j, updates, sectors);
    OpenNextKeeps(j, r);
    var written := j.(dev := WriteRecord(j.dev, r, fault).1);
    PinsIgnoreDevice(j, written);
    OpenNextKeeps(written, r);
    UpdateLastSeqKeeps(OpenNext(written, r));
  }

  // ----- start-up

  lemma RestartedKeeps<U>(first: nat, curSeq: nat, dev: Device<U>)
    requires dev.Shaped() && 1 <= first <= curSeq
    ensures PinInv(Restarted(first, curSeq, dev))
  {
    var j := Restarted(first, curSeq, dev);
    forall i | 0 <= i < |j.lists|
      ensures ListOk(j, i)
    {
    }
  }
}
