/**
 Write-ahead recovery.  A btree is a map whose keys live in nodes.  Committing an update
 puts it into the open journal entry and pins its node with bch2_journal_pin_add(); a
 node write makes the node's keys durable and drops the pin.  In every reachable state,
 replaying the window that bch2_journal_read() returns over the durable nodes yields
 exactly the map as of the last flush -- also when the crash hits during replay.
 */
module WriteAhead {
  import opened Options
  import opened JournalModel
  import opened JournalRead
  import opened JournalRing
  import opened JournalPins
  import opened JournalRuns
  import opened RecordReplay

  /**
   `open` are the updates of the open journal entry, `mem` the btree in memory, `written`
   the durable node images, `pending` what replay still has to do.
   */
  datatype Wal<!K, V> = Wal(
    run: Run<Update<K, V>>, open: seq<Update<K, V>>, mem: map<K, V>, written: map<K, V>,
    replaying: bool, pending: seq<(nat, Update<K, V>)>)

  datatype WStep<K, V> =
    | Commit(u: Update<K, V>)
    | FlushOpen(sectors: nat, fault: bool)
    | WriteNode(node: nat)
    | AdvanceOndiskSeq(lastSeqOndisk: nat)
    | CrashAndRead
    | ReplayKey
    | FinishReplay

  // ----- steps

  /** The map as of the last flush. */
  function Flushed<K, V>(base: map<K, V>, w: Wal<K, V>): map<K, V> {
    ApplyRecords(base, w.run.log)
  }

  /** What a restart reconstructs from the device alone. */
  function Recovered<K, V>(w: Wal<K, V>): map<K, V> {
    ApplyRecords(w.written, Window(w.run.log))
  }

  /** Copies the keys of one node from memory to its durable image. */
  function WriteBack<K, V>(written: map<K, V>, mem: map<K, V>, node: K -> nat, n: nat): map<K, V> {
    (map k | k in written && node(k) != n :: written[k]) + (map k | k in mem && node(k) == n :: mem[k])
  }

  /** Updates are committed after replay, and a node is written only when it holds nothing unflushed. */
  ghost predicate WEnabled<K(!new), V(!new)>(w: Wal<K, V>, node: K -> nat, s: WStep<K, V>) {
    match s
    case Commit(_) => !w.replaying
    case FlushOpen(sectors, _) => sectors >= 1 && w.run.j.seqno < JournalSeqMax
    case WriteNode(n) => forall i | 0 <= i < |w.open| :: node(w.open[i].key) != n
    case AdvanceOndiskSeq(_) => true
    case CrashAndRead => true
    case ReplayKey => w.replaying && |w.pending| > 0
    case FinishReplay => w.replaying && |w.pending| == 0
  }

  /** The journal call each step makes. */
  ghost function JournalStep<K(!new), V(!new)>(w: Wal<K, V>, node: K -> nat, s: WStep<K, V>): Step<Update<K, V>>
    requires WEnabled(w, node, s)
  {
    match s
    case Commit(u) => AddPin(w.run.j.seqno, node(u.key))
    case FlushOpen(sectors, fault) => FlushEntry(w.open, sectors, fault)
    case WriteNode(n) => DropPin(n)
    case AdvanceOndiskSeq(l) => Checkpoint(l)
    case CrashAndRead => Crash
    case ReplayKey => AddPin(w.pending[0].0, node(w.pending[0].1.key))
    case FinishReplay => ReplayDone(w.run.j.seqno)
  }

  ghost predicate WSafe<K(!new), V(!new)>(w: Wal<K, V>, node: K -> nat, s: WStep<K, V>) {
    && WEnabled(w, node, s)
    && Enabled(w.run, JournalStep(w, node, s)) && Safe(w.run, JournalStep(w, node, s))
  }

  ghost function WApply<K(!new), V(!new)>(w: Wal<K, V>, node: K -> nat, s: WStep<K, V>): Wal<K, V>
    requires WSafe(w, node, s)
  {
    var run := Apply(w.run, JournalStep(w, node, s));
    match s
    case Commit(u) => w.(run := run, open := w.open + [u], mem := w.mem[u.key := u.val])
    case FlushOpen(_, _) => w.(run := run, open := if |run.log| > |w.run.log| then [] else w.open)
    case WriteNode(n) => w.(run := run, written := WriteBack(w.written, w.mem, node, n))
    case AdvanceOndiskSeq(_) => w.(run := run)
    case CrashAndRead =>
      Wal(run, [], w.written, w.written, true, Flatten(ReadDevice(w.run.j.dev).records))
    case ReplayKey =>
      var u := w.pending[0].1;
      w.(run := run, mem := w.mem[u.key := u.val], pending := w.pending[1..])
    case FinishReplay => w.(run := run, replaying := false)
  }

  // ----- the invariant

  /** An unwritten key is protected by its node's pin: some record from the pin on carries it. */
  ghost predicate Protected<K(!new), V(!new)>(w: Wal<K, V>, base: map<K, V>, node: K -> nat, k: K) {
    || Val(w.written, k) == Val(Flushed(base, w), k)
    || (PinOf(w.run.j.pinSeq, node(k)) != 0 && TouchedFrom(w.run.log, PinOf(w.run.j.pinSeq, node(k)), k))
  }

  ghost predicate KeyOk<K(!new), V(!new)>(w: Wal<K, V>, base: map<K, V>, node: K -> nat, k: K) {
    if PendingTouches(w.pending, k) then
      Val(ApplyPending(map[], w.pending), k) == Val(Flushed(base, w), k)
    else
      && Val(w.mem, k) == Val(ApplyUpdates(Flushed(base, w), w.open), k)
      && Protected(w, base, node, k)
  }

  /** Replay still owes only updates of tracked records. */
  ghost predicate PendingOk<K(!new), V(!new)>(w: Wal<K, V>, i: nat)
    requires i < |w.pending|
  {
    var (s, u) := w.pending[i];
    1 <= w.run.j.front <= s <= |w.run.log| && Touches(w.run.log[s - 1].updates, u.key)
  }

  ghost predicate WalInv<K(!new), V(!new)>(w: Wal<K, V>, base: map<K, V>, node: K -> nat) {
    && JournalInv(w.run)
    && (w.replaying ==> |w.open| == 0)
    && (!w.replaying ==> |w.pending| == 0)
    && (|w.pending| > 0 ==> w.run.j.lists[0].unreplayed)
    && (forall i | 0 <= i < |w.pending| :: PendingOk(w, i))
    && (forall i | 0 <= i < |w.open| :: PinOf(w.run.j.pinSeq, node(w.open[i].key)) != 0)
    && (forall k: K :: KeyOk(w, base, node, k))
  }

  // ----- the main result

  /** A key the window does not carry is already durable. */
  lemma OutsideWindowIsWritten<K(!new), V(!new)>(w: Wal<K, V>, base: map<K, V>, node: K -> nat, k: K)
    requires WalInv(w, base, node) && !TouchedFrom(Window(w.run.log), 0, k)
    ensures Val(w.written, k) == Val(Flushed(base, w), k)
  {
    var log := w.run.log;
    assert KeyOk(w, base, node, k);
    if |log| > 0 {
      LogLastSeq(w.run);
      OlderUntouched(log, log[|log| - 1].lastSeq - 1, k);
    }
    if PendingTouches(w.pending, k) {
      var i :| 0 <= i < |w.pending| && w.pending[i].1.key == k;
      assert PendingOk(w, i);
    }
  }

  lemma RecoveredKey<K(!new), V(!new)>(w: Wal<K, V>, base: map<K, V>, k: K)
    requires var log := w.run.log; |log| > 0 ==> 1 <= log[|log| - 1].lastSeq <= |log|
    requires !TouchedFrom(Window(w.run.log), 0, k) ==> Val(w.written, k) == Val(Flushed(base, w), k)
    ensures Val(Recovered(w), k) == Val(Flushed(base, w), k)
  {
    var log := w.run.log;
    if |log| > 0 {
      WindowValue(w.written, base, log, log[|log| - 1].lastSeq - 1, k);
    } else {
      assert !TouchedFrom(Window(log), 0, k);
    }
  }

  /** What replaying log[n..] over any image gives for one key. */
  lemma WindowValue<K(!new), V(!new)>(image: map<K, V>, base: map<K, V>, log: seq<Record<Update<K, V>>>, n: nat, k: K)
    requires n <= |log|
    requires !TouchedFrom(log[n..], 0, k) ==> Val(image, k) == Val(ApplyRecords(base, log), k)
    ensures Val(ApplyRecords(image, log[n..]), k) == Val(ApplyRecords(base, log), k)
  {
    ApplySplit(base, log, n);
    ApplyRecordsVal(image, ApplyRecords(base, log[..n]), log[n..], k);
  }

  lemma LogLastSeq<U(!new)>(r: Run<U>)
    requires JournalInv(r) && |r.log| > 0
    ensures 1 <= r.log[|r.log| - 1].lastSeq <= |r.log| && r.log[|r.log| - 1].lastSeq <= r.j.front
  {
    var bounds :| RingInv(r.j.dev, r.log, r.j.lastSeq, bounds);
  }

  lemma OlderUntouched<K(!new), V(!new)>(log: seq<Record<Update<K, V>>>, n: nat, k: K)
    requires n <= |log| && !TouchedFrom(log[n..], 0, k)
    ensures forall i | n <= i < |log| :: !Touches(log[i].updates, k)
  {
    forall i | n <= i < |log|
      ensures !Touches(log[i].updates, k)
    {
      assert log[n..][i - n] == log[i];
    }
  }

  /** Replaying the newest record's window over the durable nodes yields the map as of the last flush. */
  lemma RecoveryIsExact<K(!new), V(!new)>(w: Wal<K, V>, base: map<K, V>, node: K -> nat)
    requires WalInv(w, base, node)
    ensures Recovered(w) == Flushed(base, w)
    ensures Recovers(w.run.j.dev, w.run.log)
  {
    if |w.run.log| > 0 {
      LogLastSeq(w.run);
    }
    forall k: K
      ensures Val(Recovered(w), k) == Val(Flushed(base, w), k)
    {
      if !TouchedFrom(Window(w.run.log), 0, k) {
        OutsideWindowIsWritten(w, base, node, k);
      }
      RecoveredKey(w, base, k);
    }
    SameValues(Recovered(w), Flushed(base, w));
    ReadKeeps(w.run);
  }

  // ----- every step keeps the invariant

  lemma WriteBackVal<K(!new), V(!new)>(written: map<K, V>, mem: map<K, V>, node: K -> nat, n: nat, k: K)
    ensures Val(WriteBack(written, mem, node, n), k) == if node(k) == n then Val(mem, k) else Val(written, k)
  {
  }

  lemma ApplyOne<K(!new), V(!new)>(m: map<K, V>, us: seq<Update<K, V>>, u: Update<K, V>)
    ensures ApplyUpdates(m, us + [u]) == ApplyUpdates(m, us)[u.key := u.val]
  {
    assert (us + [u])[..|us|] == us;
  }

  /** A pin that only moves to an older record, or starts on a record that carries the key, still protects it. */
  lemma OlderPinProtects<K(!new), V(!new)>(log: seq<Record<Update<K, V>>>, from: nat, older: nat, k: K)
    requires TouchedFrom(log, from, k) && older <= from
    ensures TouchedFrom(log, older, k)
  {
    var i :| 0 <= i < |log| && from <= i + 1 && Touches(log[i].updates, k);
  }

  /** What a step must establish besides the journal invariant. */
  ghost predicate CoreInv<K(!new), V(!new)>(w: Wal<K, V>, base: map<K, V>, node: K -> nat) {
    && |w.run.j.lists| > 0
    && (w.replaying ==> |w.open| == 0)
    && (!w.replaying ==> |w.pending| == 0)
    && (|w.pending| > 0 ==> w.run.j.lists[0].unreplayed)
    && (forall i | 0 <= i < |w.pending| :: PendingOk(w, i))
    && (forall i | 0 <= i < |w.open| :: PinOf(w.run.j.pinSeq, node(w.open[i].key)) != 0)
    && (forall k: K :: KeyOk(w, base, node, k))
  }

  lemma HeldPending<K(!new), V(!new)>(w: Wal<K, V>, w': Wal<K, V>)
    requires |w.pending| > 0 ==> |w.run.j.lists| > 0 && w.run.j.lists[0].unreplayed
    requires Held(w.run.j, w'.run.j) && w.run.log <= w'.run.log
    requires forall i | 0 <= i < |w.pending| :: PendingOk(w, i)
    requires w'.pending == w.pending
    ensures forall i | 0 <= i < |w'.pending| :: PendingOk(w', i)
    ensures |w'.pending| > 0 ==> |w'.run.j.lists| > 0 && w'.run.j.lists[0].unreplayed
  {
    forall i | 0 <= i < |w'.pending|
      ensures PendingOk(w', i)
    {
      assert PendingOk(w, i);
    }
  }

  /** Pins moved at most to older records: protection of every key survives. */
  lemma PinsOlderKeepKey<K(!new), V(!new)>(w: Wal<K, V>, w': Wal<K, V>, base: map<K, V>, node: K -> nat, k: K)
    requires KeyOk(w, base, node, k)
    requires w'.run.log == w.run.log && w'.written == w.written && w'.pending == w.pending
    requires !PendingTouches(w.pending, k) ==>
               Val(w'.mem, k) == Val(ApplyUpdates(Flushed(base, w), w'.open), k)
    requires var at, at' := PinOf(w.run.j.pinSeq, node(k)), PinOf(w'.run.j.pinSeq, node(k));
             at != 0 ==> at' != 0 && at' <= at
    ensures KeyOk(w', base, node, k)
  {
    var at, at' := PinOf(w.run.j.pinSeq, node(k)), PinOf(w'.run.j.pinSeq, node(k));
    if at != 0 && TouchedFrom(w.run.log, at, k) {
      OlderPinProtects(w.run.log, at, at', k);
    }
  }

  lemma CommitKey<K(!new), V(!new)>(w: Wal<K, V>, w': Wal<K, V>, base: map<K, V>, node: K -> nat, u: Update<K, V>, k: K)
    requires KeyOk(w, base, node, k) && |w.pending| == 0
    requires w' == w.(run := w'.run, open := w.open + [u], mem := w.mem[u.key := u.val]) && w'.run.log == w.run.log
    requires var at, at' := PinOf(w.run.j.pinSeq, node(k)), PinOf(w'.run.j.pinSeq, node(k));
             at != 0 ==> at' != 0 && at' <= at
    ensures KeyOk(w', base, node, k)
  {
    ApplyOne(Flushed(base, w), w.open, u);
    PinsOlderKeepKey(w, w', base, node, k);
  }

  /** The journal side of a commit. */
  lemma CommitPins<K(!new), V(!new)>(w: Wal<K, V>, node: K -> nat, u: Update<K, V>)
    requires JournalInv(w.run) && !w.replaying
    ensures WSafe(w, node, Commit(u))
    ensures var run := WApply(w, node, Commit(u)).run;
            && |run.j.lists| > 0 && run.log == w.run.log && Held(w.run.j, run.j)
            && forall p: nat :: PinOf(run.j.pinSeq, p)
                 == if p == node(u.key) then Oldest(PinOf(w.run.j.pinSeq, p), w.run.j.seqno)
                    else PinOf(w.run.j.pinSeq, p)
  {
    var step := AddPin(w.run.j.seqno, node(u.key));
    InvariantIsSafe(w.run, step);
    StepKeeps(w.run, step);
    PinAddEffect(w.run.j, w.run.j.seqno, node(u.key));
  }

  lemma CommitKeeps<K(!new), V(!new)>(w: Wal<K, V>, base: map<K, V>, node: K -> nat, u: Update<K, V>)
    requires WalInv(w, base, node) && !w.replaying
    ensures WSafe(w, node, Commit(u)) && CoreInv(WApply(w, node, Commit(u)), base, node)
  {
    CommitPins(w, node, u);
    var w' := WApply(w, node, Commit(u));
    forall k: K
      ensures KeyOk(w', base, node, k)
    {
      assert KeyOk(w, base, node, k);
      CommitKey(w, w', base, node, u, k);
    }
    forall i | 0 <= i < |w'.open|
      ensures PinOf(w'.run.j.pinSeq, node(w'.open[i].key)) != 0
    {
      if i < |w.open| {
        assert w'.open[i] == w.open[i];
      }
    }
  }

  lemma FlushedKey<K(!new), V(!new)>(
    w: Wal<K, V>, w': Wal<K, V>, base: map<K, V>, node: K -> nat, rec: Record<Update<K, V>>, k: K)
    requires KeyOk(w, base, node, k)
    requires w'.run.log == w.run.log + [rec] && rec.updates == w.open
    requires w'.written == w.written && w'.pending == w.pending && w'.mem == w.mem && |w'.open| == 0
    requires w'.run.j.pinSeq == w.run.j.pinSeq
    requires Touches(w.open, k) ==> |w.pending| == 0 && 0 < PinOf(w.run.j.pinSeq, node(k)) <= |w'.run.log|
    ensures KeyOk(w', base, node, k)
  {
    assert w'.run.log[..|w.run.log|] == w.run.log;
    assert Flushed(base, w') == ApplyUpdates(Flushed(base, w), w.open);
    ApplyUpdatesVal(Flushed(base, w), Flushed(base, w), w.open, k);
    var at := PinOf(w.run.j.pinSeq, node(k));
    if Touches(w.open, k) {
      assert w'.run.log[|w.run.log|] == rec;
      assert TouchedFrom(w'.run.log, at, k);
    } else if at != 0 && TouchedFrom(w.run.log, at, k) {
      var i :| 0 <= i < |w.run.log| && at <= i + 1 && Touches(w.run.log[i].updates, k);
      assert w'.run.log[i] == w.run.log[i];
    }
  }

  /** The journal side of a flush. */
  lemma FlushPins<K(!new), V(!new)>(w: Wal<K, V>, node: K -> nat, sectors: nat, fault: bool)
    requires JournalInv(w.run) && sectors >= 1 && w.run.j.seqno < JournalSeqMax
    ensures WSafe(w, node, FlushOpen(sectors, fault))
    ensures var run := WApply(w, node, FlushOpen(sectors, fault)).run;
            && |run.j.lists| > 0 && Held(w.run.j, run.j) && run.j.pinSeq == w.run.j.pinSeq
            && (run.log == w.run.log || run.log == w.run.log + [OpenRecord(w.run.j, w.open, sectors)])
            && forall p: nat :: PinOf(w.run.j.pinSeq, p) <= |w.run.log| + 1
  {
    var step := FlushEntry(w.open, sectors, fault);
    InvariantIsSafe(w.run, step);
    StepKeeps(w.run, step);
    FlushEffect(w.run.j, w.open, sectors, fault);
    PinsBounded(w.run);
  }

  lemma PinsBounded<U(!new)>(r: Run<U>)
    requires JournalInv(r)
    ensures forall p: nat :: PinOf(r.j.pinSeq, p) <= |r.log| + 1
  {
  }

  lemma FlushKey<K(!new), V(!new)>(
    w: Wal<K, V>, w': Wal<K, V>, base: map<K, V>, node: K -> nat, rec: Record<Update<K, V>>, k: K)
    requires KeyOk(w, base, node, k)
    requires w'.run.log == w.run.log || w'.run.log == w.run.log + [rec]
    requires rec.updates == w.open && w'.run.j.pinSeq == w.run.j.pinSeq
    requires w' == w.(run := w'.run, open := if |w'.run.log| > |w.run.log| then [] else w.open)
    requires |w.open| > 0 ==> |w.pending| == 0
    requires forall p: nat :: PinOf(w.run.j.pinSeq, p) <= |w.run.log| + 1
    requires forall i | 0 <= i < |w.open| :: PinOf(w.run.j.pinSeq, node(w.open[i].key)) != 0
    ensures KeyOk(w', base, node, k)
  {
    if |w'.run.log| > |w.run.log| {
      if Touches(w.open, k) {
        var i :| 0 <= i < |w.open| && w.open[i].key == k;
        assert PinOf(w.run.j.pinSeq, node(w.open[i].key)) != 0;
      }
      FlushedKey(w, w', base, node, rec, k);
    } else {
      assert w' == w.(run := w'.run);
      if !PendingTouches(w.pending, k) {
        assert Val(w'.mem, k) == Val(ApplyUpdates(Flushed(base, w), w'.open), k);
      }
      PinsOlderKeepKey(w, w', base, node, k);
    }
  }

  lemma FlushOpenKeeps<K(!new), V(!new)>(w: Wal<K, V>, base: map<K, V>, node: K -> nat, sectors: nat, fault: bool)
    requires WalInv(w, base, node) && sectors >= 1 && w.run.j.seqno < JournalSeqMax
    ensures WSafe(w, node, FlushOpen(sectors, fault))
    ensures CoreInv(WApply(w, node, FlushOpen(sectors, fault)), base, node)
  {
    FlushPins(w, node, sectors, fault);
    var w' := WApply(w, node, FlushOpen(sectors, fault));
    HeldPending(w, w');
    forall k: K
      ensures KeyOk(w', base, node, k)
    {
      assert KeyOk(w, base, node, k);
      FlushKey(w, w', base, node, OpenRecord(w.run.j, w.open, sectors), k);
    }
  }

  lemma WriteNodeKeeps<K(!new), V(!new)>(w: Wal<K, V>, base: map<K, V>, node: K -> nat, n: nat)
    requires WalInv(w, base, node) && WEnabled(w, node, WriteNode(n))
    ensures WSafe(w, node, WriteNode(n)) && CoreInv(WApply(w, node, WriteNode(n)), base, node)
  {
    InvariantIsSafe(w.run, DropPin(n));
    StepKeeps(w.run, DropPin(n));
    PinDropEffect(w.run.j, n);
    var w' := WApply(w, node, WriteNode(n));
    HeldPending(w, w');
    forall k: K
      ensures KeyOk(w', base, node, k)
    {
      assert KeyOk(w, base, node, k);
      WriteBackVal(w.written, w.mem, node, n, k);
      if node(k) == n {
        ApplyUpdatesVal(Flushed(base, w), Flushed(base, w), w.open, k);
      }
    }
  }

  lemma CheckpointWalKeeps<K(!new), V(!new)>(w: Wal<K, V>, base: map<K, V>, node: K -> nat, l: nat)
    requires WalInv(w, base, node)
    ensures WSafe(w, node, AdvanceOndiskSeq(l)) && CoreInv(WApply(w, node, AdvanceOndiskSeq(l)), base, node)
  {
    var w' := WApply(w, node, AdvanceOndiskSeq(l));
    HeldPending(w, w');
    forall k: K
      ensures KeyOk(w', base, node, k)
    {
      assert KeyOk(w, base, node, k);
      PinsOlderKeepKey(w, w', base, node, k);
    }
  }

  // ----- crash and replay

  /** The journal a restart installs: no pins, and the window's first entry unreplayed. */
  lemma CrashEffect<U(!new)>(r: Run<U>)
    requires JournalInv(r)
    ensures ReadDevice(r.j.dev).ReadOk? && ReadDevice(r.j.dev).records == Window(r.log)
    ensures var j := ReadDevice(r.j.dev).journal;
            && |j.lists| > 0 && (forall p: nat :: PinOf(j.pinSeq, p) == 0)
            && (|r.log| > 0 ==> j.front == r.log[|r.log| - 1].lastSeq && j.lists[0].unreplayed)
  {
    ReadKeeps(r);
    var bounds :| RingInv(r.j.dev, r.log, r.j.lastSeq, bounds);
    ReadIsSelect(r.j.dev, r.log, r.j.lastSeq, bounds);
    if |r.log| > 0 {
      LogLastSeq(r);
    }
  }

  lemma CrashPending<K(!new), V(!new)>(w: Wal<K, V>, w': Wal<K, V>)
    requires JournalInv(w.run) && |w.run.log| > 0 && w'.run.log == w.run.log
    requires w'.run.j.front == w.run.log[|w.run.log| - 1].lastSeq
    requires w'.pending == Flatten(Window(w.run.log))
    ensures forall i | 0 <= i < |w'.pending| :: PendingOk(w', i)
  {
    var log := w.run.log;
    LogLastSeq(w.run);
    var first := log[|log| - 1].lastSeq;
    forall i | 0 <= i < |w'.pending|
      ensures PendingOk(w', i)
    {
      var n := FlattenMember(Window(log), i);
      assert Window(log)[n] == log[first - 1 + n];
      LogSeqnos(w.run, first - 1 + n);
    }
  }

  lemma LogSeqnos<U(!new)>(r: Run<U>, i: nat)
    requires JournalInv(r) && i < |r.log|
    ensures r.log[i].seqno == i + 1
  {
    var bounds :| RingInv(r.j.dev, r.log, r.j.lastSeq, bounds);
  }

  lemma CrashKey<K(!new), V(!new)>(w: Wal<K, V>, w': Wal<K, V>, base: map<K, V>, node: K -> nat, k: K)
    requires WalInv(w, base, node) && w'.run.log == w.run.log
    requires w'.written == w.written == w'.mem && |w'.open| == 0
    requires w'.pending == Flatten(Window(w.run.log))
    ensures KeyOk(w', base, node, k)
  {
    FlattenTouches(Window(w.run.log), k);
    FlattenApplies(map[], Window(w.run.log));
    if PendingTouches(w'.pending, k) {
      ApplyRecordsVal(map[], w.written, Window(w.run.log), k);
      RecoveryIsExact(w, base, node);
    } else {
      OutsideWindowIsWritten(w, base, node, k);
    }
  }

  lemma CrashWalKeeps<K(!new), V(!new)>(w: Wal<K, V>, base: map<K, V>, node: K -> nat)
    requires WalInv(w, base, node)
    ensures WSafe(w, node, CrashAndRead) && CoreInv(WApply(w, node, CrashAndRead), base, node)
  {
    CrashEffect(w.run);
    var w' := WApply(w, node, CrashAndRead);
    if |w.run.log| > 0 {
      CrashPending(w, w');
    }
    forall k: K
      ensures KeyOk(w', base, node, k)
    {
      CrashKey(w, w', base, node, k);
    }
  }

  lemma ReplayKeyKeepsKey<K(!new), V(!new)>(w: Wal<K, V>, w': Wal<K, V>, base: map<K, V>, node: K -> nat, k: K)
    requires KeyOk(w, base, node, k) && |w.pending| > 0 && |w.open| == 0 && PendingOk(w, 0)
    requires var (s, u) := w.pending[0];
             && w'.run.log == w.run.log && w'.written == w.written && w'.open == w.open
             && w'.mem == w.mem[u.key := u.val] && w'.pending == w.pending[1..]
             && (forall p: nat :: PinOf(w'.run.j.pinSeq, p)
                   == if p == node(u.key) then Oldest(PinOf(w.run.j.pinSeq, p), s) else PinOf(w.run.j.pinSeq, p))
    ensures KeyOk(w', base, node, k)
  {
    var (s, u) := w.pending[0];
    var at, at' := PinOf(w.run.j.pinSeq, node(k)), PinOf(w'.run.j.pinSeq, node(k));
    if PendingTouches(w'.pending, k) {
      var i :| 0 <= i < |w'.pending| && w'.pending[i].1.key == k;
      assert w.pending[i + 1].1.key == k;
      PendingVal(map[u.key := u.val], map[], w'.pending, k);
    } else if k == u.key {
      assert PendingTouches(w.pending, k);
      PendingVal(map[u.key := u.val], map[], w'.pending, k);
      OlderTouch(w.run.log, s, at', k);
    } else {
      PendingRest(w.pending, k);
      if at != 0 && TouchedFrom(w.run.log, at, k) {
        OlderPinProtects(w.run.log, at, at', k);
      }
    }
  }

  lemma PendingRest<K(!new), V(!new)>(ps: seq<(nat, Update<K, V>)>, k: K)
    requires |ps| > 0 && ps[0].1.key != k
    ensures PendingTouches(ps, k) ==> PendingTouches(ps[1..], k)
  {
    if PendingTouches(ps, k) {
      var i :| 0 <= i < |ps| && ps[i].1.key == k;
      assert ps[1..][i - 1].1.key == k;
    }
  }

  lemma OlderTouch<K(!new), V(!new)>(log: seq<Record<Update<K, V>>>, s: nat, at: nat, k: K)
    requires 1 <= s <= |log| && Touches(log[s - 1].updates, k) && at <= s
    ensures TouchedFrom(log, at, k)
  {
  }

  lemma ReplayKeyKeeps<K(!new), V(!new)>(w: Wal<K, V>, base: map<K, V>, node: K -> nat)
    requires WalInv(w, base, node) && WEnabled(w, node, ReplayKey)
    ensures WSafe(w, node, ReplayKey) && CoreInv(WApply(w, node, ReplayKey), base, node)
  {
    assert PendingOk(w, 0);
    var (s, u) := w.pending[0];
    InvariantIsSafe(w.run, AddPin(s, node(u.key)));
    StepKeeps(w.run, AddPin(s, node(u.key)));
    PinAddEffect(w.run.j, s, node(u.key));
    var w' := WApply(w, node, ReplayKey);
    forall k: K
      ensures KeyOk(w', base, node, k)
    {
      assert KeyOk(w, base, node, k);
      ReplayKeyKeepsKey(w, w', base, node, k);
    }
    forall i | 0 <= i < |w'.pending|
      ensures PendingOk(w', i)
    {
      assert PendingOk(w, i + 1);
    }
  }

  lemma FinishReplayKeeps<K(!new), V(!new)>(w: Wal<K, V>, base: map<K, V>, node: K -> nat)
    requires WalInv(w, base, node) && WEnabled(w, node, FinishReplay)
    ensures WSafe(w, node, FinishReplay) && CoreInv(WApply(w, node, FinishReplay), base, node)
    ensures WApply(w, node, FinishReplay).mem == Flushed(base, w)
  {
    var step := ReplayDone(w.run.j.seqno);
    InvariantIsSafe(w.run, step);
    StepKeeps(w.run, step);
    ReplayPinsPutKeeps(w.run.j, w.run.j.seqno);
    var w' := WApply(w, node, FinishReplay);
    forall k: K
      ensures KeyOk(w', base, node, k)
      ensures Val(w'.mem, k) == Val(Flushed(base, w), k)
    {
      assert KeyOk(w, base, node, k);
      PinsOlderKeepKey(w, w', base, node, k);
    }
    SameValues(w'.mem, Flushed(base, w));
  }

  // ----- runs

  lemma WStepKeeps<K(!new), V(!new)>(w: Wal<K, V>, base: map<K, V>, node: K -> nat, s: WStep<K, V>)
    requires WalInv(w, base, node) && WEnabled(w, node, s)
    ensures WSafe(w, node, s) && WalInv(WApply(w, node, s), base, node)
  {
    match s {
      case Commit(u) => CommitKeeps(w, base, node, u);
      case FlushOpen(sectors, fault) => FlushOpenKeeps(w, base, node, sectors, fault);
      case WriteNode(n) => WriteNodeKeeps(w, base, node, n);
      case AdvanceOndiskSeq(l) => CheckpointWalKeeps(w, base, node, l);
      case CrashAndRead => CrashWalKeeps(w, base, node);
      case ReplayKey => ReplayKeyKeeps(w, base, node);
      case FinishReplay => FinishReplayKeeps(w, base, node);
    }
    StepKeeps(w.run, JournalStep(w, node, s));
    assert WApply(w, node, s).run == Apply(w.run, JournalStep(w, node, s));
  }

  /** A new file system: an empty journal over arbitrary node images. */
  ghost predicate WInitial<K(!new), V(!new)>(w: Wal<K, V>, base: map<K, V>, nr: nat, bucketSize: nat) {
    Formatted(w.run, nr, bucketSize) && w == Wal(w.run, [], base, base, false, [])
  }

  lemma InitialInv<K(!new), V(!new)>(base: map<K, V>, node: K -> nat, nr: nat, bucketSize: nat, w: Wal<K, V>)
    requires WInitial(w, base, nr, bucketSize)
    ensures WalInv(w, base, node)
  {
    FormattedKeeps(w.run, nr, bucketSize);
    forall k: K
      ensures KeyOk(w, base, node, k)
    {
      assert !PendingTouches(w.pending, k);
    }
  }

  ghost predicate WLeads<K(!new), V(!new)>(w0: Wal<K, V>, node: K -> nat, ss: seq<WStep<K, V>>, w: Wal<K, V>)
    decreases |ss|
  {
    if |ss| == 0 then w == w0
    else WSafe(w0, node, ss[0]) && WLeads(WApply(w0, node, ss[0]), node, ss[1..], w)
  }

  lemma {:induction false} WRunsKeepInvariant<K(!new), V(!new)>(
    w0: Wal<K, V>, base: map<K, V>, node: K -> nat, ss: seq<WStep<K, V>>, w: Wal<K, V>)
    requires WalInv(w0, base, node) && WLeads(w0, node, ss, w)
    ensures WalInv(w, base, node)
    decreases |ss|
  {
    if |ss| > 0 {
      WStepKeeps(w0, base, node, ss[0]);
      WRunsKeepInvariant(WApply(w0, node, ss[0]), base, node, ss[1..], w);
    }
  }

  /**
   Write-ahead recovery over every run of commits, flushes, node writes, checkpoints,
   crashes and (possibly interrupted) replays: what the device alone reconstructs is the
   map as of the last flush, and every enabled step is safe.
   */
  lemma WriteAheadRecovery<K(!new), V(!new)>(
    base: map<K, V>, node: K -> nat, nr: nat, bucketSize: nat,
    w0: Wal<K, V>, ss: seq<WStep<K, V>>, w: Wal<K, V>, s: WStep<K, V>)
    requires WInitial(w0, base, nr, bucketSize) && WLeads(w0, node, ss, w)
    ensures Recovered(w) == Flushed(base, w) && Recovers(w.run.j.dev, w.run.log)
    ensures WEnabled(w, node, s) ==> WSafe(w, node, s)
  {
    InitialInv(base, node, nr, bucketSize, w0);
    WRunsKeepInvariant(w0, base, node, ss, w);
    RecoveryIsExact(w, base, node);
    if WEnabled(w, node, s) {
      WStepKeeps(w, base, node, s);
    }
  }

  lemma MemIsFlushed<K(!new), V(!new)>(w: Wal<K, V>, base: map<K, V>, node: K -> nat)
    requires WalInv(w, base, node) && |w.pending| == 0 && |w.open| == 0
    ensures w.mem == Flushed(base, w)
  {
    forall k: K
      ensures Val(w.mem, k) == Val(Flushed(base, w), k)
    {
      assert KeyOk(w, base, node, k);
      assert !PendingTouches(w.pending, k);
    }
    SameValues(w.mem, Flushed(base, w));
  }

  /** A successful flush makes the map in memory the recoverable one; a failed one changes nothing. */
  lemma FlushCommits<K(!new), V(!new)>(w: Wal<K, V>, base: map<K, V>, node: K -> nat, sectors: nat, fault: bool)
    requires WalInv(w, base, node) && !w.replaying && WEnabled(w, node, FlushOpen(sectors, fault))
    ensures WSafe(w, node, FlushOpen(sectors, fault))
    ensures var w' := WApply(w, node, FlushOpen(sectors, fault));
            Recovered(w') == if |w'.run.log| > |w.run.log| then w.mem else Recovered(w)
  {
    WStepKeeps(w, base, node, FlushOpen(sectors, fault));
    var w' := WApply(w, node, FlushOpen(sectors, fault));
    FlushPins(w, node, sectors, fault);
    if |w'.run.log| > |w.run.log| {
      RecoveredIsMem(w', base, node);
    }
  }

  lemma RecoveredIsMem<K(!new), V(!new)>(w: Wal<K, V>, base: map<K, V>, node: K -> nat)
    requires WalInv(w, base, node) && |w.pending| == 0 && |w.open| == 0
    ensures Recovered(w) == w.mem
  {
    RecoveryIsExact(w, base, node);
    MemIsFlushed(w, base, node);
  }

  /**
   Why a node may only be written when it holds nothing unflushed: without that guard,
   recovery stays exact if and only if every key of the node is carried by the newest
   record's window or has no unflushed change.
   */
  lemma UnguardedWriteBack<K(!new), V(!new)>(w: Wal<K, V>, base: map<K, V>, node: K -> nat, n: nat)
    requires WalInv(w, base, node)
    ensures Recovered(w.(written := WriteBack(w.written, w.mem, node, n))) == Flushed(base, w)
       <==> forall k: K | node(k) == n ::
              TouchedFrom(Window(w.run.log), 0, k) || Val(w.mem, k) == Val(Flushed(base, w), k)
  {
    var w' := w.(written := WriteBack(w.written, w.mem, node, n));
    forall k: K
      ensures Val(Recovered(w'), k) == Val(Flushed(base, w), k)
         <==> node(k) != n || TouchedFrom(Window(w.run.log), 0, k) || Val(w.mem, k) == Val(Flushed(base, w), k)
    {
      RecoveryIsExact(w, base, node);
      WriteBackVal(w.written, w.mem, node, n, k);
      ApplyRecordsVal(w'.written, w.written, Window(w.run.log), k);
      if node(k) != n && !TouchedFrom(Window(w.run.log), 0, k) {
        OutsideWindowIsWritten(w, base, node, k);
      }
    }
    if forall k: K :: Val(Recovered(w'), k) == Val(Flushed(base, w), k) {
      SameValues(Recovered(w'), Flushed(base, w));
    }
  }

  /**
   On every new file system one commit that changes a value, followed by an unguarded write of
   its node, makes recovery wrong: an update that was never flushed comes back.
   */
  lemma UnguardedBreaks<K(!new), V(!new)>(
    base: map<K, V>, node: K -> nat, nr: nat, bucketSize: nat, w0: Wal<K, V>, u: Update<K, V>) returns (w: Wal<K, V>)
    requires WInitial(w0, base, nr, bucketSize) && Val(base, u.key) != Some(u.val)
    ensures WLeads(w0, node, [Commit(u)], w)
    ensures Recovered(w.(written := WriteBack(w.written, w.mem, node, node(u.key)))) != Flushed(base, w)
  {
    w := FirstCommit(base, node, nr, bucketSize, w0, u);
    UnguardedWriteBack(w, base, node, node(u.key));
    assert !TouchedFrom(Window(w.run.log), 0, u.key);
  }

  /** The state after one commit: nothing is flushed and memory has the new value. */
  lemma FirstCommit<K(!new), V(!new)>(
    base: map<K, V>, node: K -> nat, nr: nat, bucketSize: nat, w0: Wal<K, V>, u: Update<K, V>) returns (w: Wal<K, V>)
    requires WInitial(w0, base, nr, bucketSize)
    ensures WLeads(w0, node, [Commit(u)], w) && WalInv(w, base, node)
    ensures |w.run.log| == 0 && Flushed(base, w) == base && Val(w.mem, u.key) == Some(u.val)
  {
    InitialInv(base, node, nr, bucketSize, w0);
    WStepKeeps(w0, base, node, Commit(u));
    w := WApply(w0, node, Commit(u));
    assert [Commit(u)][1..] == [] && WLeads(w, node, [], w);
  }
}
