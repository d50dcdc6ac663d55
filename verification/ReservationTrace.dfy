/**
 What a flushed entry carries, over whole runs: a plain account of reservations, each the list of
 words added to it, says which payloads are flushed, and the buffers under the packed word agree.
 */
module ReservationTrace {
  import opened StateWord
  import opened Reservations

  /** A reservation as its holder sees it: what was added to it, and its size. */
  datatype Res = Res(added: seq<nat>, size: nat, held: bool)

  /** The reservations of the open entry, its capacity, and the payloads flushed so far. */
  datatype Account = Account(open: seq<Res>, cap: nat, flushed: seq<seq<nat>>)

  /** A reservation's words in the flushed entry: those added, and empty entries to fill it up. */
  function Filled(r: Res): seq<nat> { if |r.added| <= r.size then r.added + Zeros(r.size - |r.added|) else r.added }

  /** The first `n` reservations' words, one after the other. */
  function Payload(rs: seq<Res>, n: nat): seq<nat>
    requires n <= |rs|
  {
    if n == 0 then [] else Payload(rs, n - 1) + Filled(rs[n - 1])
  }

  function Sizes(rs: seq<Res>, n: nat): nat
    requires n <= |rs|
  {
    if n == 0 then 0 else Sizes(rs, n - 1) + rs[n - 1].size
  }

  function HeldRes(rs: seq<Res>, n: nat): nat
    requires n <= |rs|
  {
    if n == 0 then 0 else HeldRes(rs, n - 1) + if rs[n - 1].held then 1 else 0
  }

  /** One step of the account. */
  function Note(a: Account, step: ResStep): Account {
    match step
    case Get(u64s, admitted) =>
      if admitted && Sizes(a.open, |a.open|) + u64s <= a.cap && 1 + HeldRes(a.open, |a.open|) < CountMax then
        a.(open := a.open + [Res([], u64s, true)])
      else a
    case Add(i, header, payload) =>
      if i < |a.open| then a.(open := a.open[i := a.open[i].(added := a.open[i].added + [header] + payload)]) else a
    case Put(i) =>
      if i < |a.open| then a.(open := a.open[i := a.open[i].(held := false)]) else a
    case FlushTry(cap) =>
      if HeldRes(a.open, |a.open|) > 0 then a
      else Account([], cap, a.flushed + [Payload(a.open, |a.open|)])
  }

  function NoteAll(a: Account, steps: seq<ResStep>): Account
    decreases |steps|
  {
    if |steps| == 0 then a else NoteAll(Note(a, steps[0]), steps[1..])
  }

  /** The payloads the journal itself flushes along a run. */
  ghost function Payloads(s: ResState, steps: seq<ResStep>): seq<seq<nat>>
    requires ResInv(s)
    decreases |steps|
  {
    if |steps| == 0 || !ResEnabled(s, steps[0]) then []
    else PayloadOf(s, steps[0]) + Payloads(ResApply(s, steps[0]), steps[1..])
  }

  ghost function PayloadOf(s: ResState, step: ResStep): seq<seq<nat>>
    requires ResInv(s) && ResEnabled(s, step)
  {
    if !step.FlushTry? then []
    else
      FlushTakesWholeEntries(s, step.cap);
      var out := FlushOpenEntry(s, step.cap);
      if out.Flushed? then [out.payload] else []
  }

  // ----- the journal's reservations are the account's

  predicate Matches(c: Chunk, r: Res) {
    && c.held == r.held && |c.written| + c.room == r.size && |r.added| <= r.size
    && c.written == if r.held then r.added else Filled(r)
  }

  ghost predicate Tracks(s: ResState, a: Account) {
    && |a.open| == |s.chunks| && a.cap == s.cap
    && forall i | 0 <= i < |a.open| :: Matches(s.chunks[i], a.open[i])
  }

  lemma {:induction false} TracksSums(s: ResState, a: Account, n: nat)
    requires Tracks(s, a) && n <= |a.open| && Contiguous(s.chunks)
    ensures Sizes(a.open, n) == if n == 0 then 0 else s.chunks[n - 1].End()
    ensures HeldRes(a.open, n) == HeldIn(s.chunks, n)
  {
    if n > 0 {
      TracksSums(s, a, n - 1);
      assert Follows(s.chunks, n - 1);
      MatchSize(s.chunks[n - 1], a.open[n - 1]);
    }
  }

  lemma MatchSize(c: Chunk, r: Res)
    requires Matches(c, r)
    ensures c.End() == c.start + r.size && c.held == r.held && (!c.held ==> c.written == Filled(r))
  {
  }

  lemma TracksAll(s: ResState, a: Account)
    requires Tracks(s, a) && ResInv(s)
    ensures Sizes(a.open, |a.open|) == EndOf(s.chunks) && HeldRes(a.open, |a.open|) == Held(s.chunks)
  {
    TracksSums(s, a, |a.open|);
  }

  lemma PayloadIsWritten(s: ResState, a: Account)
    requires Tracks(s, a) && Held(s.chunks) == 0
    ensures Payload(a.open, |a.open|) == WrittenBy(s.chunks, |s.chunks|)
  {
    forall i | 0 <= i < |a.open|
      ensures s.chunks[i].written == Filled(a.open[i])
    {
      HeldZero(s.chunks, |s.chunks|, i);
      MatchSize(s.chunks[i], a.open[i]);
    }
    PayloadSame(a.open, s.chunks, |a.open|);
  }

  lemma {:induction false} PayloadSame(rs: seq<Res>, chunks: seq<Chunk>, n: nat)
    requires n <= |rs| == |chunks| && forall i | 0 <= i < |rs| :: chunks[i].written == Filled(rs[i])
    ensures Payload(rs, n) == WrittenBy(chunks, n)
  {
    if n > 0 {
      PayloadSame(rs, chunks, n - 1);
    }
  }

  lemma StepTracks(s: ResState, a: Account, step: ResStep)
    requires ResInv(s) && Tracks(s, a) && ResEnabled(s, step)
    ensures Tracks(ResApply(s, step), Note(a, step))
    ensures Note(a, step).flushed == a.flushed + PayloadOf(s, step)
  {
    TracksAll(s, a);
    match step
    case Get(u64s, admitted) => GetTracks(s, a, u64s, admitted);
    case Add(i, header, payload) => AddStep(s, a, i, header, payload);
    case Put(i) => PutStep(s, a, i);
    case FlushTry(cap) => FlushTracks(s, a, cap);
  }

  lemma AddStep(s: ResState, a: Account, i: nat, header: nat, payload: seq<nat>)
    requires ResInv(s) && Tracks(s, a) && ResEnabled(s, Add(i, header, payload))
    ensures Tracks(ResApply(s, Add(i, header, payload)), Note(a, Add(i, header, payload)))
  {
    AddEntryKeeps(s, i, header, payload);
    AddTracks(s, AddEntry(s, i, header, payload), a, i, [header] + payload);
    assert a.open[i].added + [header] + payload == a.open[i].added + ([header] + payload);
  }

  lemma PutStep(s: ResState, a: Account, i: nat)
    requires ResInv(s) && Tracks(s, a) && ResEnabled(s, Put(i))
    ensures Tracks(ResApply(s, Put(i)), Note(a, Put(i)))
  {
    ResPutKeeps(s, i);
    PutTracks(s, ResPut(s, i), a, i);
  }

  lemma FlushTracks(s: ResState, a: Account, cap: nat)
    requires ResInv(s) && Tracks(s, a) && ResEnabled(s, FlushTry(cap))
    requires HeldRes(a.open, |a.open|) == Held(s.chunks)
    ensures Tracks(ResApply(s, FlushTry(cap)), Note(a, FlushTry(cap)))
    ensures Note(a, FlushTry(cap)).flushed == a.flushed + PayloadOf(s, FlushTry(cap))
  {
    FlushTakesWholeEntries(s, cap);
    if Held(s.chunks) == 0 {
      PayloadIsWritten(s, a);
    }
  }

  lemma GetTracks(s: ResState, a: Account, u64s: nat, admitted: bool)
    requires ResInv(s) && Tracks(s, a)
    requires Sizes(a.open, |a.open|) == EndOf(s.chunks) && HeldRes(a.open, |a.open|) == Held(s.chunks)
    ensures Tracks(ResGet(s, u64s, admitted).1, Note(a, Get(u64s, admitted)))
  {
    ResGetKeeps(s, u64s, admitted);
    if ResGet(s, u64s, admitted).0 {
      GrantTracks(s, ResGet(s, u64s, admitted).1, a, u64s);
    }
  }

  lemma GrantTracks(s: ResState, s': ResState, a: Account, u64s: nat)
    requires |s.ring| == Slots && Tracks(s, a) && Granted(s, s', u64s)
    ensures Tracks(s', a.(open := a.open + [Res([], u64s, true)]))
  {
    var rs := a.open + [Res([], u64s, true)];
    forall i | 0 <= i < |rs|
      ensures Matches(s'.chunks[i], rs[i])
    {
      if i < |s.chunks| {
        assert s'.chunks[i] == s'.chunks[..|s.chunks|][i] == s.chunks[i] && Matches(s.chunks[i], a.open[i]);
      }
    }
  }

  lemma AddTracks(s: ResState, s': ResState, a: Account, i: nat, words: seq<nat>)
    requires |s.ring| == Slots && Tracks(s, a) && i < |s.chunks| && s.chunks[i].held && Added(s, s', i, words)
    ensures Tracks(s', a.(open := a.open[i := a.open[i].(added := a.open[i].added + words)]))
  {
    var rs := a.open[i := a.open[i].(added := a.open[i].added + words)];
    forall k | 0 <= k < |rs|
      ensures Matches(s'.chunks[k], rs[k])
    {
      assert Matches(s.chunks[k], a.open[k]);
    }
  }

  lemma PutTracks(s: ResState, s': ResState, a: Account, i: nat)
    requires |s.ring| == Slots && Tracks(s, a) && i < |s.chunks| && s.chunks[i].held && Returned(s, s', i)
    ensures Tracks(s', a.(open := a.open[i := a.open[i].(held := false)]))
  {
    var rs := a.open[i := a.open[i].(held := false)];
    forall k | 0 <= k < |rs|
      ensures Matches(s'.chunks[k], rs[k])
    {
      assert Matches(s.chunks[k], a.open[k]);
    }
  }

  lemma {:induction false} RunTracks(s0: ResState, steps: seq<ResStep>, s: ResState, a: Account)
    requires ResInv(s0) && ResLeads(s0, steps, s) && Tracks(s0, a)
    ensures Tracks(s, NoteAll(a, steps)) && NoteAll(a, steps).flushed == a.flushed + Payloads(s0, steps)
    decreases |steps|
  {
    if |steps| > 0 {
      StepTracks(s0, a, steps[0]);
      RunTracks(ResApply(s0, steps[0]), steps[1..], s, Note(a, steps[0]));
    }
  }

  /**
   Over every run from a new journal, the payloads flushed are exactly those of the account: of each
   reservation, in the order in which they were granted, the entries added to it and the padding.
   */
  lemma PayloadsAreAdded(cap: nat, steps: seq<ResStep>, s: ResState)
    requires cap <= BufferU64s && ResReaches(cap, steps, s)
    ensures ResInv(FreshJournal(cap))
    ensures Payloads(FreshJournal(cap), steps) == NoteAll(Account([], cap, []), steps).flushed
    ensures Tracks(s, NoteAll(Account([], cap, []), steps))
  {
    FreshJournalKeeps(cap);
    RunTracks(FreshJournal(cap), steps, s, Account([], cap, []));
  }
}
