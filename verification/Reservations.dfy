/**
 Journal reservations: the four-slot buffer ring and the jset entries that reservations
 write into the open slot, under the packed word of `StateWord`.
 */
module Reservations {
  import opened StateWord

  const OffsetLimit: nat := 0x40_0000
  const Slots: nat := 4
  const JsetHeaderU64s: nat := 7
  const BufferU64s: nat := 0x2_0000

  // ----- jset entries

  /** The low 16 bits of an entry's first word say how many payload words follow it. */
  function EntryU64s(header: nat): nat { header % 0x1_0000 }

  /** The words are exactly a sequence of jset entries. */
  predicate Tiled(words: seq<nat>)
    decreases |words|
  {
    |words| == 0 || (1 + EntryU64s(words[0]) <= |words| && Tiled(words[1 + EntryU64s(words[0])..]))
  }

  lemma {:induction false} TiledConcat(a: seq<nat>, b: seq<nat>)
    requires Tiled(a) && Tiled(b)
    ensures Tiled(a + b)
    decreases |a|
  {
    if |a| == 0 {
      assert a + b == b;
    } else {
      var n := 1 + EntryU64s(a[0]);
      TiledConcat(a[n..], b);
      assert (a + b)[n..] == a[n..] + b;
      TiledRest(a + b, n);
    }
  }

  lemma TiledRest(words: seq<nat>, n: nat)
    requires |words| > 0 && n == 1 + EntryU64s(words[0]) <= |words| && Tiled(words[n..])
    ensures Tiled(words)
  {
  }

  lemma TiledEntry(words: seq<nat>)
    requires |words| > 0 && |words| == 1 + EntryU64s(words[0])
    ensures Tiled(words)
  {
    assert words[1 + EntryU64s(words[0])..] == [];
  }

  function Zeros(n: nat): (z: seq<nat>)
    ensures |z| == n && forall i | 0 <= i < n :: z[i] == 0
  {
    seq(n, _ => 0)
  }

  lemma {:induction false} ZerosTiled(n: nat)
    ensures Tiled(Zeros(n))
  {
    if n > 0 {
      ZerosTiled(n - 1);
      assert Zeros(n)[1..] == Zeros(n - 1);
    }
  }

  // ----- reservations

  /** One reservation of the open entry: where it starts, what it wrote, the room left, whether it is held. */
  datatype Chunk = Chunk(start: nat, written: seq<nat>, room: nat, held: bool)
  {
    function Cursor(): nat { start + |written| }
    function End(): nat { start + |written| + room }
  }

  /** `cap` is cur_entry_u64s; `ring` are the four buffers. */
  datatype ResState = ResState(word: nat, seqno: nat, cap: nat, ring: seq<seq<nat>>, chunks: seq<Chunk>)

  /** Where the next reservation will start. */
  function EndOf(chunks: seq<Chunk>): nat {
    if |chunks| == 0 then 0 else chunks[|chunks| - 1].End()
  }

  /** How many of the first `n` reservations are held. */
  function HeldIn(chunks: seq<Chunk>, n: nat): nat
    requires n <= |chunks|
  {
    if n == 0 then 0 else HeldIn(chunks, n - 1) + if chunks[n - 1].held then 1 else 0
  }

  function Held(chunks: seq<Chunk>): nat { HeldIn(chunks, |chunks|) }

  /** What the first `n` reservations wrote, in order. */
  function WrittenBy(chunks: seq<Chunk>, n: nat): seq<nat>
    requires n <= |chunks|
  {
    if n == 0 then [] else WrittenBy(chunks, n - 1) + chunks[n - 1].written
  }

  /** Reservations follow one another without gaps. */
  ghost predicate Contiguous(chunks: seq<Chunk>) {
    forall i | 0 <= i < |chunks| :: Follows(chunks, i)
  }

  ghost predicate Follows(chunks: seq<Chunk>, i: nat)
    requires i < |chunks|
  {
    chunks[i].start == if i == 0 then 0 else chunks[i - 1].End()
  }

  /** Its words are in the buffer, and only a held reservation has room left. */
  ghost predicate ChunkOk(c: Chunk, data: seq<nat>) {
    && c.End() <= |data|
    && data[c.start..c.Cursor()] == c.written
    && (!c.held ==> c.room == 0)
  }

  ghost predicate Layout(chunks: seq<Chunk>, data: seq<nat>) {
    && Contiguous(chunks)
    && forall i | 0 <= i < |chunks| :: ChunkOk(chunks[i], data)
  }

  /** Every reservation wrote whole jset entries. */
  ghost predicate AllTiled(chunks: seq<Chunk>) {
    forall i | 0 <= i < |chunks| :: Tiled(chunks[i].written)
  }

  /** Only the open slot counts anything: itself and the held reservations. */
  function OpenCounts(idx: nat, n: nat): Counts
    requires idx < 4
  {
    NoCounts.With(idx, n)
  }

  lemma OpenCountsUpdate(idx: nat, n: nat, m: nat)
    requires idx < 4
    ensures OpenCounts(idx, n).At(idx) == n && OpenCounts(idx, n).With(idx, m) == OpenCounts(idx, m)
    ensures OpenCounts(idx, 0) == NoCounts
  {
  }

  ghost predicate WordOk(word: nat, idx: nat, offset: nat, held: nat) {
    && idx < 4 && held < CountMax
    && WordIs(word, offset, idx, OpenCounts(idx, 1 + held))
  }

  function Open(s: ResState): seq<nat>
    requires |s.ring| == Slots
  {
    s.ring[s.seqno % Slots]
  }

  ghost predicate ResInv(s: ResState) {
    && |s.ring| == Slots && (forall i | 0 <= i < Slots :: |s.ring[i]| == |Open(s)|)
    && EndOf(s.chunks) <= s.cap <= |Open(s)| && s.cap < OffsetLimit
    && WordOk(s.word, s.seqno % Slots, EndOf(s.chunks), Held(s.chunks))
    && Layout(s.chunks, Open(s)) && AllTiled(s.chunks)
  }

  /** What the word says in such a state. */
  lemma WordSays(s: ResState)
    requires ResInv(s)
    ensures StateOffset(s.word) == EndOf(s.chunks)
    ensures StateIdx(s.word) == s.seqno % Slots
    ensures StateCount(s.word, s.seqno % Slots) == 1 + Held(s.chunks)
    ensures forall i | 0 <= i < Slots && i != s.seqno % Slots :: StateCount(s.word, i) == 0
  {
    var idx := s.seqno % Slots;
    var counts := OpenCounts(idx, 1 + Held(s.chunks));
    UnpackOffset(s.word, EndOf(s.chunks), idx, counts);
    forall i | 0 <= i < Slots
      ensures StateCount(s.word, i) == counts.At(i)
    {
      UnpackCount(s.word, EndOf(s.chunks), idx, counts, i);
    }
  }

  // ----- the operations

  /** journal_res_get_fast(); `admitted` is the watermark test. */
  function ResGet(s: ResState, u64s: nat, admitted: bool): (bool, ResState)
    requires |s.ring| == Slots
  {
    var idx, offset := StateIdx(s.word), StateOffset(s.word);
    if offset + u64s > s.cap || !admitted || StateCount(s.word, idx) == CountMax then (false, s)
    else
      (true, s.(word := StateSetOffset(StateInc(s.word, idx), offset + u64s),
                chunks := s.chunks + [Chunk(offset, [], u64s, true)]))
  }

  function Splice(data: seq<nat>, at: nat, words: seq<nat>): (r: seq<nat>)
    requires at + |words| <= |data|
    ensures |r| == |data|
  {
    data[..at] + words + data[at + |words|..]
  }

  function Extend(c: Chunk, words: seq<nat>): Chunk
    requires |words| <= c.room
  {
    c.(written := c.written + words, room := c.room - |words|)
  }

  /** Writes words at a reservation's cursor. */
  function WriteAt(s: ResState, i: nat, words: seq<nat>): ResState
    requires |s.ring| == Slots && i < |s.chunks| && |words| <= s.chunks[i].room && s.chunks[i].End() <= |Open(s)|
  {
    s.(ring := s.ring[s.seqno % Slots := Splice(Open(s), s.chunks[i].Cursor(), words)],
       chunks := s.chunks[i := Extend(s.chunks[i], words)])
  }

  /** bch2_journal_add_entry() with its payload filled in. */
  function AddEntry(s: ResState, i: nat, header: nat, payload: seq<nat>): ResState
    requires |s.ring| == Slots && i < |s.chunks| && 1 + |payload| <= s.chunks[i].room && s.chunks[i].End() <= |Open(s)|
  {
    WriteAt(s, i, [header] + payload)
  }

  /** Gives a reservation's count back. */
  function Release(s: ResState, i: nat): ResState
    requires |s.ring| == Slots && i < |s.chunks| && StateDec(s.word, s.seqno % Slots) >= 0
  {
    s.(word := StateDec(s.word, s.seqno % Slots), chunks := s.chunks[i := s.chunks[i].(held := false)])
  }

  /** bch2_journal_res_put(): the rest becomes empty entries and the slot's count drops. */
  function ResPut(s: ResState, i: nat): ResState
    requires |s.ring| == Slots && i < |s.chunks| && s.chunks[i].End() <= |Open(s)|
    requires StateDec(s.word, s.seqno % Slots) >= 0
  {
    Release(WriteAt(s, i, Zeros(s.chunks[i].room)), i)
  }

  datatype FlushOutcome = Busy | SlotBusy | Flushed(payload: seq<nat>, next: ResState)

  /** The reservation side of bch2_journal_flush(): the payload copied and the next slot opened. */
  function FlushOpenEntry(s: ResState, cap: nat): FlushOutcome
    requires |s.ring| == Slots && StateOffset(s.word) <= |s.ring[StateIdx(s.word)]|
    requires StateDec(s.word, StateIdx(s.word)) >= 0
  {
    var idx := StateIdx(s.word);
    if StateCount(s.word, idx) != 1 then Busy
    else
      var next := (s.seqno + 1) % Slots;
      if StateCount(s.word, next) != 0 then SlotBusy
      else Flushed(s.ring[idx][..StateOffset(s.word)], OpenSlot(s, cap))
  }

  function OpenSlot(s: ResState, cap: nat): ResState
    requires |s.ring| == Slots && StateDec(s.word, StateIdx(s.word)) >= 0
  {
    var next := (s.seqno + 1) % Slots;
    NextSlot(s, NextWord(s.word, StateIdx(s.word), next), cap)
  }

  /** The word with the count of slot `idx` given back and slot `next` open and empty. */
  function NextWord(word: nat, idx: nat, next: nat): nat
    requires idx < 4 && next < 4 && StateDec(word, idx) >= 0
  {
    StateInc(StateSetOffset(StateSetIdx(StateDec(word, idx), next), 0), next)
  }

  /** The next slot cleared and open, under the given word. */
  function NextSlot(s: ResState, word: nat, cap: nat): ResState
    requires |s.ring| == Slots
  {
    var next := (s.seqno + 1) % Slots;
    ResState(word, s.seqno + 1, cap, s.ring[next := Zeros(|s.ring[next]|)], [])
  }

  // ----- counting

  lemma {:induction false} HeldUpdateIn(chunks: seq<Chunk>, i: nat, c: Chunk, n: nat)
    requires i < |chunks| && n <= |chunks|
    ensures HeldIn(chunks[i := c], n) + (if i < n && chunks[i].held then 1 else 0)
         == HeldIn(chunks, n) + if i < n && c.held then 1 else 0
  {
    if n > 0 {
      HeldUpdateIn(chunks, i, c, n - 1);
    }
  }

  lemma HeldUpdate(chunks: seq<Chunk>, i: nat, c: Chunk)
    requires i < |chunks|
    ensures Held(chunks[i := c]) + (if chunks[i].held then 1 else 0) == Held(chunks) + if c.held then 1 else 0
  {
    HeldUpdateIn(chunks, i, c, |chunks|);
  }

  lemma {:induction false} HeldPrefix(a: seq<Chunk>, b: seq<Chunk>, n: nat)
    requires n <= |a| && n <= |b| && forall k | 0 <= k < n :: a[k] == b[k]
    ensures HeldIn(a, n) == HeldIn(b, n)
  {
    if n > 0 {
      HeldPrefix(a, b, n - 1);
    }
  }

  lemma HeldAppend(chunks: seq<Chunk>, c: Chunk)
    ensures Held(chunks + [c]) == Held(chunks) + if c.held then 1 else 0
  {
    HeldPrefix(chunks, chunks + [c], |chunks|);
  }

  lemma {:induction false} HeldZero(chunks: seq<Chunk>, n: nat, i: nat)
    requires i < n <= |chunks| && HeldIn(chunks, n) == 0
    ensures !chunks[i].held
  {
    if i < n - 1 {
      HeldZero(chunks, n - 1, i);
    }
  }

  // ----- reservations do not overlap

  lemma {:induction false} ChunksDisjoint(chunks: seq<Chunk>, i: nat, k: nat)
    requires Contiguous(chunks) && i < k < |chunks|
    ensures chunks[i].End() <= chunks[k].start
    decreases k
  {
    assert Follows(chunks, k);
    if i < k - 1 {
      ChunksDisjoint(chunks, i, k - 1);
    }
  }

  lemma ChunkBelowEnd(chunks: seq<Chunk>, i: nat)
    requires Contiguous(chunks) && i < |chunks|
    ensures chunks[i].End() <= EndOf(chunks)
  {
    if i < |chunks| - 1 {
      ChunksDisjoint(chunks, i, |chunks| - 1);
    }
  }

  /** A reservation that keeps its range keeps the others' places. */
  lemma SameRange(chunks: seq<Chunk>, i: nat, c: Chunk)
    requires Contiguous(chunks) && i < |chunks| && c.start == chunks[i].start && c.End() == chunks[i].End()
    ensures Contiguous(chunks[i := c]) && EndOf(chunks[i := c]) == EndOf(chunks)
  {
    var chunks' := chunks[i := c];
    forall k | 0 <= k < |chunks'|
      ensures Follows(chunks', k)
    {
      assert Follows(chunks, k);
    }
  }

  lemma SpliceOwn(data: seq<nat>, from: nat, at: nat, words: seq<nat>)
    requires from <= at && at + |words| <= |data|
    ensures Splice(data, at, words)[from..at + |words|] == data[from..at] + words
  {
  }

  lemma SpliceOther(data: seq<nat>, at: nat, words: seq<nat>, from: nat, to: nat)
    requires at + |words| <= |data| && from <= to <= |data| && (to <= at || at + |words| <= from)
    ensures Splice(data, at, words)[from..to] == data[from..to]
  {
  }

  lemma TakeMore(data: seq<nat>, a: nat, b: nat)
    requires a <= b <= |data|
    ensures data[..b] == data[..a] + data[a..b]
  {
  }

  // ----- every step keeps the invariant

  lemma GetWord(word: nat, idx: nat, offset: nat, held: nat, u64s: nat)
    requires WordOk(word, idx, offset, held) && 1 + held < CountMax && offset + u64s < OffsetLimit
    ensures WordOk(StateSetOffset(StateInc(word, idx), offset + u64s), idx, offset + u64s, held + 1)
  {
    OpenCountsUpdate(idx, 1 + held, 2 + held);
    IncWord(word, offset, idx, OpenCounts(idx, 1 + held), idx);
    SetOffsetWord(StateInc(word, idx), offset, idx, OpenCounts(idx, 2 + held), offset + u64s);
  }

  lemma GetLayout(chunks: seq<Chunk>, data: seq<nat>, u64s: nat)
    requires Layout(chunks, data) && EndOf(chunks) + u64s <= |data|
    ensures Layout(chunks + [Chunk(EndOf(chunks), [], u64s, true)], data)
  {
    var chunks' := chunks + [Chunk(EndOf(chunks), [], u64s, true)];
    forall i | 0 <= i < |chunks'|
      ensures Follows(chunks', i) && ChunkOk(chunks'[i], data)
    {
      if i < |chunks| {
        assert Follows(chunks, i) && ChunkOk(chunks[i], data);
      }
    }
  }

  lemma ResGetKeeps(s: ResState, u64s: nat, admitted: bool)
    requires ResInv(s)
    ensures ResInv(ResGet(s, u64s, admitted).1)
    ensures ResGet(s, u64s, admitted).0 <==>
              admitted && EndOf(s.chunks) + u64s <= s.cap && 1 + Held(s.chunks) < CountMax
    ensures ResGet(s, u64s, admitted).0 ==> Granted(s, ResGet(s, u64s, admitted).1, u64s)
    ensures !ResGet(s, u64s, admitted).0 ==> ResGet(s, u64s, admitted).1 == s
  {
    WordSays(s);
    var (ok, s') := ResGet(s, u64s, admitted);
    if ok {
      GrantKeeps(s, s', u64s);
      WordSays(s');
    }
  }

  lemma GrantKeeps(s: ResState, s': ResState, u64s: nat)
    requires ResInv(s) && EndOf(s.chunks) + u64s <= s.cap && 1 + Held(s.chunks) < CountMax
    requires s'.word == StateSetOffset(StateInc(s.word, s.seqno % Slots), EndOf(s.chunks) + u64s)
    requires s' == s.(word := s'.word, chunks := s.chunks + [Chunk(EndOf(s.chunks), [], u64s, true)])
    ensures ResInv(s') && EndOf(s'.chunks) == EndOf(s.chunks) + u64s && Held(s'.chunks) == Held(s.chunks) + 1
  {
    GetWord(s.word, s.seqno % Slots, EndOf(s.chunks), Held(s.chunks), u64s);
    GetLayout(s.chunks, Open(s), u64s);
    HeldAppend(s.chunks, Chunk(EndOf(s.chunks), [], u64s, true));
  }

  /** One more reservation, from the old offset to the new; the open slot counts it and nothing else changes. */
  ghost predicate Granted(s: ResState, s': ResState, u64s: nat)
    requires |s.ring| == Slots
  {
    && |s'.chunks| == |s.chunks| + 1 && s'.chunks[..|s.chunks|] == s.chunks
    && s'.chunks[|s.chunks|] == Chunk(StateOffset(s.word), [], u64s, true)
    && StateOffset(s'.word) == StateOffset(s.word) + u64s && StateIdx(s'.word) == StateIdx(s.word)
    && (forall i | 0 <= i < Slots ::
          StateCount(s'.word, i) == StateCount(s.word, i) + (if i == s.seqno % Slots then 1 else 0))
    && s'.ring == s.ring && s'.seqno == s.seqno && s'.cap == s.cap
  }

  /** Writing inside one reservation leaves every other one's words alone. */
  lemma WriteLayout(chunks: seq<Chunk>, data: seq<nat>, i: nat, words: seq<nat>)
    requires Layout(chunks, data) && i < |chunks| && |words| <= chunks[i].room && chunks[i].held
    ensures ChunkOk(chunks[i], data)
    ensures Layout(chunks[i := Extend(chunks[i], words)], Splice(data, chunks[i].Cursor(), words))
  {
    var chunks', data' := chunks[i := Extend(chunks[i], words)], Splice(data, chunks[i].Cursor(), words);
    SameRange(chunks, i, Extend(chunks[i], words));
    forall k | 0 <= k < |chunks|
      ensures ChunkOk(chunks'[k], data')
    {
      WriteChunk(chunks, data, i, words, k);
    }
  }

  lemma WriteChunk(chunks: seq<Chunk>, data: seq<nat>, i: nat, words: seq<nat>, k: nat)
    requires Layout(chunks, data) && i < |chunks| && |words| <= chunks[i].room && chunks[i].held && k < |chunks|
    requires ChunkOk(chunks[i], data)
    ensures ChunkOk(chunks[i := Extend(chunks[i], words)][k], Splice(data, chunks[i].Cursor(), words))
  {
    assert ChunkOk(chunks[k], data);
    if k == i {
      SpliceOwn(data, chunks[i].start, chunks[i].Cursor(), words);
    } else {
      if k < i {
        ChunksDisjoint(chunks, k, i);
      } else {
        ChunksDisjoint(chunks, i, k);
      }
      SpliceOther(data, chunks[i].Cursor(), words, chunks[k].start, chunks[k].Cursor());
    }
  }

  lemma WriteTiled(chunks: seq<Chunk>, i: nat, words: seq<nat>)
    requires AllTiled(chunks) && i < |chunks| && |words| <= chunks[i].room && Tiled(words)
    ensures AllTiled(chunks[i := Extend(chunks[i], words)])
  {
    TiledConcat(chunks[i].written, words);
  }

  lemma WriteAtKeeps(s: ResState, i: nat, words: seq<nat>)
    requires ResInv(s) && i < |s.chunks| && |words| <= s.chunks[i].room && s.chunks[i].held && Tiled(words)
    ensures ChunkOk(s.chunks[i], Open(s)) && ResInv(WriteAt(s, i, words))
  {
    WriteLayout(s.chunks, Open(s), i, words);
    WriteTiled(s.chunks, i, words);
    HeldUpdate(s.chunks, i, Extend(s.chunks[i], words));
    SameRange(s.chunks, i, Extend(s.chunks[i], words));
    var chunks, data := s.chunks[i := Extend(s.chunks[i], words)], Splice(Open(s), s.chunks[i].Cursor(), words);
    SlotWritten(s, s.seqno % Slots, chunks, data);
  }

  /** New contents of the same reservations, in the open slot. */
  lemma SlotWritten(s: ResState, idx: nat, chunks: seq<Chunk>, data: seq<nat>)
    requires ResInv(s) && idx == s.seqno % Slots && |data| == |Open(s)|
    requires EndOf(chunks) == EndOf(s.chunks) && Held(chunks) == Held(s.chunks)
    requires Layout(chunks, data) && AllTiled(chunks)
    ensures ResInv(s.(ring := s.ring[idx := data], chunks := chunks))
  {
  }

  lemma AddEntryKeeps(s: ResState, i: nat, header: nat, payload: seq<nat>)
    requires ResInv(s) && i < |s.chunks| && s.chunks[i].held
    requires EntryU64s(header) == |payload| && 1 + |payload| <= s.chunks[i].room
    ensures ChunkOk(s.chunks[i], Open(s)) && ResInv(AddEntry(s, i, header, payload))
    ensures Added(s, AddEntry(s, i, header, payload), i, [header] + payload)
  {
    TiledEntry([header] + payload);
    WriteAtKeeps(s, i, [header] + payload);
    WriteAtAdds(s, i, [header] + payload);
  }

  /** The buffer holds `words` from `at` on and is otherwise as before. */
  predicate Holding(data: seq<nat>, data': seq<nat>, at: nat, words: seq<nat>) {
    && |data'| == |data| && at + |words| <= |data| && data'[at..at + |words|] == words
    && data'[..at] == data[..at] && data'[at + |words|..] == data[at + |words|..]
  }

  /** No slot of the ring but the open one differs. */
  predicate OtherSlotsSame(s: ResState, s': ResState)
    requires |s.ring| == |s'.ring| == Slots
  {
    forall k | 0 <= k < Slots && k != s.seqno % Slots :: s'.ring[k] == s.ring[k]
  }

  /** Reservation `i` has written `words` at its cursor; nothing else has changed. */
  ghost predicate Added(s: ResState, s': ResState, i: nat, words: seq<nat>)
    requires |s.ring| == Slots && i < |s.chunks|
  {
    && s'.word == s.word && s'.seqno == s.seqno && s'.cap == s.cap && |s'.ring| == Slots && |s'.chunks| == |s.chunks|
    && s'.chunks[i].written == s.chunks[i].written + words && s'.chunks[i].room + |words| == s.chunks[i].room
    && s'.chunks[i].start == s.chunks[i].start && s'.chunks[i].held == s.chunks[i].held
    && (forall k | 0 <= k < |s.chunks| && k != i :: s'.chunks[k] == s.chunks[k])
    && Holding(Open(s), Open(s'), s.chunks[i].Cursor(), words) && OtherSlotsSame(s, s')
  }

  lemma WriteAtAdds(s: ResState, i: nat, words: seq<nat>)
    requires |s.ring| == Slots && i < |s.chunks| && |words| <= s.chunks[i].room && s.chunks[i].End() <= |Open(s)|
    ensures Added(s, WriteAt(s, i, words), i, words)
  {
    SpliceHolds(Open(s), s.chunks[i].Cursor(), words);
  }

  lemma SpliceHolds(data: seq<nat>, at: nat, words: seq<nat>)
    requires at + |words| <= |data|
    ensures Holding(data, Splice(data, at, words), at, words)
  {
  }

  lemma ReleaseWord(word: nat, idx: nat, offset: nat, held: nat)
    requires WordOk(word, idx, offset, held) && held > 0
    ensures StateDec(word, idx) >= 0 && WordOk(StateDec(word, idx), idx, offset, held - 1)
  {
    OpenCountsUpdate(idx, 1 + held, held);
    DecWord(word, offset, idx, OpenCounts(idx, 1 + held), idx);
  }

  lemma ReleaseKeeps(s: ResState, i: nat)
    requires ResInv(s) && i < |s.chunks| && s.chunks[i].held && s.chunks[i].room == 0
    ensures StateDec(s.word, s.seqno % Slots) >= 0 && ResInv(Release(s, i))
  {
    HeldUpdate(s.chunks, i, s.chunks[i].(held := false));
    SameRange(s.chunks, i, s.chunks[i].(held := false));
    ReleaseWord(s.word, s.seqno % Slots, EndOf(s.chunks), Held(s.chunks));
  }

  lemma ResPutKeeps(s: ResState, i: nat)
    requires ResInv(s) && i < |s.chunks| && s.chunks[i].held
    ensures ChunkOk(s.chunks[i], Open(s)) && StateDec(s.word, s.seqno % Slots) >= 0 && ResInv(ResPut(s, i))
    ensures Returned(s, ResPut(s, i), i)
  {
    var zeros := Zeros(s.chunks[i].room);
    ZerosTiled(s.chunks[i].room);
    WriteAtKeeps(s, i, zeros);
    WriteAtAdds(s, i, zeros);
    ReleaseKeeps(WriteAt(s, i, zeros), i);
    PutSays(s, ResPut(s, i), i);
  }

  /** Reservation `i` is given back, its rest zeroed; the open slot counts one less and nothing else has changed. */
  ghost predicate Returned(s: ResState, s': ResState, i: nat)
    requires |s.ring| == Slots && i < |s.chunks|
  {
    && s'.seqno == s.seqno && s'.cap == s.cap && |s'.ring| == Slots && |s'.chunks| == |s.chunks|
    && s'.chunks[i] == Chunk(s.chunks[i].start, s.chunks[i].written + Zeros(s.chunks[i].room), 0, false)
    && (forall k | 0 <= k < |s.chunks| && k != i :: s'.chunks[k] == s.chunks[k])
    && Holding(Open(s), Open(s'), s.chunks[i].Cursor(), Zeros(s.chunks[i].room)) && OtherSlotsSame(s, s')
    && CountDropped(s, s')
  }

  ghost predicate CountDropped(s: ResState, s': ResState) {
    && StateOffset(s'.word) == StateOffset(s.word) && StateIdx(s'.word) == StateIdx(s.word)
    && forall k | 0 <= k < Slots ::
         StateCount(s'.word, k) == StateCount(s.word, k) - (if k == s.seqno % Slots then 1 else 0)
  }

  lemma PutSays(s: ResState, s': ResState, i: nat)
    requires ResInv(s) && ResInv(s') && s'.seqno == s.seqno && i < |s.chunks| && s.chunks[i].held
    requires |s'.chunks| == |s.chunks| && (forall k | 0 <= k < |s.chunks| && k != i :: s'.chunks[k] == s.chunks[k])
    requires !s'.chunks[i].held && s'.chunks[i].End() == s.chunks[i].End()
    ensures CountDropped(s, s')
  {
    WordSays(s);
    WordSays(s');
    assert s'.chunks == s.chunks[i := s'.chunks[i]];
    HeldUpdate(s.chunks, i, s'.chunks[i]);
  }

  // ----- flush

  lemma {:induction false} WholePayload(chunks: seq<Chunk>, data: seq<nat>, n: nat)
    requires Layout(chunks, data) && Held(chunks) == 0 && n <= |chunks|
    ensures EndOf(chunks[..n]) <= |data| && data[..EndOf(chunks[..n])] == WrittenBy(chunks, n)
  {
    if n > 0 {
      WholePayload(chunks, data, n - 1);
      var c := chunks[n - 1];
      assert ChunkOk(c, data) && Follows(chunks, n - 1);
      HeldZero(chunks, |chunks|, n - 1);
      TakeMore(data, c.start, c.Cursor());
      assert n > 1 ==> EndOf(chunks[..n - 1]) == chunks[n - 2].End();
      assert EndOf(chunks[..n]) == c.End() == c.Cursor();
    }
  }

  lemma {:induction false} WrittenTiled(chunks: seq<Chunk>, n: nat)
    requires AllTiled(chunks) && n <= |chunks|
    ensures Tiled(WrittenBy(chunks, n))
  {
    if n > 0 {
      WrittenTiled(chunks, n - 1);
      TiledConcat(WrittenBy(chunks, n - 1), chunks[n - 1].written);
    }
  }

  /** The word of the next slot, opened when nothing is held. */
  lemma NextSlotWord(word: nat, idx: nat, offset: nat, next: nat)
    requires WordOk(word, idx, offset, 0) && next < 4
    ensures StateDec(word, idx) >= 0
    ensures WordOk(NextWord(word, idx, next), next, 0, 0)
  {
    OpenCountsUpdate(idx, 1, 0);
    DecWord(word, offset, idx, OpenCounts(idx, 1), idx);
    MovedWord(StateDec(word, idx), offset, idx, next);
  }

  lemma MovedWord(word: nat, offset: nat, idx: nat, next: nat)
    requires WordIs(word, offset, idx, NoCounts) && next < 4
    ensures WordOk(StateInc(StateSetOffset(StateSetIdx(word, next), 0), next), next, 0, 0)
  {
    SetIdxWord(word, offset, idx, NoCounts, next);
    RewoundWord(StateSetIdx(word, next), offset, next);
  }

  lemma RewoundWord(word: nat, offset: nat, next: nat)
    requires WordIs(word, offset, next, NoCounts) && next < 4
    ensures WordOk(StateInc(StateSetOffset(word, 0), next), next, 0, 0)
  {
    SetOffsetWord(word, offset, next, NoCounts, 0);
    OpenedWord(StateSetOffset(word, 0), next);
  }

  lemma OpenedWord(word: nat, next: nat)
    requires WordIs(word, 0, next, NoCounts) && next < 4
    ensures WordOk(StateInc(word, next), next, 0, 0)
  {
    OpenCountsUpdate(next, 0, 1);
    IncWord(word, 0, next, NoCounts, next);
  }

  /** What the flushed entry and the slot opened after it must be. */
  ghost predicate GoodFlush(s: ResState, cap: nat, out: FlushOutcome)
    requires |s.ring| == Slots
  {
    && out.Flushed?
    && out.payload == WrittenBy(s.chunks, |s.chunks|) && Tiled(out.payload)
    && ResInv(out.next) && out.next.chunks == [] && out.next.seqno == s.seqno + 1 && out.next.cap == cap
    && Open(out.next) == Zeros(|Open(s)|) && OtherSlotsSame(out.next, s)
  }

  lemma OpenSlotKeeps(s: ResState, cap: nat)
    requires ResInv(s) && cap <= |Open(s)| && cap < OffsetLimit && Held(s.chunks) == 0
    ensures StateDec(s.word, StateIdx(s.word)) >= 0 && ResInv(OpenSlot(s, cap))
  {
    OpenIdx(s);
    var idx, next := s.seqno % Slots, (s.seqno + 1) % Slots;
    NextSlotWord(s.word, idx, EndOf(s.chunks), next);
    SlotOpened(s, NextWord(s.word, idx, next), cap, |Open(s)|);
  }

  lemma OpenIdx(s: ResState)
    requires ResInv(s)
    ensures StateIdx(s.word) == s.seqno % Slots
  {
    WordSays(s);
  }

  lemma SlotOpened(s: ResState, word: nat, cap: nat, n: nat)
    requires WordOk(word, (s.seqno + 1) % Slots, 0, 0)
    requires |s.ring| == Slots && (forall i | 0 <= i < Slots :: |s.ring[i]| == n) && cap <= n && cap < OffsetLimit
    ensures ResInv(NextSlot(s, word, cap))
  {
  }

  lemma CountedWord(word: nat, idx: nat, offset: nat, held: nat)
    requires WordOk(word, idx, offset, held)
    ensures StateDec(word, idx) >= 0
  {
    OpenCountsUpdate(idx, 1 + held, 0);
    DecWord(word, offset, idx, OpenCounts(idx, 1 + held), idx);
  }

  lemma NextSlotDiffers(seqno: nat)
    ensures (seqno + 1) % Slots != seqno % Slots
  {
  }

  /**
   A flush goes ahead exactly when no reservation is held; the slot it opens is then
   always free, the payload it copies is what the reservations wrote, in order, and it is
   tiled by jset entries.
   */
  lemma FlushTakesWholeEntries(s: ResState, cap: nat)
    requires ResInv(s) && cap <= |Open(s)| && cap < OffsetLimit
    ensures StateOffset(s.word) <= |s.ring[StateIdx(s.word)]| && StateDec(s.word, StateIdx(s.word)) >= 0
    ensures if Held(s.chunks) > 0 then FlushOpenEntry(s, cap) == Busy else GoodFlush(s, cap, FlushOpenEntry(s, cap))
  {
    WordSays(s);
    NextSlotDiffers(s.seqno);
    CountedWord(s.word, s.seqno % Slots, EndOf(s.chunks), Held(s.chunks));
    if Held(s.chunks) == 0 {
      WholePayload(s.chunks, Open(s), |s.chunks|);
      assert s.chunks[..|s.chunks|] == s.chunks;
      WrittenTiled(s.chunks, |s.chunks|);
      OpenSlotKeeps(s, cap);
    }
  }

  /** Reservations are disjoint ranges below the packed offset. */
  ghost predicate Apart(s: ResState) {
    && (forall i | 0 <= i < |s.chunks| :: s.chunks[i].End() <= StateOffset(s.word))
    && forall i, k | 0 <= i < k < |s.chunks| :: s.chunks[i].End() <= s.chunks[k].start
  }

  lemma ReservationsDisjoint(s: ResState)
    requires ResInv(s)
    ensures Apart(s)
  {
    WordSays(s);
    forall i | 0 <= i < |s.chunks|
      ensures s.chunks[i].End() <= StateOffset(s.word)
    {
      ChunkBelowEnd(s.chunks, i);
    }
    forall i, k | 0 <= i < k < |s.chunks|
      ensures s.chunks[i].End() <= s.chunks[k].start
    {
      ChunksDisjoint(s.chunks, i, k);
    }
  }

  // ----- whole runs

  datatype ResStep =
    | Get(u64s: nat, admitted: bool)
    | Add(i: nat, header: nat, payload: seq<nat>)
    | Put(i: nat)
    | FlushTry(cap: nat)

  /** What callers owe: they only use reservations they hold, within their size. */
  predicate ResEnabled(s: ResState, step: ResStep)
    requires |s.ring| == Slots
  {
    match step
    case Get(_, _) => true
    case Add(i, header, payload) =>
      i < |s.chunks| && s.chunks[i].held && EntryU64s(header) == |payload| && 1 + |payload| <= s.chunks[i].room
    case Put(i) => i < |s.chunks| && s.chunks[i].held
    case FlushTry(cap) => cap <= |Open(s)| && cap < OffsetLimit
  }

  ghost function ResApply(s: ResState, step: ResStep): (s': ResState)
    requires ResInv(s) && ResEnabled(s, step)
    ensures ResInv(s')
  {
    match step
    case Get(u64s, admitted) => ResGetKeeps(s, u64s, admitted); ResGet(s, u64s, admitted).1
    case Add(i, header, payload) => AddEntryKeeps(s, i, header, payload); AddEntry(s, i, header, payload)
    case Put(i) => ResPutKeeps(s, i); ResPut(s, i)
    case FlushTry(cap) =>
      FlushTakesWholeEntries(s, cap);
      var out := FlushOpenEntry(s, cap);
      if out.Flushed? then out.next else s
  }

  /** The steps lead from `s0` to `s`. */
  ghost predicate ResLeads(s0: ResState, steps: seq<ResStep>, s: ResState)
    requires ResInv(s0)
    decreases |steps|
  {
    if |steps| == 0 then s == s0
    else ResEnabled(s0, steps[0]) && ResLeads(ResApply(s0, steps[0]), steps[1..], s)
  }

  /** The journal of journal::default(). */
  function FreshJournal(cap: nat): ResState {
    ResState(0x40_0000 + 0x4_0000_0000, 1, cap, seq(4, _ => Zeros(BufferU64s)), [])
  }

  lemma {:induction false} RunKeeps(s0: ResState, steps: seq<ResStep>, s: ResState)
    requires ResInv(s0) && ResLeads(s0, steps, s)
    ensures ResInv(s)
    decreases |steps|
  {
    if |steps| > 0 {
      RunKeeps(ResApply(s0, steps[0]), steps[1..], s);
    }
  }

  lemma FreshJournalKeeps(cap: nat)
    requires cap <= BufferU64s
    ensures ResInv(FreshJournal(cap))
  {
  }

  /** A run from the journal of journal::default(). */
  ghost predicate ResReaches(cap: nat, steps: seq<ResStep>, s: ResState)
    requires cap <= BufferU64s
  {
    FreshJournalKeeps(cap);
    ResLeads(FreshJournal(cap), steps, s)
  }

  /**
   Over every run: the reservations are disjoint ranges below the offset, each holding what it
   wrote; the open slot counts itself and the held ones, the other three slots count nothing, and
   a flush never finds its next slot in use.
   */
  lemma ReservationSafety(cap: nat, steps: seq<ResStep>, s: ResState)
    requires cap <= BufferU64s && ResReaches(cap, steps, s)
    ensures ResInv(s) && Apart(s)
    ensures StateCount(s.word, s.seqno % Slots) == 1 + Held(s.chunks)
    ensures forall i | 0 <= i < Slots && i != s.seqno % Slots :: StateCount(s.word, i) == 0
    ensures StateOffset(s.word) <= |s.ring[StateIdx(s.word)]| && StateDec(s.word, StateIdx(s.word)) >= 0
    ensures forall cap': nat | cap' <= |Open(s)| && cap' < OffsetLimit ::
              if Held(s.chunks) > 0 then FlushOpenEntry(s, cap') == Busy
              else GoodFlush(s, cap', FlushOpenEntry(s, cap'))
  {
    FreshJournalKeeps(cap);
    RunKeeps(FreshJournal(cap), steps, s);
    WordSays(s);
    ReservationsDisjoint(s);
    FlushTakesWholeEntries(s, 0);
    forall cap': nat | cap' <= |Open(s)| && cap' < OffsetLimit
      ensures if Held(s.chunks) > 0 then FlushOpenEntry(s, cap') == Busy
              else GoodFlush(s, cap', FlushOpenEntry(s, cap'))
    {
      FlushTakesWholeEntries(s, cap');
    }
  }

  /** journal_entry_u64s_for_sectors() */
  function EntryCapacity(sectors: nat): nat {
    var words := sectors * 64;
    var room := if words < JsetHeaderU64s then 0 else words - JsetHeaderU64s;
    if room < OffsetLimit - 1 then room else OffsetLimit - 1
  }

  /**
   The limit derived from the device is the largest payload that, with a header of seven words,
   fits the sectors and the offset field.  It fits the fixed buffers exactly when an entry may not
   span more than 2048 sectors, the engine's bucket size.
   */
  lemma CapacityFitsBuffer(sectors: nat)
    ensures EntryCapacity(sectors) <= BufferU64s <==> sectors <= 2048
    ensures EntryCapacity(sectors) < OffsetLimit
    ensures EntryCapacity(sectors) > 0 ==> 8 * (EntryCapacity(sectors) + 7) <= 512 * sectors
    ensures EntryCapacity(sectors) < OffsetLimit - 1 ==> 8 * (EntryCapacity(sectors) + 1 + 7) > 512 * sectors
  {
  }
}
