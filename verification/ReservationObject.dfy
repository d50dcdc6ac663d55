/** The reservation side of the journal as an object; each method takes one step of `Reservations`. */
module ReservationObject {
  import opened StateWord
  import R = Reservations

  class ReservationCell {
    var word: nat
    var seqno: nat
    var cap: nat
    var ring: seq<seq<nat>>
    ghost var chunks: seq<R.Chunk>

    ghost function State(): R.ResState
      reads this
    {
      R.ResState(word, seqno, cap, ring, chunks)
    }

    constructor (capacity: nat)
      requires capacity <= R.BufferU64s
      ensures State() == R.FreshJournal(capacity) && R.ResInv(State())
    {
      word, seqno, cap, chunks := 0x40_0000 + 0x4_0000_0000, 1, capacity, [];
      ring := seq(4, _ => R.Zeros(R.BufferU64s));
      R.FreshJournalKeeps(capacity);
    }

    /** journal_res_get_fast(): on success the reservation covers [offset, offset + u64s). */
    method ResGet(u64s: nat, admitted: bool) returns (ok: bool, offset: nat)
      requires R.ResInv(State())
      modifies this
      ensures (ok, State()) == R.ResGet(old(State()), u64s, admitted) && R.ResInv(State())
      ensures ok ==> chunks == old(chunks) + [R.Chunk(offset, [], u64s, true)]
    {
      R.ResGetKeeps(State(), u64s, admitted);
      R.WordSays(State());
      var idx := StateIdx(word);
      offset := StateOffset(word);
      if offset + u64s > cap || !admitted || StateCount(word, idx) == CountMax {
        return false, offset;
      }
      word := StateSetOffset(StateInc(word, idx), offset + u64s);
      chunks := chunks + [R.Chunk(offset, [], u64s, true)];
      ok := true;
    }

    /** bch2_journal_add_entry(); `at` is the reservation's cursor, `i` names it. */
    method AddEntry(ghost i: nat, at: nat, header: nat, payload: seq<nat>) returns (cursor: nat)
      requires R.ResInv(State()) && i < |chunks| && chunks[i].held && at == chunks[i].Cursor()
      requires R.EntryU64s(header) == |payload| && 1 + |payload| <= chunks[i].room
      modifies this
      ensures old(R.ResInv(State()) && chunks[i].End() <= |R.Open(State())|)
      ensures State() == R.AddEntry(old(State()), i, header, payload) && R.ResInv(State())
      ensures R.Added(old(State()), State(), i, [header] + payload)
      ensures cursor == chunks[i].Cursor()
    {
      R.AddEntryKeeps(State(), i, header, payload);
      var idx := seqno % R.Slots;
      ring := ring[idx := R.Splice(ring[idx], at, [header] + payload)];
      chunks := chunks[i := R.Extend(chunks[i], [header] + payload)];
      cursor := at + 1 + |payload|;
    }

    /** bch2_journal_res_put(): the loop pads the rest with empty entries. */
    method ResPut(ghost i: nat, at: nat, room: nat)
      requires R.ResInv(State()) && i < |chunks| && chunks[i].held
      requires at == chunks[i].Cursor() && room == chunks[i].room
      modifies this
      ensures old(chunks[i].End() <= |R.Open(State())| && StateDec(word, seqno % R.Slots) >= 0)
      ensures State() == R.ResPut(old(State()), i) && R.ResInv(State())
      ensures R.Returned(old(State()), State(), i)
    {
      R.ResPutKeeps(State(), i);
      PadRest(i, at, room);
      word := StateDec(word, seqno % R.Slots);
      chunks := chunks[i := chunks[i].(held := false)];
    }

    method PadRest(ghost i: nat, at: nat, room: nat)
      requires |ring| == R.Slots && i < |chunks| && chunks[i].End() <= |R.Open(State())|
      requires at == chunks[i].Cursor() && room == chunks[i].room
      modifies this`ring, this`chunks
      ensures State() == R.WriteAt(old(State()), i, R.Zeros(room))
    {
      var idx := seqno % R.Slots;
      var n := 0;
      PadNone(State(), i);
      while n < room
        invariant 0 <= n <= room
        invariant State() == R.WriteAt(old(State()), i, R.Zeros(n))
      {
        ring := ring[idx := R.Splice(ring[idx], at + n, [0])];
        chunks := chunks[i := R.Extend(chunks[i], [0])];
        PadOne(old(State()), i, n);
        n := n + 1;
      }
    }

    /** bch2_journal_flush() up to the device write: -1 while reservations are held. */
    method FlushOpenEntry(newCap: nat) returns (code: int, payload: seq<nat>)
      requires R.ResInv(State()) && newCap <= |R.Open(State())| && newCap < R.OffsetLimit
      modifies this
      ensures R.ResInv(State()) && code in {0, -1}
      ensures code == -1 <==> R.Held(old(chunks)) > 0
      ensures code == -1 ==> State() == old(State())
      ensures code == 0 ==> R.GoodFlush(old(State()), newCap, R.Flushed(payload, State()))
    {
      R.FlushTakesWholeEntries(State(), newCap);
      R.WordSays(State());
      payload := [];
      var idx := StateIdx(word);
      if StateCount(word, idx) != 1 {
        return -1, payload;
      }
      payload := ring[idx][..StateOffset(word)];
      var next := (seqno + 1) % R.Slots;
      if StateCount(word, next) != 0 {
        return -3, payload;
      }
      OpenNext(idx, newCap);
      code := 0;
    }

    /** Clear the next slot and make it the open one. */
    method OpenNext(idx: nat, newCap: nat)
      requires |ring| == R.Slots && idx == StateIdx(word) && StateDec(word, idx) >= 0
      modifies this
      ensures State() == R.OpenSlot(old(State()), newCap)
    {
      var next := (seqno + 1) % R.Slots;
      ring := ring[next := R.Zeros(|ring[next]|)];
      word := R.NextWord(word, idx, next);
      seqno := seqno + 1;
      cap := newCap;
      chunks := [];
    }
  }

  lemma PadNone(s: R.ResState, i: nat)
    requires |s.ring| == R.Slots && i < |s.chunks| && s.chunks[i].End() <= |R.Open(s)|
    ensures R.WriteAt(s, i, R.Zeros(0)) == s
  {
    assert R.Splice(R.Open(s), s.chunks[i].Cursor(), R.Zeros(0)) == R.Open(s);
    assert s.chunks[i].written + R.Zeros(0) == s.chunks[i].written;
    assert s.ring[s.seqno % R.Slots := R.Open(s)] == s.ring;
    assert s.chunks[i := s.chunks[i]] == s.chunks;
  }

  lemma PadOne(s: R.ResState, i: nat, n: nat)
    requires |s.ring| == R.Slots && i < |s.chunks| && n < s.chunks[i].room && s.chunks[i].End() <= |R.Open(s)|
    ensures R.WriteAt(R.WriteAt(s, i, R.Zeros(n)), i, [0]) == R.WriteAt(s, i, R.Zeros(n + 1))
  {
    assert R.Zeros(n) + [0] == R.Zeros(n + 1);
    var idx, at, data := s.seqno % R.Slots, s.chunks[i].Cursor(), R.Open(s);
    var once, twice := R.Splice(data, at, R.Zeros(n)), R.Splice(data, at, R.Zeros(n + 1));
    assert R.Splice(once, at + n, [0]) == twice;
    assert s.ring[idx := once][idx := twice] == s.ring[idx := twice];
    var c := s.chunks[i];
    assert c.written + R.Zeros(n) + [0] == c.written + R.Zeros(n + 1);
    assert s.chunks[i := R.Extend(c, R.Zeros(n))][i := R.Extend(c, R.Zeros(n + 1))]
        == s.chunks[i := R.Extend(c, R.Zeros(n + 1))];
  }
}
