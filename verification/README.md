# Proofs about the subvol storage core

subvol is a storage engine in Rust built on the bcachefs design: a journal with a circular
on-device log, btree nodes that hold bit-packed sorted keys, and alloc records with indexes
derived from them.  This project models the parts of it on which everything else rests and
proves what they promise, for every input and every run.  `dafny verify dfyconfig.toml` checks
all of it.

The engine's mutex serialises every journal and bucket operation
(crates/subvol/src/engine.rs:403-407), so each of them is one atomic step here.  Where the
source updates state in place, a class or an array does so in Dafny and is proved against
functions on values; the theorems are about those functions and about runs of them.

**The journal.**  `JournalModel` gives the state (sequence numbers, pin lists, the ring of
buckets) and one function per operation.  `JournalRing` says why nothing the newest record's
window needs is ever zeroed, `JournalPins` accounts for pins, `JournalRead` and
`JournalRecovery` describe and justify the read-back, `JournalRuns` puts them together over all
runs, crashes included, and `WriteAhead` shows that recovery is exact.  `JournalSpace` says when a
flush finds room, what reclaim frees, and that an idle journal always goes on.  `JournalObject` is
the journal updated in place.  `StateWord`, `Reservations`, `ReservationTrace` and
`ReservationObject` do the same for the packed reservation word and the entry buffers;
`JournalKeys` is the overlay of journal keys used during recovery.

**Keys in a node.**  `PackedWords`, `PackedKeys`, `PackStates`, `KeyPacking`, `PosPacking` and
`KeyFormat` cover bit packing: a key's words are read as one number, and packing, unpacking,
comparing and re-packing are all statements about its leading bits.  `Eytzinger`, `Mantissa`,
`NodeKeys`, `SearchTree`, `SearchTreeBuild` and `KeyPrev` cover the read-only search tree,
`LookupTable` the write set's table, `NodeIter`, `NodeMerge` and `NodeWalk` the three-way
iterator, `NodeSearch` the search of a whole node that positions it, `KeySort` and `SortMerge` the
sorting.  Every fast path is shown to agree with a plain scan of a sorted sequence.

**Buckets, snapshots, checksums.**  `Buckets` keeps the freespace and need_discard indexes equal
to what the alloc records say, through every operation and an interruptible repair.
`Snapshots` compares skip-list ancestry with the parent walk.  `Checksums` shows that merging is
concatenation, and `CrcPolynomials` that the checksums are polynomial remainders.

Where the code does less than its comments or its name suggest, the code is modelled as it is
and the exact condition is proved:

- The lookup table goes stale exactly when a key that has an entry is replaced by one of the same
  size at another position, because the fix-up is skipped for equal sizes (`WriteSet.Insert`), and
  a search can then miss a key (`StaleStartsLate`).  The commit path replaces only a key at the
  inserted position (crates/subvol/src/btree/update.rs:1705-1816) and never does that
  (`WriteSet.Commit`).
- Skip-list ancestry is wrong exactly when the skip entry a node would use was not stored and it
  has an ancestor more than 128 ids away (`FastAgreesIff`, `MissingSkipsDisagree`).
- The freespace index encoding is unambiguous for bucket numbers below 2^56 only: beyond, buckets
  can share an entry (`TakeKeepsIff`, `LargeOffsetsCollide`), allocation can pass a free one over
  (`Allocate`, `LargeOffsetPassedOver`) and the check can reject an exact index (`Verify`).
- `last_seq_ondisk` can run ahead of `last_seq` when an empty record's entry carries a pin
  (`FlushOndiskBound`, `PinnedEmptyFlush`); the window on the device is safe even then (`ReadReturnsWindow`).
- A journal of two buckets cannot leave a full bucket even when nothing in it is needed any more,
  because one bucket is kept back while the dirty indices coincide (`IdleGoesOn`).
- An entry capacity derived from the device fits the fixed buffers only up to 2048 sectors
  (`CapacityFitsBuffer`).
- Writing back a node that still holds unflushed keys breaks recovery for exactly the keys outside
  the window that changed (`UnguardedWriteBack`, `UnguardedBreaks`).

Integers are unbounded in the model; widths appear where they matter (64-bit words and wrapping
field sums in the packing modules, 32-bit fits in `Eytzinger`, 10-bit counts in `StateWord`, 8-bit
generations in `Buckets`).  Setting bits that are shown to be clear is written as addition, masks
and shifts as quotients and remainders or as bit-by-bit shifts.  Positions stand for their place
in the position order where only the order matters (`SortMerge`, `JournalKeys`).

## Model

| member | source | states |
|---|---|---|
| `JournalRing.AvailableIsDistance` | crates/subvol/src/journal.rs:320-336 | The number of free buckets the modular formula computes is the ring distance to the index asked about, less one when the two dirty indices coincide |
| `JournalRing.AdvanceDirtyKeeps` | crates/subvol/src/journal.rs:400-484 | Moving the dirty index past buckets whose newest sequence is below last_seq keeps the ring invariant (contents are consecutive slices of the log, indices chase each other, the newest window is kept) |
| `JournalRing.AdvanceOndiskKeeps` | crates/subvol/src/journal.rs:400-484 | The same for the dirty-on-disk index |
| `JournalRing.ReclaimKeeps` | crates/subvol/src/journal.rs:400-491 | Recomputing the indices and discarding keeps the ring invariant |
| `JournalRing.AdvanceBucketKeeps` | crates/subvol/src/journal.rs:1103-1170 | Zeroing and entering the next bucket loses nothing the newest record's window needs, also when the record is then not written |
| `JournalRing.AppendKeeps` | crates/subvol/src/journal.rs:1103-1170 | Appending a record that fits keeps the ring invariant for the longer log |
| `JournalRing.EmptyDeviceInv` | crates/subvol/src/journal.rs:1556-1571 | A freshly formatted device of any number of buckets satisfies the ring invariant |
| `JournalPins.UpdateLastSeqKeeps` | crates/subvol/src/journal.rs:493-507 | last_seq equals the front of the pin deque afterwards, never moves back, and stops at the first list with a pin, an open entry or an unreplayed entry |
| `JournalPins.PinSetKeeps` | crates/subvol/src/journal.rs:563-601 | Moving a pin keeps the pin accounting: front + lists = seq + 1, seq_ondisk = seq - 1, every count is its pins plus open plus unreplayed |
| `JournalPins.PinDropKeeps` | crates/subvol/src/journal.rs:625-650 | Dropping a pin keeps the accounting and last_seq monotone |
| `JournalPins.ReplayPinsPutKeeps` | crates/subvol/src/journal.rs:652-666 | Releasing replayed entries keeps the accounting |
| `JournalPins.ReplayEffect` | crates/subvol/src/journal.rs:652-666 | Exactly the unreplayed lists below the smaller of end and seq lose their mark and one count; none below it stays unreplayed; other lists are unchanged and only lists that count nothing are popped |
| `JournalPins.OpenNextKeeps` | crates/subvol/src/journal.rs:1201-1215 | Closing the flushed entry and opening the next keeps the accounting |
| `JournalPins.FlushOndiskBound` | crates/subvol/src/journal.rs:1179-1217 | last_seq_ondisk stays at or behind last_seq across a flush if and only if the flushed record is not an empty one whose entry carries a pin |
| `JournalRuns.PinnedEmptyFlush` | crates/subvol/src/journal.rs:1179-1217 | On every formatted device a pin on sequence 1 and a flush of the empty entry it is on leave last_seq_ondisk ahead of last_seq |
| `JournalPins.RestartedKeeps` | crates/subvol/src/journal.rs:1532-1552 | The lists rebuilt by a read satisfy the accounting, one unreplayed entry per record of the window |
| `JournalPins.PinAddEffect` | crates/subvol/src/journal.rs:603-612 | Adding a pin leaves it on the older of the two sequences and moves nothing else |
| `JournalPins.PinUpdateEffect` | crates/subvol/src/journal.rs:614-623 | Updating a pin leaves it on the newer of the two sequences and moves nothing else |
| `JournalPins.PinDropEffect` | crates/subvol/src/journal.rs:625-650 | Dropping a pin releases exactly that pin; last_seq never moves back, nor past an unreplayed entry |
| `JournalPins.FlushEffect` | crates/subvol/src/journal.rs:997-1233 | A flush moves no pin, and last_seq never moves back, nor past an unreplayed entry |
| `JournalPins.FlushState` | crates/subvol/src/journal.rs:1179-1217 | A failed flush changes the device at most; a successful one opens the next sequence number and raises last_seq_ondisk to last_seq, or past the entry if that was empty |
| `JournalRead.SortBySeqSorts` | crates/subvol/src/journal.rs:1457-1463 | Sorting scanned records gives them in sequence order, the same records |
| `JournalRead.DedupStrict` | crates/subvol/src/journal.rs:1457-1463 | Dropping duplicates leaves one record per sequence |
| `JournalRead.FirstCounts` | crates/subvol/src/journal.rs:1457-1463 | Of several copies of a record the one scanned first is kept |
| `JournalRead.ScanBucketExact` | crates/subvol/src/journal.rs:1399-1452 | The scan of any bucket finds its records up to the first sequence number that goes backwards, with the sectors used up to each |
| `JournalRead.ReadExact` | crates/subvol/src/journal.rs:1378-1463 | A read of any device: -5 exactly when a scan gets to a bad header, else -7 exactly when two different records carry one sequence number, else the window selection |
| `JournalRead.SelectExact` | crates/subvol/src/journal.rs:1464-1531 | The selection on any records: -8 exactly when a sequence number from the newest flush's last_seq to its own is missing, else exactly those records in order |
| `JournalRecovery.ScanSlice` | crates/subvol/src/journal.rs:1399-1452 | Scanning a bucket that holds consecutive log records finds all of them, with running fill levels |
| `JournalRecovery.UniqueIsTail` | crates/subvol/src/journal.rs:1378-1463 | Scan, sort and deduplicate give exactly the tail of the log that is still on the device |
| `JournalRecovery.WindowOfTail` | crates/subvol/src/journal.rs:1466-1512 | The contiguity check passes on that tail and selects the newest record's window |
| `JournalRecovery.ReadRingInv` | crates/subvol/src/journal.rs:1556-1571 | The ring indices a read computes satisfy the ring invariant again |
| `JournalRuns.ReadKeeps` | crates/subvol/src/journal.rs:1329-1584 | Reading the device of any state satisfying the invariant returns the newest window with cur_seq one past it, and reinstalls a state satisfying the invariant |
| `JournalRuns.StepKeeps` | crates/subvol/src/journal.rs:493-666 | Every step (pins, checkpoint, flush with or without a failing write, replay done, crash) keeps the journal invariant and fails no assertion; last_seq is monotone |
| `JournalRuns.FlushKeeps` | crates/subvol/src/journal.rs:997-1233 | A flush appends its record to the log if it succeeds and leaves log and window alone if it fails |
| `JournalRuns.InvariantIsSafe` | crates/subvol/src/journal.rs:563-666 | In such a state no assertion of pin set, add, update, drop, replay or flush can fail |
| `JournalRuns.RunsKeepInvariant` | crates/subvol/src/journal.rs:997-1233 | Over any run the invariant holds and flushed records are never forgotten or changed |
| `JournalRuns.ReadReturnsWindow` | crates/subvol/src/journal.rs:1329-1584 | In every state of every run from an empty device, a read returns exactly the records from the newest record's last_seq through its own sequence |
| `JournalRuns.FlushAtSeqMax` | crates/subvol/src/journal.rs:1201-1215 | At the last sequence number the record is written and recoverable although the flush returns -2 |
| `JournalRuns.FormattedKeeps` | crates/subvol/src/journal.rs:1329-1584 | The first read of an empty device establishes the invariant |
| `JournalSpace.WriteCode` | crates/subvol/src/journal.rs:1103-1124 | The code of a record write in ring terms: -4 if larger than a bucket; -9 exactly when it does not fit the current bucket and the buckets from the next one up to the discard index are fewer than 1, or 2 while the two dirty indices coincide; else 0, or -5 if the write fails |
| `JournalSpace.WriteEffect` | crates/subvol/src/journal.rs:1103-1170 | The record goes to the current bucket if it fits, else to the next, emptied; every index, bucket and fill level afterwards; a refused record changes nothing |
| `JournalSpace.FlushCode` | crates/subvol/src/journal.rs:997-1188 | The same for a whole flush, with -2 at the last sequence number |
| `JournalSpace.ReclaimEffect` | crates/subvol/src/journal.rs:412-420 | Reclaim leaves the dirty index at the first bucket that memory still needs and the other two at the first that the disk still needs, and touches nothing else |
| `JournalSpace.StepTight` | crates/subvol/src/journal.rs:400-530 | Every step but a record write that fails leaves the indices where reclaim would: nothing that could be freed stays behind |
| `JournalSpace.CheckpointEffect` | crates/subvol/src/journal.rs:516-530 | A checkpoint is refused exactly beyond last_seq or seq; an accepted one leaves last_seq_ondisk at the larger of old and given and, when it moves, the buckets no longer needed freed |
| `JournalSpace.LastSeqEffect` | crates/subvol/src/journal.rs:493-507 | last_seq moves past exactly the lists at the front that count nothing |
| `JournalSpace.LastSeqReclaims` | crates/subvol/src/journal.rs:493-507 | When last_seq moves, the indices are brought up to date; otherwise nothing but the lists changes |
| `JournalSpace.ReclaimFrees` | crates/subvol/src/journal.rs:412-420 | Reclaim frees every bucket at the old end all of whose records are below last_seq and last_seq_ondisk |
| `JournalSpace.FlushAfterReclaim` | crates/subvol/src/journal.rs:1103-1124 | When the two oldest buckets are such, the next flush of a record that fits a bucket succeeds |
| `JournalSpace.IdleGoesOn` | crates/subvol/src/journal.rs:1103-1233 | In every state of every run without pins and unreplayed entries, after a checkpoint of everything a flush of a record that fits a bucket succeeds if it fits the current one or there are three buckets, and returns -9 otherwise |
| `JournalSpace.RestartState` | crates/subvol/src/journal.rs:1532-1571 | The journal a read installs, on any device it accepts: nothing before the window is needed, one unreplayed list per sequence number of it, no pins |
| `RecordReplay.ApplyRecordsVal` | crates/subvol/src/journal.rs:1868-1918 | Replaying records makes a key's value that of its last update in them, else the base value |
| `RecordReplay.ApplySplit` | crates/subvol/src/journal.rs:1868-1918 | Replaying a concatenation is replaying its parts in turn |
| `WriteAhead.RecoveryIsExact` | crates/subvol/src/journal.rs:1674-1927 | Replaying the newest window over the written-back nodes gives the map as of the last flush |
| `WriteAhead.WStepKeeps` | crates/subvol/src/engine.rs:1679-1733 | Commit with pin_add, flush, node write-back with pin drop, checkpoint, crash and each replay step keep the write-ahead invariant |
| `WriteAhead.WriteAheadRecovery` | crates/subvol/src/journal.rs:1674-1927 | In every reachable state, recovery from the device alone yields exactly the map committed as of the last flush, also when a crash interrupts replay |
| `WriteAhead.FlushCommits` | crates/subvol/src/journal.rs:997-1233 | A successful flush makes the map in memory the recoverable one; a failed one changes nothing |
| `WriteAhead.FinishReplayKeeps` | crates/subvol/src/journal.rs:1868-1918 | When replay finishes, memory is the flushed map and every replayed node is pinned |
| `WriteAhead.UnguardedWriteBack` | crates/subvol/src/journal.rs:1707-1737 | Writing a node that holds unflushed changes keeps recovery exact if and only if each of its keys is in the window or unchanged since the flush |
| `WriteAhead.UnguardedBreaks` | crates/subvol/src/journal.rs:1707-1737 | On every new file system one commit that changes a value and an unguarded write of its node make recovery return an update that was never flushed |
| `JournalObject.JournalCell.SpaceAvailable` | crates/subvol/src/journal.rs:400-484 | The in-place loops compute the value-level step |
| `JournalObject.JournalCell.DoDiscards` | crates/subvol/src/journal.rs:486-491 | Moves the discard index only |
| `JournalObject.JournalCell.UpdateLastSeq` | crates/subvol/src/journal.rs:493-507 | The popping loop computes the value-level step |
| `JournalObject.JournalCell.UpdateLastSeqOndisk` | crates/subvol/src/journal.rs:516-530 | Result code and new state of a checkpoint's update |
| `JournalObject.JournalCell.PinSet` | crates/subvol/src/journal.rs:563-601 | New state of a pin move |
| `JournalObject.JournalCell.PinAdd` | crates/subvol/src/journal.rs:603-612 | New state, keeping the older sequence |
| `JournalObject.JournalCell.PinUpdate` | crates/subvol/src/journal.rs:614-623 | New state, keeping the newer sequence |
| `JournalObject.JournalCell.PinDrop` | crates/subvol/src/journal.rs:625-650 | New state of a pin drop |
| `JournalObject.JournalCell.ReplayPinsPut` | crates/subvol/src/journal.rs:652-666 | The loop over replayed lists computes the value-level step |
| `JournalObject.JournalCell.WriteRecord` | crates/subvol/src/journal.rs:1103-1170 | Result code, stated in ring terms, and device after the record write, failing or not |
| `JournalObject.JournalCell.Flush` | crates/subvol/src/journal.rs:997-1233 | Result code, with the exact condition for success, and whole new state of a flush |
| `JournalObject.ScanOne` | crates/subvol/src/journal.rs:1399-1452 | The bucket scan loop finds what the scan function finds |
| `JournalObject.ScanAll` | crates/subvol/src/journal.rs:1378-1455 | The same over all buckets, with each bucket's newest sequence |
| `JournalObject.CheckWindow` | crates/subvol/src/journal.rs:1490-1504 | The loop accepts exactly the contiguous windows |
| `JournalObject.SelectBack` | crates/subvol/src/journal.rs:1464-1571 | Window selection and rebuild of the journal |
| `JournalObject.ReadBack` | crates/subvol/src/journal.rs:1329-1584 | The whole read, errors included |
| `StateWord.UnpackOffset` | crates/subvol/src/journal.rs:802-833 | The offset field of a packed word is the one packed, whatever the counts |
| `StateWord.UnpackCount` | crates/subvol/src/journal.rs:802-833 | The same for each of the four counts |
| `StateWord.IncWord` | crates/subvol/src/journal.rs:822-828 | Incrementing one count leaves every other field alone |
| `StateWord.DecWord` | crates/subvol/src/journal.rs:830-833 | Decrementing one count leaves every other field alone |
| `StateWord.SetOffsetWord` | crates/subvol/src/journal.rs:814-816 | Setting the offset leaves index and counts alone |
| `StateWord.SetIdxWord` | crates/subvol/src/journal.rs:818-820 | Setting the index leaves offset and counts alone |
| `Reservations.ResGetKeeps` | crates/subvol/src/journal.rs:839-873 | A reservation is granted exactly when it fits, is admitted and the count has room; it runs from the old offset to the new one, the open count rises by one and no other field, count or buffer changes; a refused one changes nothing; the invariant is kept |
| `Reservations.AddEntryKeeps` | crates/subvol/src/journal.rs:963-977 | Adding an entry appends exactly its header and payload to the reservation, at its cursor in the open buffer; room shrinks by that much; the word, all other words of the buffer, the other slots and the other reservations are unchanged |
| `Reservations.ResPutKeeps` | crates/subvol/src/journal.rs:979-995 | Releasing fills the rest with empty entries and lowers the open count by one; nothing else changes |
| `Reservations.FlushTakesWholeEntries` | crates/subvol/src/journal.rs:997-1024 | Flush proceeds exactly with no reservation outstanding, the other three counts are 0 (the -3 exit is unreachable), the payload is what the reservations wrote and tiled by whole entries, and the next slot is open, zeroed and empty |
| `Reservations.ReservationsDisjoint` | crates/subvol/src/journal.rs:839-873 | All reservations, a lone one included, end at or below the packed offset and are pairwise disjoint |
| `Reservations.ReservationSafety` | crates/subvol/src/journal.rs:839-1024 | Over every run from a new journal: the reservations are disjoint ranges at or below the offset that hold what was written; the open slot counts 1 plus the reservations outstanding, the other three 0; a flush is refused with one outstanding and otherwise takes whole entries and finds the next slot free |
| `Reservations.FreshJournalKeeps` | crates/subvol/src/journal.rs:933-948 | A new journal satisfies the reservation invariant |
| `Reservations.CapacityFitsBuffer` | crates/subvol/src/journal.rs:305-309 | The entry capacity is the largest payload that fits the sectors with its header and the offset field; it fits the entry buffer if and only if at most 2048 sectors are offered |
| `ReservationTrace.PayloadsAreAdded` | crates/subvol/src/journal.rs:839-1024 | Over every run from a new journal the flushed payloads are, reservation by reservation in the order granted, the entries added to each and its padding |
| `ReservationObject.ReservationCell.ResGet` | crates/subvol/src/journal.rs:839-873 | New packed word, buffer and result of the fast path |
| `ReservationObject.ReservationCell.AddEntry` | crates/subvol/src/journal.rs:963-977 | Buffer and cursor after adding exactly the header and payload given |
| `ReservationObject.ReservationCell.ResPut` | crates/subvol/src/journal.rs:979-995 | New word and padded buffer |
| `ReservationObject.ReservationCell.FlushOpenEntry` | crates/subvol/src/journal.rs:1183-1199 | The refusals, and the state stored for the next entry |
| `Eytzinger.FromToInorder` | crates/subvol/src/util/eytzinger.rs:65-91 | Node to in-order position and back is the identity, with positions in 1..size |
| `Eytzinger.ToFromInorder` | crates/subvol/src/util/eytzinger.rs:65-91 | Position to node and back is the identity, with nodes in 1..size |
| `Eytzinger.NextIdxSucceeds` | crates/subvol/src/util/eytzinger.rs:30-41 | next goes to the following in-order position, to 0 exactly at the last |
| `Eytzinger.PrevIdxPrecedes` | crates/subvol/src/util/eytzinger.rs:43-55 | prev goes to the preceding position, to 0 exactly at the first |
| `Eytzinger.PrevOfNext` | crates/subvol/src/util/eytzinger.rs:30-55 | prev undoes next |
| `Eytzinger.FirstIsFirst` | crates/subvol/src/util/eytzinger.rs:22-24 | first is at position 1 |
| `Eytzinger.LastIsLast` | crates/subvol/src/util/eytzinger.rs:26-28 | last is at position size |
| `Eytzinger.GapInorder` | crates/subvol/src/util/eytzinger.rs:65-79 | A search that falls off the tree ends between two neighbouring in-order positions |
| `Eytzinger.FitsWord` | crates/subvol/src/util/eytzinger.rs:57-91 | Below 2^w nodes no intermediate needs more than w + 1 bits |
| `Eytzinger.LeafFitsWord` | crates/subvol/src/util/eytzinger.rs:30-55 | Nor does the shift to the last row |
| `PackedWords.JoinBits` | crates/subvol/src/btree/bkey.rs:238-262 | Bits read in two portions are the bits read at once |
| `PackedWords.BitsAcross` | crates/subvol/src/btree/bkey.rs:238-262 | A field that straddles two words is its high part from one and low part from the next |
| `PackStates.PackState.PutBits` | crates/subvol/src/btree/bkey.rs:264-282 | Appending b bits appends exactly them to the number written so far, across a word boundary or not |
| `PackStates.PackState.TryPut` | crates/subvol/src/btree/bkey.rs:284-299 | A field is written if and only if it is in the format's range |
| `PackStates.PackState.PutLossy` | crates/subvol/src/btree/bkey.rs:301-319 | A field too large is written as the largest the format has |
| `PackStates.PackState.Finish` | crates/subvol/src/btree/bkey.rs:218-222 | The finished words' leading bits are the number written |
| `PackStates.UnpackState.Get` | crates/subvol/src/btree/bkey.rs:238-262 | Reads the field's bits plus its offset, wrapping |
| `PackedKeys.ConcatFields` | crates/subvol/src/btree/bkey.rs:264-282 | Words whose leading bits are the concatenation hold each field's value |
| `PackedKeys.PrefixIgnoresHeader` | crates/subvol/src/btree/bkey.rs:332-356 | The header bytes do not touch any field |
| `PackedKeys.BitOrderIsPosOrder` | crates/subvol/src/btree/node_iter.rs:23-48 | Comparing the key bits of two packed keys is comparing the unpacked positions, for formats that do not overflow |
| `KeyPacking.PackKey` | crates/subvol/src/btree/bkey.rs:332-356 | Packing succeeds exactly when every field is in range, and then unpacking returns the same fields, type, whiteout bit and length |
| `KeyPacking.UnpackKey` | crates/subvol/src/btree/bkey.rs:507-564 | Computes the key the packed words stand for |
| `KeyPacking.Transform` | crates/subvol/src/btree/bkey.rs:358-394 | Re-packing in another format keeps key and value whenever it succeeds, and fails exactly when a field is out of range |
| `KeyPacking.CmpBits` | crates/subvol/src/btree/node_iter.rs:23-48 | The word loop compares the leading bits |
| `KeyPacking.CmpPacked` | crates/subvol/src/btree/node_iter.rs:50-61 | Its result is bpos_cmp of the unpacked positions |
| `PosPacking.ClampIsFloor` | crates/subvol/src/btree/bkey.rs:301-319 | Clamping field by field is the floor among representable positions |
| `PosPacking.PackPos` | crates/subvol/src/btree/bkey.rs:404-431 | Packs exactly the representable positions |
| `PosPacking.PackPosLossy` | crates/subvol/src/btree/bkey.rs:437-505 | Yields the greatest representable position at most the input; EXACT iff the input is representable, FAIL iff nothing representable is at or below it |
| `KeyFormat.FormatState.Done` | crates/subvol/src/btree/bkey.rs:672-709 | A valid format of at most five words, without overflow, in which everything covered so far packs; its word count is that of the least widths the ranges need, and each field has that width or it rounded up to bytes |
| `KeyFormat.FormatState.AddKey` | crates/subvol/src/btree/bkey.rs:638-642 | The key is covered, what was covered stays covered, and each range grows by that field's value only |
| `KeyFormat.Pad` | crates/subvol/src/btree/bkey.rs:694-706 | Rounding fields up to bytes uses only spare bits and keeps every range; each field is as before or rounded up |
| `KeyFormat.FormatFor` | crates/subvol/src/btree/bkey.rs:622-709 | For any set of keys: a format in which each of them packs, with the fewest words of any such format that also packs a zero size, and no field wider by a byte or more than in any of those |
| `KeyFormat.NoNarrower` | crates/subvol/src/btree/bkey.rs:681-694 | Any format that holds both ends of every range has fields at least that wide and at least that many words |
| `KeyFormat.OverflowCheckExact` | crates/subvol/src/btree/bkey.rs:747-774 | The wrap-around test detects exactly the fields some stored value of which decodes out of range |
| `Mantissa.GreatestDifferingBit` | crates/subvol/src/btree/bset_build.rs:627-652 | The word loop finds the highest bit in which the key bits differ |
| `Mantissa.CompareMantissas` | crates/subvol/src/btree/bset_search.rs:94-98 | What unequal and equal mantissas say about the keys, with bits dropped, none dropped or padding below the key |
| `SearchTree.MantissaDecides` | crates/subvol/src/btree/bset_search.rs:162-206 | At every node reached, a mantissa comparison that is acted on agrees with comparing the keys |
| `SearchTree.StepByMantissa` | crates/subvol/src/btree/bset_search.rs:157-190 | A step by mantissa keeps the search between its bounds |
| `SearchTree.StepByKey` | crates/subvol/src/btree/bset_search.rs:181-191 | A step by key comparison does too, or stops at a key with only smaller keys before it |
| `SearchTree.Landing` | crates/subvol/src/btree/bset_search.rs:196-206 | The key before the gap is that of the nearest smaller ancestor, or the first key |
| `SearchTree.SearchRoTree` | crates/subvol/src/btree/bset_search.rs:162-206 | The key returned has only smaller keys before it, and every tree key behind it is at or above the packed search |
| `NodeKeys.SearchLinear` | crates/subvol/src/btree/bset_search.rs:221-241 | From a key with only smaller keys before it, the linear tail stops where a scan from the first key stops |
| `NodeKeys.CmpSearch` | crates/subvol/src/btree/bset_search.rs:100-114 | Packed keys are compared with the packed search, others with the position |
| `NodeKeys.ScanUnique` | crates/subvol/src/btree/bset_search.rs:221-241 | A scan stops in one place only |
| `SearchTreeBuild.FillOffsets` | crates/subvol/src/btree/bset_build.rs:728-746 | Each tree node's offset leads to the first key of its cacheline; it fails exactly when no key starts at or after the last line |
| `SearchTreeBuild.Offsets` | crates/subvol/src/btree/bset_build.rs:716-750 | A tree is built exactly when there is room for two slots and the first line has a key; then every line has a key and the tree is the largest of which that is true |
| `SearchTreeBuild.LineOffsetSmall` | crates/subvol/src/btree/bset_build.rs:580-588 | A key offset always fits in a byte |
| `SearchTreeBuild.MakeFloat` | crates/subvol/src/btree/bset_build.rs:661-714 | The mantissa covers every bit in which keys of its range differ and sits exactly at the highest of them; the node is marked failed exactly when a key is unpacked, the format has no position bits or the exponent would reach 255 |
| `SearchTreeBuild.Floats` | crates/subvol/src/btree/bset_build.rs:752-769 | Every node of the finished tree has such a float |
| `SearchTreeBuild.SearchRun` | crates/subvol/src/btree/bset_search.rs:208-241 | Building the tree, descending it and walking the tail finds what a scan of the run finds |
| `KeyPrev.SearchNode` | crates/subvol/src/btree/node_iter.rs:208-253 | The same with the bounds and the search position packed; it fails exactly when nothing representable is at or below the position |
| `KeyPrev.PrevRo` | crates/subvol/src/btree/bset_search.rs:243-276 | The nearest tree key before the given one, or the first key if there is none |
| `LookupTable.WriteSet.Insert` | crates/subvol/src/btree/bset_update.rs:153-221 | The run is spliced; the table stays right except exactly when a key with its own entry is replaced by one of equal size at another position |
| `LookupTable.WriteSet.Commit` | crates/subvol/src/btree/update.rs:1705-1816 | The commit path changes the run as a map from positions to live keys: the new key stands where a search for it stops, or a deleted position has no live key, and all other keys stay; the table always stays right and the run sorted |
| `LookupTable.WriteSet.Delete` | crates/subvol/src/btree/bset_update.rs:261-273 | The key is removed and the table stays right |
| `LookupTable.WriteSet.Fix` | crates/subvol/src/btree/bset_update.rs:56-103 | Brings the table in line with the edited run; no entry is lost but that of a last key that is gone |
| `LookupTable.WriteSet.InsertEntry` | crates/subvol/src/btree/bset_update.rs:27-54 | Splits the stretch at its first key a cacheline or more in, exactly when there is one and room for an entry |
| `LookupTable.WriteSet.FindSplit` | crates/subvol/src/btree/bset_update.rs:38-51 | The first key a cacheline or more into the stretch |
| `LookupTable.WriteSet.Bsearch` | crates/subvol/src/btree/bset_search.rs:70-92 | The number of entries below an offset, from any starting guess |
| `LookupTable.WriteSet.Prev` | crates/subvol/src/btree/bset_search.rs:275-283 | The nearest key with an entry before the given one |
| `LookupTable.EntryAfter` | crates/subvol/src/btree/bset_update.rs:91-101 | An entry behind the edit, moved by the size difference, is right for the edited run |
| `LookupTable.EntryBefore` | crates/subvol/src/btree/bset_update.rs:91-101 | An entry before the edit stays right |
| `LookupTable.SameSizeBreaks` | crates/subvol/src/btree/bset_update.rs:218-220 | Replacing a key of equal size by one at another position makes its entry wrong |
| `LookupTable.StaleStartsLate` | crates/subvol/src/btree/bset_update.rs:218-220 | Two equal-size replacements at other positions after which the run is sorted and the table search starts behind a key it should find |
| `LookupTable.SearchWriteSet` | crates/subvol/src/btree/bset_search.rs:139-155 | The entry found has only smaller keys before it, and every later entry is at or behind the search |
| `LookupTable.Search` | crates/subvol/src/btree/bset_search.rs:208-241 | Table search plus linear tail equals a scan of the whole run |
| `LookupTable.Build` | crates/subvol/src/btree/bset_build.rs:607-625 | A newly built table is right, its entries are more than a cacheline apart, and no key is further from one while there is room |
| `NodeMerge.NodeIterator.Sort` | crates/subvol/src/btree/node_iter.rs:187-196 | Three slots in any order end up in key order |
| `NodeMerge.NodeIterator.Advance` | crates/subvol/src/btree/node_iter.rs:302-326 | Consumes the least remaining key and leaves the slots in order |
| `NodeMerge.NodeIterator.InitFromStart` | crates/subvol/src/btree/node_iter.rs:198-206 | All runs at their first keys, in order |
| `NodeMerge.NodeIterator.Fill` | crates/subvol/src/btree/node_iter.rs:237-253 | Starting positions in every run, in order |
| `NodeMerge.NodeIterator.Find` | crates/subvol/src/btree/types.rs:1064-1079 | The slot of a run, or none if the run is finished |
| `NodeMerge.NodeIterator.Used` | crates/subvol/src/btree/types.rs:1054-1062 | The number of slots in use |
| `NodeMerge.NodeIterator.PrevAll` | crates/subvol/src/btree/node_iter.rs:481-518 | Steps back to the greatest consumed key |
| `NodeIter.FirstIsLeast` | crates/subvol/src/btree/node_iter.rs:291-300 | The first slot holds the least remaining key |
| `NodeIter.HeadsUnique` | crates/subvol/src/btree/node_iter.rs:134-144 | The positions determine the slots' order |
| `NodeIter.RankExists` | crates/subvol/src/btree/node_iter.rs:103-119 | The iteration order is a strict total order on the keys of a node |
| `NodeWalk.WalkAll` | crates/subvol/src/btree/node_iter.rs:345-354 | From the start the iterator yields every key exactly once, in order |
| `NodeWalk.ForthAndBack` | crates/subvol/src/btree/node_iter.rs:481-518 | prev_all undoes advance, slot for slot, and returns the same key |
| `NodeWalk.BackAndForth` | crates/subvol/src/btree/node_iter.rs:481-518 | advance undoes prev_all |
| `NodeWalk.InitAt` | crates/subvol/src/btree/node_iter.rs:208-253 | Started where the runs' searches stop, it yields exactly the keys not before the search; `NodeSearch.InitNode` performs the searches |
| `NodeWalk.InitUnpackable` | crates/subvol/src/btree/node_iter.rs:222-232 | On the unpackable path all live keys not before the search remain; only deleted keys ahead of the first of them are skipped |
| `NodeSearch.InitNode` | crates/subvol/src/btree/node_iter.rs:208-253 | The whole of node_iter_init: packs the search, searches each run through whatever index it has, walks from the start when nothing packs; what remains is exactly the keys not before the search, except that on the unpackable path deleted keys ahead of the first live one are skipped |
| `NodeSearch.SearchSet` | crates/subvol/src/btree/bset_search.rs:208-241 | A run searched through its tree, its table or neither gives the position where a plain scan stops |
| `NodeSearch.ScanIsSearched` | crates/subvol/src/btree/node_iter.rs:234-250 | Where a scan of a run of packed and unpacked keys stops is where the iterator must start in it |
| `NodeSearch.TableScan` | crates/subvol/src/btree/bset_search.rs:139-155 | A scan of the keys as the table sees them stops where a scan of the run does |
| `NodeSearch.GoodRuns` | crates/subvol/src/btree/node_iter.rs:198-206 | The runs of a good node are sorted in the way the iterator relies on |
| `NodeSearch.BuildAll` | crates/subvol/src/btree/bset_build.rs:772-798 | A run keeps its index if no run up to it lacked one of its kind; from the first that did on, each gets one exactly when there is room; every index is right and the keys are left alone |
| `NodeSearch.PrevFilter` | crates/subvol/src/btree/bset_search.rs:243-309 | The last wanted key before the given one, or none, through a tree, a table or neither; with every key wanted it is the one just before |
| `KeySort.Sift` | crates/subvol/src/btree/bset_build.rs:344-370 | Sinking one key restores the heap, permutes the keys and leaves the sorted tail alone |
| `KeySort.SortKeys` | crates/subvol/src/btree/bset_build.rs:325-372 | Ends with a sorted permutation of the input, for every length and every ranking |
| `SortMerge.Sift` | crates/subvol/src/btree/bset_build.rs:103-116 | Restores the cursors' order |
| `SortMerge.SortCursors` | crates/subvol/src/btree/bset_build.rs:118-124 | Sorts the cursors |
| `SortMerge.Advance` | crates/subvol/src/btree/bset_build.rs:134-145 | Moves the first cursor on and keeps the order |
| `SortMerge.FixOverlapping` | crates/subvol/src/btree/bset_build.rs:178-200 | The output is strictly sorted, holds each position's newest key iff that is not deleted, and the counters are its counts |
| `SortMerge.NewestIsOverlay` | crates/subvol/src/btree/bset_build.rs:172-176 | A key no later run has a key over is the newest at its position |
| `Snapshots.FastAgreesIff` | crates/subvol/src/snapshot.rs:339-359 | Skip list and bitmap agree with the parent walk on all ids if and only if no node has an ancestor more than 128 ids above it for which the skip entry it would use is missing |
| `Snapshots.StoredSkipsAgree` | crates/subvol/src/snapshot.rs:347-359 | With skip entries stored at every node that has a parent they always agree |
| `Snapshots.MissingSkipsDisagree` | crates/subvol/src/snapshot.rs:508-511 | A two-node table on which they differ: a value too short to hold skip entries |
| `Snapshots.IsAncestorEarly` | crates/subvol/src/snapshot.rs:339-345 | The parent walk ends and computes the parent-walk relation |
| `Snapshots.IsAncestor` | crates/subvol/src/snapshot.rs:347-359 | The fast walk ends and computes the skip-and-bitmap relation |
| `Snapshots.SnapshotTable.Mark` | crates/subvol/src/snapshot.rs:475-528 | Enters parent, skip entries and an exact bitmap of the next 128 ids |
| `Snapshots.SnapshotTable.Fill` | crates/subvol/src/snapshot.rs:539-596 | Marking in descending id order gives a table with exact bitmaps and the given parents and skip entries; with the skip entries stored at every node that has a parent, its fast walk agrees with the parent walk on all ids |
| `Snapshots.MarkKeeps` | crates/subvol/src/snapshot.rs:475-528 | Marking a smaller id keeps all that was marked |
| `Snapshots.RemarkKeeps` | crates/subvol/src/snapshot.rs:475-528 | Marking an id again with the parent it had keeps all that was marked |
| `Checksums.BuildTable` | crates/subvol/src/checksum.rs:40-78 | Each table entry is eight bitwise steps on the index |
| `Checksums.TableStep` | crates/subvol/src/checksum.rs:80-93 | A table look-up and a shift are eight bitwise steps on the register with the byte mixed in |
| `Checksums.Compute` | crates/subvol/src/checksum.rs:80-93 | The byte loop computes the bitwise checksum |
| `Checksums.StepsAdditive` | crates/subvol/src/checksum.rs:40-78 | Bitwise steps are linear over xor |
| `Checksums.UpdateLinear` | crates/subvol/src/checksum.rs:80-93 | A byte acts on a sum as on its second part, and as a zero byte on its first |
| `Checksums.MergeIsConcat` | crates/subvol/src/checksum.rs:16-38 | Running the first checksum over zeros and adding the second gives the checksum of the concatenation |
| `Checksums.Merge` | crates/subvol/src/checksum.rs:16-38 | For none and for any polynomial: merging the checksums of a and b gives that of a followed by b |
| `Checksums.MergeByType` | crates/subvol/src/checksum.rs:11-77 | The same for the three mergeable types by number, from tables built for them; `CrcPolynomials.ChecksumIsRemainder` says what types 5 and 6 compute |
| `CrcPolynomials.ChecksumIsRemainder` | crates/subvol/src/checksum.rs:40-93 | For every message the checksum of type 5 or 6 is the remainder of the message times x^32 or x^64 modulo the CRC-32C or CRC-64 generator, given by its exponents, bits lowest first or highest first |
| `CrcPolynomials.ChecksumUnique` | crates/subvol/src/checksum.rs:193-205 | No other polynomial of lower degree than the generator is congruent to it |
| `CrcPolynomials.StepsCongruent` | crates/subvol/src/checksum.rs:40-78 | Bitwise steps multiply the register by powers of x modulo the generator |
| `JournalKeys.Overlay.Insert` | crates/subvol/src/journal.rs:2051-2101 | The latest insert of a slot wins and is not overwritten, every other slot is as before, and every range is a maximal run |
| `JournalKeys.Overlay.Overwrite` | crates/subvol/src/journal.rs:2286-2314 | Exactly the named slot is marked, and every overwritten key's range is again its maximal run |
| `JournalKeys.Overlay.MarkAt` | crates/subvol/src/journal.rs:2215-2284 | Joining the neighbouring ranges gives the maximal run around the key |
| `JournalKeys.MarkKeeps` | crates/subvol/src/journal.rs:2215-2284 | Marking one key keeps every other run's range |
| `JournalKeys.Overlay.Rebuild` | crates/subvol/src/journal.rs:2008-2049 | After sorting, the recomputed ranges are the maximal runs |
| `JournalKeys.Overlay.PeekMax` | crates/subvol/src/journal.rs:2103-2138 | Returns what a plain scan for a key in range that is not overwritten returns, and that is the one at the least position |
| `JournalKeys.Overlay.PeekSlot` | crates/subvol/src/journal.rs:2140-2153 | The slot's key unless it is overwritten |
| `JournalKeys.Overlay.PeekPrevMin` | crates/subvol/src/journal.rs:2155-2200 | The same scan backwards, which finds the one at the greatest position |
| `Buckets.Engine.Allocate` | crates/subvol/src/engine.rs:949-1041 | Takes the first bucket of a writable device that is free and listed, in scan order, exactly when there is one and the commit succeeds; exact indexes stay exact if and only if no other free bucket shares its entry; a failure changes nothing |
| `Buckets.Engine.AllocateSmall` | crates/subvol/src/engine.rs:949-1041 | Below 2^56 it succeeds exactly when the device has a free bucket in range, and the indexes stay exact |
| `Buckets.Engine.Reclaim` | crates/subvol/src/engine.rs:1102-1262 | Exactly under its guards, with the code of each failing one: a bucket that is not need-discard becomes so with the next generation (mod 256), its oldest generation moving along only if it was equal; a need-discard one becomes free and changes nothing else; exact indexes stay exact if and only if a bucket that becomes need-discard shares its entry with no other free one; a failure changes nothing |
| `Buckets.OverlapsIff` | crates/subvol/src/engine.rs:1133-1147 | A backpointer blocks exactly the bucket its sector is in, short of the last sector number |
| `Buckets.Engine.Discard` | crates/subvol/src/engine.rs:1268-1313 | Frees a bucket exactly when it is need-discard, past its journal sequence, empty and reclaimable and the commit succeeds; keeps both indexes exact; otherwise changes nothing |
| `Buckets.Engine.Verify` | crates/subvol/src/engine.rs:723-777 | Accepts if and only if both indexes match the alloc records, no two free buckets share an entry and each entry decodes to a free bucket; below 2^56 exactly the states whose indexes match |
| `Buckets.Engine.Repair` | crates/subvol/src/engine.rs:2798-2895 | From any contents: finishes exactly when the transactions it may commit are at least the stale and missing entries, and then both indexes are right; cut short it has corrected exactly one entry per transaction and undone nothing right; alloc records never change |
| `Buckets.Engine.Rerun` | crates/subvol/src/engine.rs:2798-2895 | Any sequence of aborted and repeated repairs ends with both indexes right exactly when together they commit as many transactions as there were wrong entries, so always when there are that many runs that commit at least one |
| `Buckets.Sync` | crates/subvol/src/engine.rs:2905-2947 | One index, entry by entry: finished exactly when the budget covers the stale and missing entries, otherwise exactly that many fewer of them are left |
| `Buckets.TakeKeepsIff` | crates/subvol/src/engine.rs:91-97 | In general the index stays exact if and only if no other free bucket has the same entry |
| `Buckets.SmallNoTwin` | crates/subvol/src/engine.rs:91-97 | Below 2^56 no two free buckets share an entry |
| `Buckets.CountIff` | crates/subvol/src/engine.rs:757-766 | There are as many entries as free buckets if and only if no entry is shared |
| `Buckets.DecodesIff` | crates/subvol/src/engine.rs:757-766 | Every entry decodes to a free bucket if and only if each free bucket number, cut to 56 bits, is one |
| `Buckets.LargeOffsetsCollide` | crates/subvol/src/engine.rs:91-97 | Two buckets that share an entry when offsets reach 2^56 |
| `Buckets.LargeOffsetPassedOver` | crates/subvol/src/engine.rs:949-1041 | A free bucket at an offset of 2^56 or more that the candidates read from an exact index miss |
| `Buckets.EncodeOrder` | crates/subvol/src/engine.rs:91-97 | Below 2^56 a device's entries are in order of age and then of bucket number |
| `Buckets.AgeCounts` | crates/subvol/src/engine.rs:91-97 | The age is the number of sixteen-generation steps from the oldest generation to the current one, modulo 256 |
| `Buckets.OrBits` | crates/subvol/src/engine.rs:91-97 | For larger offsets the age is or-ed in bit by bit |

## Left out

- Failures while zero-filling the next journal bucket, torn records and checksum mismatches: a bucket is zeroed or not, a record is written whole or not at all, and a written record validates on read.
- The xxh64 checksum of journal records, and everything read from the superblock (device geometry, bucket ranges, magic numbers).
- Btree root entries in journal records, the entry validators, and the watermark, low-space and flag bits computed next to the ring indices.
- The split of pins into flushed and unflushed lists, the order in which reclaim flushes nodes, and the background thread, its waits and the deadline in bch2_journal_res_get.
- The in-memory copy of closed records (`closed`): after a checkpoint it is trimmed by the flushed sequence, so the window theorems are about the device.
- The btree itself: a map with atomic transactions in `WriteAhead` and `Buckets`; node splits, locks, the node cache and transaction restarts inside a commit are not modelled (a restart repeats the same step).
- Raw memory: keys are sequence elements with word offsets, so alignment, unaligned reads of mantissas past a key's words and pointer provenance are not modelled.
- PackStates.UnpackState.Get: the fast unpack path with precomputed byte offsets (bch2_compute_bkey_unpack_consts) is not modelled.
- NodeMerge.NodeIterator.PrevAll: the previous key of a run is taken by index; that the tree and the table lead to that key is `NodeSearch.PrevFilter`.
- bch2_btree_node_iter_fix, the repair of iterators after an insertion into the node.
- bch2_sort_repack, the whiteout-keeping merge and bch2_sort_keys, which reuse the cursor order and the packing proved here.
- Buckets.Engine.Reclaim: the backpointer and extent triggers are not modelled; backpointers are a set.
- Buckets.Engine.Allocate: member state comes in as data, and the commit's result is a parameter; write points, open-bucket tables and reserve caches of alloc.rs are not modelled.
- JournalKeys.Overlay.MarkAt: a range that has been merged into its neighbour stays in the list, unreferenced; only ranges that keys refer to are claimed to be maximal runs.
- Snapshots.SnapshotTable.Mark: what marking an id again with another parent does to the ids below it is not stated; tables are filled in descending id order as at start-up. Node states, subvolumes, depth and deletion are left out.
- Checksums.MergeByType: registers are sequences of bits in shifting order rather than machine words; the non-mergeable checksum types are left out.
- Extent entries, reservations of disk space, key merging and the many one-line accessors around them.
