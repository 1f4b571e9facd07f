# lsmkv: a verified model

This project models an embedded log-structured key-value store: a write-ahead log, a skiplist memtable, immutable
sorted tables, a manifest that names the live tables, and compaction. It proves that the store behaves as a plain map,
through flushes, compactions, crashes and reopening, and that each file format and search structure underneath does
what the store relies on.

## How it is built

| file | what it models |
|---|---|
| `Bytes.dfy`, `Varint.dfy` | byte strings and their order, little-endian numbers, varints |
| `Entries.dfy` | versioned entries, sorted tables of them, which version of a key is newest, the plain map |
| `Wal.dfy` | the log: frames, torn-tail recovery, replay, the `Log` object |
| `SkipLists.dfy` | the skiplist: linked nodes with up to 16 levels, in place |
| `Bloom.dfy` | the Bloom filter: bits set in place, serialization |
| `Blocks.dfy`, `Sstables.dfy`, `Readers.dfy` | table blocks with prefix compression and restart search, the file writer, the reader and its iterator |
| `Compact.dfy` | the heap, the k-way merge and the choice of its inputs |
| `Manifest.dfy`, `ManifestCodec.dfy` | live files, file names, the binary format |
| `Protocol.dfy`, `Safety.dfy`, `Crashes.dfy`, `Counters.dfy` | the store as a state machine in which every durable effect is one step and a crash may come between any two; its invariant; whole runs |
| `Images.dfy` | which bytes on disk stand for which protocol state |
| `Db.dfy` | the `DB` object over `Log`, `SkipList` and `Manifest`, and its iterator |
| `Files.dfy` | the same lookups, flushes and compactions with table files in the place of entry lists |

`Db.DB` carries a ghost protocol state and the list of steps that led there. Each method performs the source's effects
in the source's order and takes the matching protocol step after each durable one, so every theorem about runs of the
protocol is one about the object. `Images` and `Db.Open` close the circle at the level of bytes: a crash leaves the
durable bytes of the log and any number of the others, recovery cuts the torn frame off, and the store that comes up is
the protocol's: `Db.CrashAnywhere` for a crash at any moment, `Db.CrashAndReopen` for one between operations.

Every operation is stated for every store that some run of the protocol reaches, through any number of crashes
(`Safety.Inv` holds in all of them), in terms of two maps: `Contents()`, the last writes of the history, which the
iterator lists, and `Reads()`, what `Get` answers. They are the same in a settled store (`Safety.Settled`), and a store
is settled unless a crash came in the middle of a flush with writes unsynced and no flush has succeeded since.

A crash keeps the synced bytes of the log and any prefix of the rest. What it leaves counts as durable from then on.
Checksums and hashes are parameters: everything holds for every checksum and hash function, so nothing rests on a
checksum noticing a corruption. The random level of a skiplist node is any level, filter size and probe count are any
numbers, file sizes are any numbers.

## What was found

* **Flush and unsynced writes.** Between the manifest update and the reset of the log (lsmkv/db.go:434-447) the
  flushed table is live while the log still holds its entries. `Get` asks the memtable first (lsmkv/db.go:276). If the
  log was not synced, a crash there may leave a part of it that ends before the last write of a key; after reopening,
  the memtable then hides the newer version that the table has. The store reads as if the frames that were left had
  been written once more at the end of the history (`Safety.GetReads`, `Crashes.CrashShows`). With SyncBatch or
  SyncNone, writing `k := a`, `k := b`, `j := c`, flushing, and crashing with only the first frame left gives `k = a`
  next to `j = c`, which no prefix of the history explains (`Crashes.UnsyncedFlushReached`). When that can happen is
  known exactly. In any state of any run a crash is recovered from if and only if the frames it leaves in the log give
  the keys they write the values these have in the history that survives (`Crashes.RunRecoversExact`). Seen from
  before a flush: every crash in it recovers the whole history if and only if every part of the log that holds the
  synced frames gives the keys it writes their present values (`Crashes.FlushRecoversExact`). Every such crash leaves
  the map of some prefix with all durable frames if and only if each such part is explained by one
  (`Crashes.FlushPrefixExact`). Enough for both, in a settled store, is that no unsynced frame rewrites a key already
  in the log, which is the guard `Crashes.CrashSafety` uses for whole runs; it is exact for finding the highest
  version of every key (`Crashes.FlushCrashExact`) and not necessary for what is shown
  (`Crashes.RewriteCanBeHarmless`). A log synced before the flush meets it, so SyncFull needs no condition
  (`Crashes.SyncFullCrashSafety`).
* **The iterator and Get.** In such a store the iterator does not agree with `Get`: `collectMerged` takes the highest
  sequence number (lsmkv/db.go:579), so it lists `k = b` where `Get` answers `k = a`, and the next flush makes `Get`
  answer `b` (`Db.IteratorDisagrees`, `Db.DisagreementReached`). They agree on every key if and only if the log gives
  the keys it writes the values they have in the history (`Db.ReadsAgreeExactly`, `Safety.GetIsPlainMap`). What the
  iterator lists is the plain map in every state (`Db.DB.CollectMerged`), and a flush makes `Get` follow it
  (`Db.FlushSettles`).
* **Empty keys.** `Put` and `Delete` refuse the empty key; a batch does not. The log's decoder turns it into nil
  (internal/wal/wal.go:477, 522), and Writer.Add refuses nil (internal/sstable/sstable.go:117). So an empty key
  written in a batch flushes well unless the store is opened again first; after that no flush succeeds any more,
  neither on its own nor in a write or in Close, and writes that set one off report an error although they have been
  applied. A flush fails exactly then (`Db.DB.FlushLocked`, `Db.Open`, `Db.NilKeyStays`).
* **Order of tables.** The comment at lsmkv/db.go:286 says tables are in age order. After the fallback of CompactDir
  (internal/compact/compact.go:211-214) they are not. Lookups are right all the same, because they compare sequence
  numbers; no proof here uses the order.
* **Equal keys.** Writer.Add lets a key through twice (internal/sstable/sstable.go:121). A seek then finds the first
  entry if and only if no later entry of that key is a restart point (`Blocks.LandingExact`,
  `Blocks.SeekSkipsEqualKey`).

## Preconditions the source does not check

* The keys a caller puts in a batch are not nil: `Write` takes any key (lsmkv/db.go:339), while Writer.Add refuses a nil
  one. Empty keys are allowed, and those that decoding turns into nil are modelled.
* A table's keys are strictly ascending wherever a search in it is spoken of; memtable snapshots and merges are.
* Sequence numbers stay below 2^64; lengths fit in their fields: below 2^32 bytes of entries in a block, below 2^64
  bytes in a file, below 2^16 bytes for a name or key in the binary manifest.
* The open-file calls, writes, syncs, renames and removals succeed, unless there is a crash.

## Model

| member | source | states |
|---|---|---|
| `Db.DB.Put` | lsmkv/db.go:222-243 | answers by key, state and size limit in the source's order; on success the plain map and what Get answers gain the pair, one frame is added to the history and the whole history is acknowledged; the memtable grows by key, value and 16 bytes, or by the difference of the values for a key it has, and is flushed exactly when that brings it to its limit; else nothing changes but the counter; a write whose flush fails is there all the same |
| `Db.DB.FlushIfFull` | lsmkv/db.go:239-242 | every write ends so: below the limit the memtable stays; at the limit it is flushed and empty, or stays when a nil key makes the flush fail |
| `Db.DB.Delete` | lsmkv/db.go:246-267 | the same for a tombstone: the key is gone from the plain map and from what Get answers, whatever tables still hold; a known key gives back the bytes of its value, a new one costs its length and 16 |
| `Db.DB.Write` | lsmkv/db.go:339-373 | a batch, empty keys included, goes in whole or not at all, as one acknowledged frame: the plain map becomes the old one with the operations applied in order, so does what Get answers; the memtable is the old one with the frame replayed, grown operation by operation as by Put and Delete, and flushed exactly when full unless a nil key is in it, which the caller is told |
| `Db.DB.WriteLogged` | lsmkv/db.go:351-368 | one frame is appended and the memtable entries carry exactly the sequence numbers inside that frame |
| `Db.DB.SetBatch` | lsmkv/db.go:359-368 | the numbers recovered from NextSeq are those the log gave out, so the memtable is the old one with the frame replayed |
| `Db.DB.Get` | lsmkv/db.go:270-308 | in every state between operations of every run, whatever crashes came before: the answer of the map that the history with the log written once more at its end makes; in a settled store that is the plain map of the last write per key, deleted and absent keys included |
| `Db.DB.Sync` | lsmkv/db.go:376-383 | afterwards every byte of the log and every frame of the history is durable; neither the plain map nor what Get answers changes |
| `Db.DB.Flush` | lsmkv/db.go:386-396 | fails exactly when the memtable holds a nil key, and then changes nothing but the next file name; otherwise the memtable is empty, the plain map is what it was and Get answers it, also where it did not before |
| `Db.DB.FlushLocked` | lsmkv/db.go:398-449 | the state afterwards is that of the protocol's four flush steps, the table list gains the memtable under the next name and the manifest a record of it at level 0 with its entry count, least and greatest key and number; the plain map is unchanged and the store settled; with a nil key in the memtable nothing is lost or gained; an empty memtable is left alone |
| `Db.DB.WriteTable` | lsmkv/db.go:403-437 | after name, table and manifest the directory is that of the protocol in the window of a flush; a nil key ends it after the name |
| `Db.DB.ResetLog` | lsmkv/db.go:443-447 | the log is empty, the counter has not gone down and is at least the flushed maximum |
| `Db.DB.Bounds` | lsmkv/db.go:409-424 | the loop finds highest sequence number, first and last key of the snapshot |
| `Db.DB.Compact` | lsmkv/db.go:452-517 | no key reads differently, in Get or in the iterator, whatever the log hides; with two tables and the threshold met, tables and manifest records are afterwards those of the files the rule of PickInputs does not choose, in their order, and last the merge of the chosen ones, recorded at level 1 with its size, entry count, least and greatest key and number; there are strictly fewer tables; otherwise nothing changes |
| `Db.ChosenGo` | lsmkv/db.go:485-516 | so no chosen table is left and every other one is: with two tables at level 0 no old level-0 table remains |
| `Db.DB.WriteMerged` | lsmkv/db.go:470-483 | the new file holds the merge of the picked tables, before anything refers to it |
| `Db.DB.Install` | lsmkv/db.go:485-516 | memory and manifest hold the kept tables in order and the new one last; the merged files are gone |
| `Db.DB.Refs` | lsmkv/db.go:464-475 | matching tables to manifest records by name gives back the manifest's list |
| `Db.DB.Part` | lsmkv/db.go:485-498 | kept tables are those of the manifest without the removed names, in order; the names collected are exactly the removed ones |
| `Db.DB.RemoveFiles` | lsmkv/db.go:512-514 | exactly the merged files go, each removal being a protocol step that keeps the invariant |
| `Db.DB.Close` | lsmkv/db.go:183-216 | a closed store has all its log bytes durable; unless it is read-only or holds a nil key nothing is left in the memtable and reads are those of the plain map; the failure of the flush is reported |
| `Db.Open` | lsmkv/db.go:104-151 | a directory left by any run and any crash, with the log cut at any byte, opens, and lists the plain map of the frames that survive; any directory whose log is such a cut opens if and only if no listed table is missing, as the object of the protocol's open step; the memtable holds a nil key exactly when the log writes the empty key |
| `Db.OpenNew` | lsmkv/db.go:104-151 | an empty directory opens as an empty store, in a state that meets every precondition above |
| `Db.DB.Recover` | lsmkv/db.go:126-151 | raising the counter, opening the tables and replaying the log make the state of the protocol's open step, unless a table is missing |
| `Db.DB.RecoverSeq` | lsmkv/db.go:126-131 | the counter becomes the maximum of what log and manifest know |
| `Db.DB.OpenTables` | lsmkv/db.go:153-169 | one table for every manifest record, in the manifest's order; fails exactly when a file is missing |
| `Db.DB.ReplayWal` | lsmkv/db.go:171-180 | the memtable becomes the replay of every entry of the recovered log, and its empty key, if there is one, is nil |
| `Db.CrashAndReopen` | lsmkv/db.go:104-180 | a crash of any store between operations, at any byte past the durable ones, leaves what Open asks for; what comes up has the map of a frame prefix with every durable frame, and Get answers it overwritten by the frames left in the log, which changes nothing when the store was settled |
| `Db.CrashAnywhere` | lsmkv/db.go:104-180 | the same for a crash at any moment inside any operation of any run |
| `Db.ReadsAgreeExactly` | lsmkv/db.go:270-308 | Get and the iterator agree on every key if and only if the log gives the keys it writes the values they have in the history, in every state between operations of every run |
| `Db.FlushSettles` | lsmkv/db.go:398-449 | a flush of any store leaves one in which the two agree and no later crash outside a flush can part them |
| `Db.IteratorDisagrees` | lsmkv/db.go:569-608 | a store where they do not: Get answers the first value of a key, the iterator lists the second, and a flush makes Get answer the second |
| `Db.DisagreementReached` | lsmkv/db.go:434-447 | a run that gets there: three writes, a flush and a crash in it |
| `Db.NilKeyStays` | internal/wal/wal.go:477-522 | a store that cannot flush has the empty key in its log, so opening it again does not help |
| `Db.SyncFullLosesNothing` | lsmkv/db.go:79-88 | with every write synced all log bytes are durable between operations, and a crash and reopening give back the whole history and exactly the map there was, in Get and in the iterator |
| `Db.SyncBatchLosesFew` | internal/wal/wal.go:359-371 | syncing every N-th append, any crash between operations takes at most the frames appended since the count was last divisible by N, fewer than N, of all that any call has written; what comes up is the map of the others |
| `Db.SyncBatchLosesExactly` | internal/wal/wal.go:359-371 | without calls of Sync the bound is met by the crash that keeps only the durable bytes |
| `Db.MapOfConcat` | lsmkv/db.go:339-373 | the map of a history with a batch's entries appended is the map with the batch applied |
| `Db.DB.CollectMerged` | lsmkv/db.go:569-608 | lists exactly the keys of the plain map with their values, each key before the next in dictionary order of bytes, whatever order the tables are visited in, in every state between operations of every run |
| `Db.NewestStep` | lsmkv/db.go:577-583 | offering one more version keeps, for every key, the newest version seen |
| `Db.MergedTop` | lsmkv/db.go:569-608 | the newest version over memtable and tables shows what the plain map holds, also where Get answers otherwise |
| `Db.Iterator.Seek` | lsmkv/db.go:620-627 | every key before the one it ends on comes before the target in dictionary order, that one does not; on none if all do |
| `Db.Iterator.Next` | lsmkv/db.go:635-643 | moves one item on and becomes invalid after the last |
| `Safety.StepKeeps` | lsmkv/db.go:398-517 | the invariant holds after every durable effect of every operation and after every crash, whatever it leaves of the unsynced frames |
| `Safety.StepSettled` | lsmkv/db.go:398-517 | every step keeps a store settled but a crash that leaves a log with an older version of one of its keys than a table has |
| `Safety.CrashSettled` | lsmkv/db.go:104-180 | and that is exact: such a crash unsettles it, no other does |
| `Safety.GetReads` | lsmkv/db.go:270-308 | memtable-first lookup, in every state between operations of every run and although compaction breaks the age order of tables, answers as if the log had been written once more at the end of the history |
| `Safety.GetIsPlainMap` | lsmkv/db.go:270-308 | it equals a plain map of the last writes on every key if and only if the log gives the keys it writes their values in the history; in a settled store it does |
| `Safety.FindsNewest` | lsmkv/db.go:276-300 | what Get finds is for every key the version with the highest sequence number in the whole history, if and only if no table has a newer version of a key of the log; in a settled store it is |
| `Safety.MemAndTablesCover` | lsmkv/db.go:569-608 | memtable and tables hold the newest version of every key in the history, in every state between operations of every run |
| `Safety.ReadsNewestExact` | lsmkv/db.go:276-300 | asking the memtable first finds the newest version of every key if and only if no table has a newer version of a memtable key |
| `Safety.BestIsTop` | lsmkv/db.go:286-300 | the reverse scan with its strict comparison finds a newest version over any table list |
| `Safety.VersionsAreUnique` | lsmkv/db.go:276-300 | equal key and sequence number mean equal entry over memtable, log and live tables |
| `Safety.CommitKeeps` | lsmkv/db.go:234-242 | the invariant holds after appending a frame and setting its entries |
| `Safety.FlushAddKeeps` | lsmkv/db.go:434-443 | the invariant holds once the flushed table is live and the memtable cleared |
| `Safety.FlushAddCovers` | lsmkv/db.go:398-434 | live tables and memtable together hold the newest version of every key in the history |
| `Safety.CompactionCovers` | internal/compact/compact.go:205-228 | replacing any chosen tables by their merge leaves the newest version of every key over all tables the same |
| `Safety.CompactReplaceKeeps` | lsmkv/db.go:489-510 | the invariant holds after the manifest names the merged table instead of its inputs |
| `Safety.CompactionShrinks` | lsmkv/db.go:461-515 | a compaction of two or more tables leaves strictly fewer |
| `Safety.CompactionKeepsMaxSeq` | lsmkv/db.go:504-509 | the highest sequence number recorded over the files does not go down in a compaction |
| `Safety.SequenceFresh` | internal/wal/wal.go:237-247 | the next number is above every one in memtable, log and live tables |
| `Safety.OpenKeeps` | lsmkv/db.go:116-151 | the invariant holds after reopening |
| `Safety.CrashKeeps` | lsmkv/db.go:104-180 | a crash keeps the invariant, whatever part of the unsynced frames it leaves |
| `Counters.NothingReused` | internal/manifest/manifest.go:242-284 | over any run with any crashes and any sync policy: live names are distinct, were handed out and are not the next name; the manifest's record of every live file has its entry count, highest number, least and greatest key; while the store is up the next sequence number is above all in use |
| `Counters.StepCounted` | internal/manifest/manifest.go:242-314 | every single step keeps file names and sequence numbers ahead of what is in use |
| `Crashes.CrashSafety` | lsmkv/db.go:398-517 | any run and a crash between any two steps: what reopens is the plain map of a prefix of the history with every durable frame, when each flush starts with a log whose unsynced frames rewrite no key of the log |
| `Crashes.RunRecoversExact` | lsmkv/db.go:104-180 | in every state of every run, under any policy and after any crashes: a crash is recovered from, to the plain map of the frames that survive, if and only if the frames it leaves in the log give the keys they write their values in that history |
| `Crashes.CrashRecoversExact` | lsmkv/db.go:104-180 | the same from any state of the invariant |
| `Crashes.CrashShows` | lsmkv/db.go:104-180 | what any crash comes to: the reopened store reads as if the frames left in the log had been written once more after the frames that survive |
| `Crashes.SyncFullCrashSafety` | lsmkv/db.go:79-88 | with every write synced the same holds of every run without condition, and every acknowledged frame survives |
| `Crashes.SafeCrashRecovers` | lsmkv/db.go:104-180 | the recovered map is that of whole frames only: a batch is there in full or not at all |
| `Crashes.FlushCrashExact` | lsmkv/db.go:434-447 | the version-level condition: after every crash in the window between manifest add and log reset, lookups find the highest version of every key if and only if they would after a crash before the flush and no unsynced frame rewrites a key already in the log; sufficient for what is shown, not necessary |
| `Crashes.WindowRewrites` | lsmkv/db.go:434-447 | what a crash in the window comes to, harmful or not: the reopened store reads as if the frames left in the log had been written once more at the end of the history |
| `Crashes.FlushRecoversExact` | lsmkv/db.go:434-447 | every crash in the window is recovered from, to the map of the whole history, if and only if before the flush each part of the log that holds the synced frames gives the keys it writes their present values |
| `Crashes.FlushPrefixExact` | lsmkv/db.go:434-447 | every crash in the window leaves the map of some history prefix with all durable frames if and only if before the flush each such part of the log is explained, on the keys of the log, by one such prefix |
| `Crashes.NoRewriteTells` | lsmkv/db.go:434-447 | a log that gives its keys their present values and whose unsynced frames rewrite no key of it meets the condition of FlushRecoversExact |
| `Crashes.TellsExplains` | lsmkv/db.go:434-447 | and that condition implies the one of FlushPrefixExact |
| `Crashes.RewriteCanBeHarmless` | lsmkv/db.go:434-447 | two unsynced writes of one key: neither condition needs the absence of rewrites |
| `Crashes.SyncBatchLoss` | internal/wal/wal.go:359-371 | syncing after every n-th append, no crash of any run takes n acknowledged frames, and between operations it takes no more frames, acknowledged or not, than were appended since the count was last divisible by n |
| `Crashes.SyncBatchLossExact` | internal/wal/wal.go:359-371 | in a run without calls of Sync exactly that many frames are unsynced between operations, and some crash takes them all |
| `Crashes.FlushWindowExact` | lsmkv/db.go:434-447 | the same condition on the log and tables themselves, both directions |
| `Crashes.UnsyncedFlushReached` | lsmkv/db.go:434-447 | three writes and such a crash under a policy that does not sync: the reopened store shows the first write's value beside the third write's, which no prefix of the history explains |
| `Crashes.UnsyncedFlushMixes` | lsmkv/db.go:270-308 | every store in that situation reads differently from every prefix of its history |
| `Images.CutIsCrash` | internal/wal/wal.go:111-178 | the frames whole in any surviving part of the log bytes number at least the synced ones |
| `Images.DurableIsSynced` | internal/wal/wal.go:111-178 | cut right behind the durable bytes, the log has exactly the synced frames |
| `Images.CrashImage` | lsmkv/db.go:104-151 | bytes left by a crash are the image of the crashed protocol state |
| `Images.RecoveredLog` | internal/wal/wal.go:81-134 | recovery keeps exactly the bytes of the surviving frames, finds their highest number, and replay gives their entries |
| `Wal.TornTailExact` | internal/wal/wal.go:111-178 | for a log of frames cut at any byte the scan stops at the largest frame boundary not past the cut and returns the highest number before it |
| `Wal.WholeIsLargest` | internal/wal/wal.go:136-178 | the boundary is not past the cut and the next one is |
| `Wal.AppendAfterTear` | internal/wal/wal.go:111-134 | after the tail is cut off, further appends give a log that replays as old prefix plus new records |
| `Wal.FrameRoundTrip` | internal/wal/wal.go:180-225 | decoding what was encoded gives back the records for batches of any length; the peeked number is the highest decoded one |
| `Wal.FrameLayout` | internal/wal/wal.go:329-357 | a frame byte by byte: payload length in four bytes, type, checksum in four bytes, lowest first, then the payload |
| `Wal.BatchRoundTrip` | internal/wal/wal.go:497-543 | the batch payload decodes to its entries in order |
| `Wal.WholeFrame` | internal/wal/wal.go:329-357 | a complete frame is read back with the bytes behind it untouched |
| `Wal.CutFrame` | internal/wal/wal.go:136-178 | a frame cut in header or payload is not read |
| `Wal.ReplayExact` | internal/wal/wal.go:401-447 | a log of whole frames replays as the records written, in order |
| `Wal.ScanFits` | internal/wal/wal.go:136-178 | on any bytes at all the recovered number is a 64-bit number |
| `Wal.ScanValidPrefix` | internal/wal/wal.go:136-178 | the offset loop computes the scan on any file |
| `Wal.DecodeBatch` | internal/wal/wal.go:497-543 | the item loop computes the batch decoder on any payload |
| `Wal.AllocatedAt` | internal/wal/wal.go:244-247 | item i of a batch gets the counter plus i + 1 |
| `Wal.Log.constructor` | internal/wal/wal.go:81-134 | opening cuts the invalid tail off and takes the counter from what is left |
| `Wal.Log.AppendPut` | internal/wal/wal.go:250-263 | appends one put frame numbered one above the counter, or refuses a payload over the limit with the file unchanged and the number used up; what is durable afterwards |
| `Wal.Log.AppendDelete` | internal/wal/wal.go:265-280 | the same for a tombstone |
| `Wal.Log.AppendBatch` | internal/wal/wal.go:287-317 | one frame whose numbers are the batch length below NextSeq; empty and refused batches leave the file alone |
| `Wal.Log.BatchPayload` | internal/wal/wal.go:294-308 | the encoding loop gives the payload of the numbered entries |
| `Wal.Log.WriteFrame` | internal/wal/wal.go:329-357 | header and payload are appended, or nothing |
| `Wal.Log.MaybeSync` | internal/wal/wal.go:359-371 | with a count N the log is synced exactly when N divides the number of appends; without one always or never, as the options say |
| `Wal.SyncsOneInN` | internal/wal/wal.go:359-371 | of any N appends in a row exactly one is synced |
| `Wal.Log.Replay` | internal/wal/wal.go:401-447 | the loop gives the records of the valid frames, or fails if one cannot be decoded |
| `Wal.Log.Reset` | internal/wal/wal.go:546-563 | the file is empty and the counter unchanged |
| `Wal.Log.SetNextSeq` | internal/wal/wal.go:565-571 | the counter only rises |
| `Wal.Log.Close` | internal/wal/wal.go:383-398 | everything is durable once closed |
| `SkipLists.SkipList.Set` | internal/memtable/skiplist.go:79-125 | with any level for a new node the list stays well linked and holds the old entries with the new one upserted: higher number wins, the later write on ties; the byte count changes by the lengths of key and value as UpsertBytes says |
| `SkipLists.UpsertBytes` | internal/memtable/skiplist.go:92-129 | an empty table weighs nothing; a new key adds its length, the value's and 16; a newer version of a known key the difference of the values' lengths; an older one nothing |
| `SkipLists.SkipList.FindPath` | internal/memtable/skiplist.go:82-90 | on every level in use, the last node before the key |
| `SkipLists.SkipList.Splice` | internal/memtable/skiplist.go:103-124 | the new node is linked in on all its levels and every level is still a sorted sublist of the one below |
| `SkipLists.SkipList.ReplaceEntry` | internal/memtable/skiplist.go:92-101 | the entry is replaced in place and the byte count follows |
| `SkipLists.SkipList.Get` | internal/memtable/skiplist.go:132-149 | the multi-level search is lookup in the sorted table |
| `SkipLists.SkipList.Snapshot` | internal/memtable/skiplist.go:274-285 | every entry in key order |
| `SkipLists.SkipList.AscendRange` | internal/memtable/skiplist.go:302-324 | visits the entries from the first key >= lo up to the first key >= hi until told to stop |
| `SkipLists.VisitedExact` | internal/memtable/skiplist.go:302-324 | those in the range in order, up to and with the first on which the callback answers false |
| `SkipLists.SkipList.MaxSeq` | internal/memtable/skiplist.go:327-337 | the highest number in the table |
| `SkipLists.SkipList.Clear` | internal/memtable/skiplist.go:171-179 | an empty list with new nodes |
| `SkipLists.WalkExact` | internal/memtable/skiplist.go:20-43 | following level i from the head meets exactly the nodes at least that high, in order |
| `SkipLists.SuccInserted` | internal/memtable/skiplist.go:103-124 | how every link of every level changes when a node is put in |
| `Entries.UpsertLookup` | internal/memtable/skiplist.go:92-125 | after a set the key holds the entry unless a higher number was there, and other keys are untouched |
| `Entries.ReplayCovers` | lsmkv/db.go:171-180 | a table replayed from any writes is sorted and holds the newest version of every key |
| `Entries.FirstLookExact` | lsmkv/db.go:276-300 | looking in one table first is right if and only if it is at least as new on its keys |
| `Entries.TopIsLastWrite` | lsmkv/db.go:296-307 | with numbers that follow the writes, the newest version is the last write |
| `Sstables.Writer.Add` | internal/sstable/sstable.go:113-162 | closed, nil-key and out-of-order errors in the source's order; otherwise the writer holds one more entry, its block cut where the source cuts it |
| `Sstables.Writer.AddToBlock` | internal/sstable/sstable.go:133-156 | the block buffer and restart list are those of the entries with prefix compression |
| `Sstables.Writer.FlushBlock` | internal/sstable/sstable.go:164-202 | a non-empty block is sealed, written and indexed by last key, offset and length |
| `Sstables.Writer.Finish` | internal/sstable/sstable.go:205-280 | the file is blocks, filter, index and footer of everything added; the metadata are those of the entries |
| `Sstables.WriteFile` | internal/sstable/sstable.go:759-771 | writes a file if and only if the keys ascend, and which bytes |
| `Sstables.BlocksHold` | internal/sstable/sstable.go:153-161 | at any block size the blocks hold the entries in order and none is empty |
| `Sstables.BlocksFull` | internal/sstable/sstable.go:153-161 | every block but the last reaches the block size with its last entry and not before |
| `Sstables.FileOpens` | internal/sstable/sstable.go:316-421 | opening a written file gives back index, filter and counts |
| `Sstables.BlockAt` | internal/sstable/sstable.go:193-197 | every index record leads to its block's bytes and names its last key |
| `Sstables.ReadBlockOf` | internal/sstable/sstable.go:450-464 | reading a block by its index record gives its body |
| `Sstables.IndexRoundTrip` | internal/sstable/sstable.go:374-406 | parsing an encoded index of any length gives it back |
| `Blocks.EntryOf` | internal/sstable/sstable.go:505-555 | an encoded entry is read back after any key it shares enough of a prefix with |
| `Blocks.ReadAt` | internal/sstable/sstable.go:133-152 | entry i of a block is read back after entry i - 1 or, at a restart point, after no key at all |
| `Blocks.SharedExact` | internal/sstable/sstable.go:133-139 | an entry shares nothing every R-th time, else the longest prefix it has in common with the key before it |
| `Blocks.StartsExact` | internal/sstable/sstable.go:136-138 | the restart points are exactly the multiples of R |
| `Blocks.RestartTail` | internal/sstable/sstable.go:136-138 | each restart offset is where the entry it stands for begins |
| `Blocks.BodyParses` | internal/sstable/sstable.go:477-493 | splitting a block body gives back entry bytes and restart offsets |
| `Blocks.LandingExact` | internal/sstable/sstable.go:559-593 | on what Writer.Add accepts a seek ends on the first entry with key >= target if and only if no later entry of that key is a restart point |
| `Blocks.LandingSorted` | internal/sstable/sstable.go:559-593 | on strictly ascending keys it always does, as a linear scan would |
| `Blocks.SeekSkipsEqualKey` | internal/sstable/sstable.go:121-123 | two entries of one key, which Writer.Add lets through, where a seek passes the first |
| `Blocks.BlockIter.Next` | internal/sstable/sstable.go:505-555 | on any block bytes, reads one entry or becomes invalid |
| `Blocks.BlockIter.Seek` | internal/sstable/sstable.go:559-593 | binary search and scan end on the entry LandingExact speaks of, or invalid when there is none; both loops end |
| `Blocks.BlockIter.FindRestart` | internal/sstable/sstable.go:571-586 | the binary search picks the last restart whose key is not past the target |
| `Blocks.NewBlockIter` | internal/sstable/sstable.go:495-503 | stands on the first entry; an error exactly when the restart list does not fit |
| `Readers.TableRoundTrip` | internal/sstable/sstable.go:113-421 | any entries at any block size and restart interval: the written file opens, its blocks hold exactly these entries in order and its filter admits every key |
| `Readers.Reader.Get` | internal/sstable/sstable.go:596-623 | through filter, index search and block seek: exactly lookup in the written entries, for every key, present or absent |
| `Readers.Reader.SearchIndex` | internal/sstable/sstable.go:604-606 | the index search finds the first block whose last key is not before the key |
| `Readers.LookupInBlock` | internal/sstable/sstable.go:603-609 | looking in that one block is looking in the whole table |
| `Readers.SearchInBlock` | internal/sstable/sstable.go:684-703 | the first key >= target of the table is in that block |
| `Readers.Open` | internal/sstable/sstable.go:316-421 | the error or fields the file format gives, and on a written file a reader of its entries |
| `Readers.Iterator.Next` | internal/sstable/sstable.go:646-675 | drops exactly the first of the entries still ahead, across block ends |
| `Readers.Iterator.Seek` | internal/sstable/sstable.go:678-708 | ahead are the entries from the first key >= target on |
| `Readers.Scan` | internal/sstable/sstable.go:634-675 | iterating a written table yields exactly its entries in order |
| `Readers.WriteAndOpen` | lsmkv/db.go:425-441 | what a flush writes and opens again holds its snapshot |
| `Files.StorableIsSized` | internal/sstable/sstable.go:153-161 | entries that fit in log frames never overflow a block: their file records every size it has to |
| `Files.Get` | lsmkv/db.go:270-308 | with readers of table files in the place of entry lists, through filter, index and block search, Get answers what the store's does |
| `Files.CollectMerged` | lsmkv/db.go:569-608 | collecting over the iterators of the table files lists the plain map |
| `Files.BestInFiles` | lsmkv/db.go:286-300 | the loop over table files, last to first, finds what the loop over entry lists finds |
| `Files.Flush` | lsmkv/db.go:398-449 | a flush that writes the table file leaves every open table backed by the file the writer made of its entries; with a nil key there is no new file |
| `Files.Compact` | lsmkv/db.go:452-517 | and so does a compaction that reads its inputs from files and writes one |
| `Files.MergeReaders` | internal/compact/compact.go:45-150 | merging tables iterated from their files gives the merge of their entries |
| `Files.OpenTables` | lsmkv/db.go:153-169 | opening the files the writer made gives a reader of each table's entries |
| `Bloom.BuiltAdmits` | internal/bloomx/bloom.go:282-288 | no false negatives, for every hash, size and number of probes |
| `Bloom.BuiltExact` | internal/bloomx/bloom.go:282-288 | a built filter has exactly the bits that some round of some recorded key probes, and has counted every key |
| `Bloom.ProbeIsWord` | internal/bloomx/bloom.go:115-126 | round by round the second hash is added to the first in 64 bits and the remainder by m probed |
| `Bloom.AddedAdmits` | internal/bloomx/bloom.go:115-140 | adding a key makes the filter admit it and takes no key away |
| `Bloom.MarshalRoundTrip` | internal/bloomx/bloom.go:195-230 | unmarshalling a marshalled filter gives it back |
| `Bloom.Filter.Add` | internal/bloomx/bloom.go:115-126 | the probing loop sets exactly the bits of the key |
| `Bloom.Filter.Contains` | internal/bloomx/bloom.go:128-140 | true exactly when all probed bits are set |
| `Bloom.Filter.SetBit` | internal/bloomx/bloom.go:106-108 | sets one bit and no other |
| `Bloom.Filter.Merge` | internal/bloomx/bloom.go:243-255 | the bytes are or-ed and the counts added, for any filter of the same shape, this one included; else nothing changes |
| `Bloom.UnionAdmits` | internal/bloomx/bloom.go:243-255 | the bits of the merged filter are exactly those of either, and it admits what either admits |
| `Bloom.Build` | internal/bloomx/bloom.go:282-288 | the built filter admits every recorded key |
| `Compact.MergeFiles` | internal/compact/compact.go:45-150 | the heap merge writes exactly the merge specification; entries written and dropped add up to entries read; the writer refuses none |
| `Compact.MergeCovers` | internal/compact/compact.go:97-133 | the merge is strictly ascending and holds, for every key of any input, a newest version |
| `Compact.MergeHoldsWinners` | internal/compact/compact.go:159-168 | the entry that comes first in the order of the heap is in the merge, for every key |
| `Compact.EarliestWins` | internal/compact/compact.go:159-168 | of all versions of a key the one with the highest number is in the merge, of equal ones that of the earliest input |
| `Compact.DropTombstonesInvisible` | internal/compact/compact.go:109-122 | dropping tombstones of a merge over all inputs changes no value shown |
| `Compact.TakeNext` | internal/compact/compact.go:97-107 | the popped item is the least unread one and its successor takes its place in the heap |
| `Compact.MergeHeap.Push` | internal/compact/compact.go:157-178 | the heap gains the item and keeps its order |
| `Compact.MergeHeap.Pop` | internal/compact/compact.go:157-178 | removes an item that comes before every other |
| `Compact.PlanLevel0` | internal/compact/compact.go:180-194 | exactly the level-0 files, each once and in order, if there are as many as the threshold, 4 by default; else none |
| `Compact.PickInputs` | internal/compact/compact.go:205-215 | with two files at level 0 exactly the level-0 files, each once and in list order, else the first two files; no inputs exactly when there are fewer than two files |
| `Manifest.FileNameInjective` | internal/manifest/manifest.go:242-251 | different numbers have different names, past six digits too |
| `Manifest.FileNameForm` | internal/manifest/manifest.go:242-251 | a name is the decimal number padded with zeros to six digits, more if it has more, and .sst |
| `Manifest.AllocKeepsNames` | internal/manifest/manifest.go:242-251 | the name handed out belongs to no live file |
| `Manifest.AddKeepsNames` | internal/manifest/manifest.go:254-262 | live names stay distinct and handed out when a file is added |
| `Manifest.ReplaceKeepsNames` | internal/manifest/manifest.go:265-284 | and when files are replaced |
| `Manifest.Manifest.AllocFileName` | internal/manifest/manifest.go:242-251 | names count up and the new state is durable |
| `Manifest.Manifest.AddFile` | internal/manifest/manifest.go:254-262 | the file is appended and the watermark only rises |
| `Manifest.Manifest.ReplaceFiles` | internal/manifest/manifest.go:265-284 | what is left is exactly the files that are not named, each once and in order, and then the new ones |
| `Manifest.Manifest.MaxSeqAmongFiles` | internal/manifest/manifest.go:304-314 | the highest number recorded over the files |
| `ManifestCodec.RoundTrip` | internal/manifest/manifest.go:98-172 | decoding an encoded manifest of any number of files within the field widths gives it back |
| `ManifestCodec.EncodeBinary` | internal/manifest/manifest.go:323-356 | the loop writes the format |
| `ManifestCodec.DecodeBinary` | internal/manifest/manifest.go:98-172 | the loop reads the format and refuses what does not parse or has the wrong checksum |
| `Varint.RoundTrip` | internal/varintx/varint.go:41-93 | any 64-bit number decodes from its encoding whatever follows, consuming exactly the encoding, at most ten bytes |
| `Varint.EncodeAt` | internal/varintx/varint.go:41-47 | byte i of an encoding is digit i of the number in base 128, lowest first, with the top bit set on all but the last, and there are as many bytes as digits |
| `Varint.DecodeExact` | internal/varintx/varint.go:76-93 | on any bytes: truncated exactly when there are at most ten and none ends the number, overflow exactly when the tenth is over 1 or does not end it and more follow, else the number up to the first byte that ends it |
| `Varint.DecodeFits` | internal/varintx/varint.go:76-93 | a successful decode never exceeds 64 bits nor reads past the buffer |
| `Varint.SizeUint64` | internal/varintx/varint.go:23-33 | the length of the encoding |
| `Varint.EncodeUint64` | internal/varintx/varint.go:41-47 | appends the encoding |
| `Varint.PutUint64` | internal/varintx/varint.go:55-68 | writes the same bytes in place, or nothing into a buffer that is too short |
| `Varint.DecodeUint64` | internal/varintx/varint.go:76-93 | the shifting loop computes the decoder on any bytes, overflow and truncation told apart |
| `Varint.Reader.Uint64` | internal/varintx/varint.go:147-168 | succeeds exactly when DecodeUint64 does, with the same value and length |
| `Bytes.OrderIsTotal` | internal/byteutil/bytes.go:18-20 | key comparison is a strict total order |
| `Bytes.LessExact` | internal/byteutil/bytes.go:18-20 | the dictionary order: at the first place where two keys differ the smaller byte decides, and a prefix comes before what it is a prefix of |
| `Bytes.LEAt` | internal/wal/wal.go:329-357 | byte i of a little-endian number is its digit i in base 256 |
| `Bytes.SharedPrefixLen` | internal/byteutil/bytes.go:184-194 | the longest common prefix |

## Left out

- Readers.Reader.Get, Readers.Iterator.Seek and Readers.Iterator.Next: results are stated for files the writer made; on other bytes they are only known to end and to report an error for a block that does not read. The source slices such bytes without full checks.
- Readers.Open: lengths in a footer that do not fit in 63 bits are read errors here; the source converts them to negative numbers.
- Blocks.BlockIter.Next: an entry that shares more than the key before it has makes the iterator invalid here; the source panics or takes stale bytes.
- Wal.FrameRoundTrip: is about payloads the log writes; on others, where a length runs past the payload, the source panics or ignores it at the very end, and here nothing is peeked.
- Wal.Log.AppendPut, Wal.Log.AppendDelete and Wal.Log.AppendBatch: do not model a sequence counter that wraps at 2^64 nor a write that stops half way without a crash.
- Db.DB.Write: a nil key handed in by the caller is not modelled, as written above; the nil keys that decoding makes are.
- Db.Open: the log is a cut of what the store wrote; other bytes, the empty directory name and the lock file are not modelled.
- Db.DB.Compact and Db.DB.FlushLocked: a table is the list of its entries there; `Files` puts readers of the written files in its place. Error returns that leave memory and disk apart (lsmkv/db.go:499-511) are outside.
- Files.Flush and Files.Compact: take it that the table file is shorter than 2^64 bytes.
- Compact.MergeFiles: walks entry lists; it never looks at an iterator's error in the source either (internal/compact/compact.go:97-133), so blocks are taken to be intact.
- SkipLists.SkipList.Set: `randomLevel` is not modelled, its result is a parameter.
- Bloom.BuiltAdmits: sizing by `OptimalBits` and `OptimalHashFuncs`, `EstimateFP`, `FillRatio` and the mixing of hash bits are left out; only the absence of false negatives matters to the store.
- Manifest.Manifest.AddFile and the other updates: JSON, the temporary file, rename and `UpdatedAt` are one atomic durable step.
- Varint.RoundTrip: ZigZag, the 32-bit forms, pairs, `Skip` and the writer object would only add easy members.
- Locking: every operation runs under the store's mutex, so operations are atomic here; goroutines, pools and the memtable's own iterator, which the store does not use, are left out.
- internal/crc32x arithmetic, internal/filelock, internal/prefixscan, the buffers of internal/byteutil, `Stats`, `String`, `Has`, `PathFor`, `PickBySize` and `ValidateSorted`: not part of this model.
