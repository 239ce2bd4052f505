# cachyDB, modelled and proved in Dafny

cachyDB is a log-structured key-value engine. A write goes to a write-ahead log and into a B-tree memtable;
a full memtable is rotated and flushed to slotted pages in the background; a disk index finds the last record
of a key; an LFU cache sits in front; values over 2000 bytes are compressed and stored in chunks; after a crash the
log is replayed. This project models these parts and proves what they promise.

How the files build on each other:

- **Memtable.** `StringOrder`, `BTreeSpec` (trees as values: contents, shape, insertion, height) and `BTreeMemTable`
  (the mutable nodes, proved to carry out the value-level tree and so one map update).
- **Pages.** `Bytes`, `PageFormat`, `Pager` (byte layout, insert, delete, in-place compaction, round trips both ways),
  `TableHandler` (file and page cache), `DiskPages` (pages as lists of records, index against scan), `Records`,
  `TableFlush` and `MemtableFlush` (index building, reading, the page-fill loop), `CrashPages` (what a crash leaves of
  a table file), `Compactor` (the rewriting loop).
- **Log.** `WalLog` (the log as a map), `WalFile` and `WalBatch` (one file's bytes, the three writes of a batch),
  `WalStore` and `WalSteps` (many files as one log, restart, checkpoint), `WalIo` (every change of a file, one by one,
  and what a reader finds wherever they stop), `WalWrite` and `Wal` (the object), `Checkpoint`.
- **Cache and router.** `LfuCache`; `Json`, `ChunkStore`, `Router` (chunked records, cache and memtables refine a plain
  map), `RecordSizes`; `CodecWitness` (a codec that meets every law asked of one).
- **Whole runs.** `Namespace`, `Engine` (the state machine and its invariant), `Progress` (every flush can be finished),
  `Recovery` (crash and replay), `LostMark` (a run that a lost mark spoils), `LargeRecovery` (chunked records after a
  restart), `BulkWrite` (bulk writes after a restart). `WalRefinement` shows that the byte-level log carries out the log steps of `Engine`,
  in the middle of a writer round too; `RouterRefinement` that a page-level flush is the map update `Router` makes of it;
  `MemtableFlush` and `CrashPages` that a mixture of old and new page images lies between the pages before and after a
  flush, which is what `Recovery` lets a crash leave of them.

JSON, UTF-8, zlib and base64 are parameters with the laws named in `Json.LawfulCodec` (decoding undoes encoding, JSON
text is ASCII, base64 lengths as in section 4 of RFC 4648). CRC-32 is an arbitrary function; time stamps, directory
listings and archive failures are parameters. Tree degree, log capacity, payload area, memtable limit and cache capacity
are parameters; the page size is the source's 4096.

Where code and documentation disagree the code is followed: `compact_table` promises to retain active records only, but
deleted keys stay in the new table as null records, because `get_record` and `_unpack_record` report them as values;
`append_many_to_buffer` and the writer are described as atomic, which is modelled as one step each.

The compactor reads the page count as `handler.total_pages()`, but it is a property, so the call raises before the first
page is read (compactor.py:209, table_handler.py:113-114). `Compactor` models the loops behind that line.

Some properties are false of the code in general, and the exact condition is proved instead:

- A restart finds the table of a record if and only if the table name has no colon (`Namespace.NamespaceRoundTrip`). Two
  tables share a record if and only if one name goes on as the other does with a colon (`Namespace.TablesApart`).
- Completion marks are flushed but not synced. A key comes back at its newest logged write, or newer, if and only if no
  mark of the key is lost or that newest write is replayed as well (`Recovery.LostMarksExactly`); `LostMark` is a run and
  a lost mark after which the older of two values comes back.
- The log writer loses its place in a checkpoint if and only if its own file goes and holds a record already
  (`CheckpointModel.RunCheckpoint`, with a concrete log in `CheckpointModel.WritersFileCanGo`). The batch it writes next
  is then not read back (`CheckpointModel.LostBatch`).
- A bulk write takes its ids before the table's lock, so a write that overtakes it is newer in the log and older in the
  memtable. Recovery gives back what readers saw if and only if the last insert has the text of the highest id
  (`BulkWrite.BulkRecovery`, with two writes for which it does not in `BulkWrite.OvertakenBulk`).
- `set_many` writes no chunks, so what it leaves in memory can be flushed if and only if each record fits a page
  (`RouterModel.Router.SetMany`).
- A large value does not come back from the log alone. Recovery puts its chunks into a table `__chunk__`, where no reader
  of the record looks: it comes back if its chunks had reached the disk, and as null if one had not
  (`LargeRecovery.LargeAfterRestart`).
- A restart succeeds if and only if the newest log file's header is accepted or cut short (`WalModel.Restart`). A stop
  between the fill and the header write of a new file leaves zeros, and the restart is refused
  (`WalModel.StoppedCreation`). A stop before the fill leaves an empty file: the restart succeeds, and every batch for
  that file is refused, as `WalModel.WAL.WriteBatchToDisk` says of an unreadable file.

## Model

| member | source | states |
|---|---|---|
| Recovery.CrashSafety | src/cachyDB/database.py:124-157 | over every run from a start with nothing to recover, stopped anywhere, also after the writer has put any first part of its buffer into the files, whatever a crash keeps of unsynced pages and whichever marks it loses, as long as the key's lost marks fit: readers see the last write of each key; every key written to the log comes back at that write or a later one; with the whole buffer written every key comes back exactly as it was |
| Recovery.LostMarksExactly | src/cachyDB/recovery/wal.py:427-440 | marks are flushed and never synced; a key comes back at its newest logged write or newer if and only if none of its marks is lost or that newest write is replayed as well |
| LostMark.StaleAfterLostMark | src/cachyDB/recovery/wal.py:427-440 | a run of ten steps after which the loss of one mark brings an older value back |
| Recovery.RecoveredKey | src/cachyDB/storage/router.py:711-750 | a key comes back as its newest write that is open or whose mark was lost, and otherwise as its newest record on disk |
| Recovery.ReplayedMember | src/cachyDB/database.py:136-150 | the log yields a write exactly if it is open or its mark is lost |
| Recovery.ViewIsNewest | src/cachyDB/storage/router.py:640-709 | in every reachable state readers see a key's newest write, wherever it has got to |
| Recovery.Durable | src/cachyDB/recovery/wal.py:671-786 | a write that reached the log is still yielded by `read_wal` or is covered by synced pages at its own or a newer version, in every reachable state |
| Recovery.RecoveryIsRecent | src/cachyDB/storage/router.py:794-839 | after a crash a key never reads older than any write of it that reached the log, for every mixture of synced and unsynced pages and every loss of marks that fits |
| Recovery.RecoveryIsExact | src/cachyDB/database.py:124-157 | with nothing buffered, replay over the surviving pages gives each key exactly the value readers had |
| Recovery.CrashCovers | src/cachyDB/storage/router.py:832-839 | every write already marked complete is covered by any crash image of its table |
| Recovery.MarkedBeforeOpen | src/cachyDB/storage/router.py:834-839 | completion marks follow the order of writes: a marked write of a key is older than every unmarked one |
| Recovery.SurvivorGenuine | src/cachyDB/storage/router.py:794-824 | a record that survives on disk was really written, with that text, under that transaction |
| Recovery.RecoverTransactions | src/cachyDB/database.py:136-156 | the recovery loop leaves in the memtables the last yielded record of each key, marks every entry, and a second read of the log yields nothing |
| Recovery.ReplayLast | src/cachyDB/database.py:136-150 | replaying a log puts each key's last record into the memtable its own name leads to, and no key into any other |
| Recovery.ArchiveKeepsPending | src/cachyDB/recovery/checkpoint.py:105-138 | archiving a completed file in the running engine takes nothing away from what a reader of the log gets |
| Recovery.IndexAtRest | src/cachyDB/storage/router.py:826-831 | between flushes the disk index is the one a restart would rebuild |
| Engine.StepInv | src/cachyDB/storage/router.py:422-551 | every single step, from log append to dropping the flushed memtable, keeps the invariant that ties memtables, pages, index, marks and log together |
| Engine.RunInv | src/cachyDB/storage/router.py:752-839 | that invariant holds after every run |
| Engine.StepView | src/cachyDB/storage/router.py:521-536 | rotation, each page insert, each index change, sync, marking, dropping the memtable, log writing and archiving change no value any reader sees; a write changes its own key only |
| Engine.TabStepView | src/cachyDB/storage/router.py:786-839 | each step of the background flush leaves the active, immutable, disk lookup of every key as it was |
| Engine.RunView | src/cachyDB/storage/router.py:640-709 | after any run a key reads as the last value written to it |
| Engine.MarkLogOk | src/cachyDB/recovery/wal.py:399-440 | marking closes each flushed transaction once, in memory for a buffered one and on disk for any other |
| Engine.PartLogOk | src/cachyDB/recovery/wal.py:493-506 | writing any first part of the buffer keeps every record and mark, and forgets no completion that came in before |
| Engine.PlaceOk | src/cachyDB/storage/router.py:794-824 | placing a record on a page keeps the pending index changes right for all records placed so far |
| Engine.SetInv | src/cachyDB/storage/router.py:461-500 | a write gets the next id, one log record and one memtable entry, and the invariant holds again |
| Engine.SettledRead | src/cachyDB/storage/router.py:711-728 | a key with no unflushed entry reads through the index exactly as a backward scan of the pages would, even in the middle of a flush |
| Progress.FinishFlush | src/cachyDB/storage/router.py:786-839 | the flush of a table runs to its end from whatever state it is in, and moves nothing but that table's disk side and its marks |
| Progress.Settles | src/cachyDB/storage/router.py:752-839 | from every state the engine can be in there is a run without further writes after which every write to a table has reached the log, is marked complete, and is covered by synced pages, both memtables are empty, and readers see what they saw |
| Namespace.NamespaceRoundTrip | src/cachyDB/database.py:144-148 | recovery puts a record back into the table it was written to if and only if the table name has no colon |
| Namespace.KeyBehindTable | src/cachyDB/database.py:209 | the record's own key stands whole behind the table name and one colon |
| Namespace.KeysApart | src/cachyDB/database.py:209-210 | within a table no two keys share a record |
| Namespace.TablesApart | src/cachyDB/database.py:266-267 | two tables share a record exactly if one name is the other with a colon and more, and the key makes up the difference |
| Namespace.ColonFreeApart | src/cachyDB/database.py:237 | with colon-free table names a record belongs to one table and one key only |
| Namespace.TableOfRead | src/cachyDB/database.py:143-148 | the text before a first colon that is not the first character names the table; without one it is `default` |
| Progress.ArchiveEnabled | src/cachyDB/recovery/checkpoint.py:105-138 | a log file can be archived exactly if it is sealed and none of its writes is open |
| LargeRecovery.ChunkTable | src/cachyDB/database.py:143-153 | recovery puts the chunks of every record into one table of their own |
| LargeRecovery.ChunksFromDisk | src/cachyDB/database.py:136-153 | whatever the log held, the chunks that a reader of the record's table finds after a restart are those on disk |
| LargeRecovery.LargeAfterRestart | src/cachyDB/storage/router.py:553-606 | a large record whose manifest comes back reads as its value if all its chunks had reached the disk, and as null if one had not |
| BulkWrite.BulkRecovery | src/cachyDB/storage/router.py:236-257 | a bulk write takes its ids before the table's lock: recovery gives a key the value readers saw if and only if the write inserted last has the text of the write with the highest id |
| BulkWrite.OvertakenBulk | src/cachyDB/storage/router.py:236-257 | a bulk write and a write that overtakes it, after which readers and recovery disagree |
| DiskPages.RebuildCorrect | src/cachyDB/storage/router.py:287-308 | a key is indexed exactly when its last record is live, and its entry is that record's place |
| DiskPages.IndexedReadIsScan | src/cachyDB/storage/router.py:711-750 | a read through the rebuilt index returns what the full backward scan returns, deletions included |
| DiskPages.AppendIndexes | src/cachyDB/storage/router.py:807-819 | placing a record changes the rebuilt index and the scan for its own key only |
| DiskPages.PendingStep | src/cachyDB/storage/router.py:813-831 | popping the deletions and then updating is the same as having indexed the records one by one, as long as no key occurs twice in a flush |
| DiskPages.LastExtends | src/cachyDB/storage/router.py:733-750 | in a table that has grown by recent records a key's last record is the one it had or a recent one |
| WalLog.StoreAppends | src/cachyDB/recovery/wal.py:553-597 | after a batch the log reads as before followed by exactly the batch's incomplete records |
| WalLog.PendingMember | src/cachyDB/recovery/wal.py:728-781 | an entry is read exactly when it is stored and not marked complete |
| WalLog.PendingAscends | src/cachyDB/recovery/wal.py:690-729 | entries are read in strictly ascending transaction order |
| WalFile.HeaderReads | src/cachyDB/recovery/wal.py:286-296 | a packed file header passes the checksum and magic tests and gives its three fields back |
| WalFile.HeaderParts | src/cachyDB/recovery/wal.py:73-73 | which byte of a header holds what: `WAL1`, capacity, records, bytes used, the checksum of these, padding |
| WalFile.HeaderAccepted | src/cachyDB/recovery/wal.py:127-138 | a header is accepted exactly if it is, up to its padding, the one that is written for the fields returned; otherwise it is short, or its checksum is wrong, or its magic |
| WalFile.EntryLayout | src/cachyDB/recovery/wal.py:75-75 | which byte of an entry and of a payload's frame holds what, and where slots and payloads stand |
| Bytes.BigEndian | src/cachyDB/recovery/wal.py:72-75 | two, four and eight bytes hold a number with the highest byte first |
| WalFile.EntryReads | src/cachyDB/recovery/wal.py:325-326 | a packed entry header gives back its id, its mark and its payload offset, whatever the time stamp |
| WalFile.FileYields | src/cachyDB/recovery/wal.py:696-781 | reading a well-formed file yields its incomplete records byte for byte under their ids |
| WalFile.ReadFile | src/cachyDB/recovery/wal.py:696-781 | the reading loop, with its skips and its stop at a short slot, on any bytes at all |
| WalFile.ReadsBounded | src/cachyDB/recovery/wal.py:757-779 | nothing that is read is empty or longer than the payload area, whatever the bytes are |
| WalFile.ZerosRefused | src/cachyDB/recovery/wal.py:254-263 | a file that is only allocated is refused by every reader, whatever the checksum function is |
| WalFile.StaysUnreadable | src/cachyDB/recovery/wal.py:433-438 | no mark written into an unreadable file makes it readable |
| WalBatch.TornBatch | src/cachyDB/recovery/wal.py:570-585 | after the payload write, and again after the entry write, the file still reads as it did before the batch |
| WalBatch.Invisible | src/cachyDB/recovery/wal.py:570-585 | no write clear of the header, the used slots and the used payload bytes can be noticed by a reader |
| WalBatch.Committed | src/cachyDB/recovery/wal.py:588-595 | the header write makes the whole batch readable at once, behind the old records |
| WalBatch.Marked | src/cachyDB/recovery/wal.py:433-438 | the one-byte mark completes its own record and disturbs no other; on an unused slot it shows nothing |
| WalStore.Address | src/cachyDB/recovery/wal.py:195-224 | a transaction has one file and slot, and a file and slot one transaction |
| WalStore.ReadFiles | src/cachyDB/recovery/wal.py:690-781 | reading the listed files in order yields the incomplete entries of the log they hold, by ascending id; malformed files in between yield nothing |
| WalStore.AppendReads | src/cachyDB/recovery/wal.py:553-597 | `read_wal` after a batch is its old output followed by the batch's incomplete records |
| WalSteps.BatchStores | src/cachyDB/recovery/wal.py:573-586 | a batch written at its computed slots becomes exactly its transactions in the log, and the writer's next slot is again the record count of its file |
| WalSteps.AlignedBelow | src/cachyDB/recovery/wal.py:104-145 | every stored id lies below the writer's position |
| WalSteps.RestoredAligned | src/cachyDB/recovery/wal.py:104-145 | the restored id exceeds every id stored in any file, and batches written from there start at the record count of their file |
| WalSteps.RestoredReaches | src/cachyDB/recovery/wal.py:104-145 | a restart never goes back behind the position an earlier writer had reached, archived files included |
| WalSteps.MarkAhead | src/cachyDB/recovery/wal.py:399-440 | a mark reaches its transaction whether that is on disk or still in the buffer |
| WalSteps.MarkLog | src/cachyDB/recovery/wal.py:433-438 | marking slot `tx % capacity` of file `tx / capacity` marks `tx` and nothing else |
| WalSteps.ArchiveReads | src/cachyDB/recovery/checkpoint.py:136-138 | removing any set of completed files leaves every reading of the log as it was |
| WalSteps.ArchiveAligned | src/cachyDB/recovery/checkpoint.py:129-138 | after a checkpoint the writer can go on if and only if its own file stays or has no record yet |
| WalWrite.BuildPayloads | src/cachyDB/recovery/wal.py:556-568 | a batch is refused before anything is written exactly when it would overflow the payload area; otherwise block and offsets describe every payload |
| WalWrite.BuildEntries | src/cachyDB/recovery/wal.py:573-582 | entry headers for consecutive ids carry the marks known at that moment and point at their own payloads; an id over 63 bits is refused |
| WalWrite.SplitByFile | src/cachyDB/recovery/wal.py:493-502 | grouping a consecutive buffer by file loses and reorders nothing, gives one batch per file, and each batch stays inside its file |
| WalIo.CreateShows | src/cachyDB/recovery/wal.py:240-267 | creating a file is an open, a fill and a header write; stopped before, between or after them, the files hold the same log |
| WalIo.BatchShows | src/cachyDB/recovery/wal.py:570-595 | up to the last of a batch's three writes the files hold the old log; with it they hold the batch as well |
| WalIo.PrefixConcat | src/cachyDB/recovery/wal.py:493-506 | writes that show one part of a run up to their last, which shows a longer part, leave some first part of the run wherever they stop |
| WalModel.WAL.WritePhases | src/cachyDB/recovery/wal.py:527-597 | on any file: refused with its header's fault, or for lack of room or an id out of range; otherwise exactly the three writes of the batch, in order, at the places slot and header give |
| WalModel.WAL.AppendToBuffer | src/cachyDB/recovery/wal.py:347-373 | ids are handed out in order, once each, and the buffer stays a consecutive run; a mark that came in ahead of its id counts |
| WalModel.WAL.AppendManyToBuffer | src/cachyDB/recovery/wal.py:375-397 | many records get consecutive ids in their order |
| WalModel.WAL.DiskTxIds | src/cachyDB/recovery/wal.py:407-412 | the comparison with the buffer's first and last id is exact membership in the buffer |
| WalModel.WAL.MarkSlot | src/cachyDB/recovery/wal.py:658-669 | a mark is one byte of one slot of one file: it completes the transaction of that place and no other, and shows nothing in an unused slot or an unreadable file |
| WalModel.WAL.MarkManyJobsComplete | src/cachyDB/recovery/wal.py:399-440 | no mark is lost, for any ids: the log as it will be once the buffer is written is the old one with exactly these transactions complete; stopped anywhere, some of the marks are there and nothing else has changed |
| WalModel.WAL.MarkJobComplete | src/cachyDB/recovery/wal.py:634-669 | the same for a single transaction, with the error for an id out of range; in a file that is not the transaction's own it completes whatever has that slot there |
| WalModel.WAL.PreAllocate | src/cachyDB/recovery/wal.py:240-267 | a missing file is created by an open, a fill and a header write; wherever that stops, readers get the old log, and neither log nor writer has moved |
| WalModel.WAL.WriteBatchToDisk | src/cachyDB/recovery/wal.py:508-597 | on success exactly the changes that create the file, if it is missing, and the batch's three writes, all but the last of which leave the old log; on refusal the old log throughout; it succeeds exactly if its file is not an unreadable one and ids and payload area have room |
| WalModel.WAL.WriteBatches | src/cachyDB/recovery/wal.py:504-506 | the batches of a buffer in a row: stopped anywhere, the old log plus some first part of the buffer |
| WalModel.WAL.WriteBufferToDisk | src/cachyDB/recovery/wal.py:442-506 | a writer round stores the whole buffer with the marks it collected; stopped before or after any single change of a file, the creation of files included, it leaves the old log plus some first part of the buffer; it succeeds whenever the payload areas have room and no file it needs is unreadable |
| WalModel.WAL.ReadWal | src/cachyDB/recovery/wal.py:671-786 | what is read is the incomplete part of the stored log, in order, whatever malformed files lie in the directory |
| WalModel.Restart | src/cachyDB/recovery/wal.py:77-102 | over the files an earlier process left, whole or not, a restart succeeds exactly if the newest file's header is accepted or cut short; the next id is then the newest file's first one plus its record count; it is aligned with its file and hands out no id twice |
| WalModel.StoppedCreation | src/cachyDB/recovery/wal.py:254-263 | a stop while the newest file is created prevents the restart exactly between fill and header write, when the file is all zeros |
| WalModel.RestoredRight | src/cachyDB/recovery/wal.py:104-155 | only the newest file decides: its header's fault is an error unless the header is cut short; otherwise the id behind everything stored in it |
| CheckpointModel.IsFileFullyCompleted | src/cachyDB/recovery/checkpoint.py:140-215 | true exactly if the header is accepted and every slot it counts is in the file with a mark, whatever the bytes are |
| CheckpointModel.CompletedMeans | src/cachyDB/recovery/checkpoint.py:140-215 | of a well-formed file that says that every record is complete |
| CheckpointModel.RunCheckpoint | src/cachyDB/recovery/checkpoint.py:105-138 | exactly the completed, well-formed sealed files that can be archived go, by removals only, none during a flush; malformed files stay; what is read and the restored id do not change; the writer loses its place exactly when its own file is one of those that go and has a record already |
| CheckpointModel.WritersFileCanGo | src/cachyDB/recovery/checkpoint.py:134-138 | a concrete log on which a checkpoint removes the very file the writer is still on |
| CheckpointModel.LostBatch | src/cachyDB/recovery/wal.py:540-595 | what is lost then: the next batch creates the file anew behind the first slots, the header counts it from slot 0, and a batch of no more records than slots skipped is written in full and never read |
| WalRefinement.AppendStep | src/cachyDB/recovery/wal.py:347-373 | the byte-level append is the log side of the engine's write step |
| WalRefinement.WriterStep | src/cachyDB/recovery/wal.py:442-506 | a byte-level writer round is the engine's writer step, and wherever it stops the files hold the engine's log after some first part of the round |
| WalRefinement.MarkStep | src/cachyDB/recovery/wal.py:399-440 | byte-level marking is the engine's marking step |
| WalRefinement.ReadStep | src/cachyDB/recovery/wal.py:671-786 | what the byte-level log yields is what the engine's recovery replays |
| WalRefinement.RemoveFile | src/cachyDB/recovery/checkpoint.py:217-258 | removing a file is the engine's archiving step for it |
| RouterRefinement.FlushShows | src/cachyDB/storage/router.py:794-831 | the router model's map of live texts goes on showing what a scan of the real pages finds after a page-level flush |
| RouterRefinement.FlushableEntries | src/cachyDB/storage/router.py:794-807 | what `set` keeps of its memtables is what a page-level flush asks of them |
| RouterRefinement.StrictUnpacks | src/cachyDB/storage/router.py:163-179 | the records that a scan of the disk accepts are those that unpack, whatever their bytes are |
| BTreeSpec.InsertInorder | src/cachyDB/index/btree.py:302-324 | inserting an absent key puts exactly one new entry at the place the order dictates and moves no other |
| BTreeSpec.InsertTree | src/cachyDB/index/btree.py:302-324 | insertion keeps key counts, child counts and uniform leaf depth |
| BTreeSpec.SplitInorder | src/cachyDB/index/btree.py:267-300 | splitting a full child leaves the in-order contents as they were |
| BTreeSpec.SplitShape | src/cachyDB/index/btree.py:267-300 | both halves of a split and the parent are well-formed again |
| BTreeSpec.FreshRoot | src/cachyDB/index/btree.py:157-163 | a full root split under a fresh one gives a tree one level taller with the same entries |
| BTreeSpec.InsertToMap | src/cachyDB/index/btree.py:137-169 | a fitting insertion is one map update under a new key |
| BTreeSpec.UpdateToMap | src/cachyDB/index/btree.py:152-155 | replacing a stored value is one map update that adds no key |
| BTreeSpec.UpdateInorder | src/cachyDB/index/btree.py:152-155 | it changes one entry in place |
| BTreeSpec.LookupCorrect | src/cachyDB/index/btree.py:226-265 | descending by the first key not below finds exactly what the map holds |
| BTreeSpec.ToMapSorted | src/cachyDB/index/btree.py:326-346 | a sorted listing has one entry per key of its map, with its value |
| BTreeSpec.KeysSorted | src/cachyDB/index/btree.py:226-241 | a sorted in-order sequence makes every node's own keys sorted, which the binary search relies on |
| BTreeSpec.HeightBound | src/cachyDB/index/btree.py:68-77 | a tree of height h with at least one key has at least 2 t^h - 1 keys |
| BTreeSpec.LookupIsLogarithmic | src/cachyDB/index/btree.py:226-265 | the number of levels a lookup descends is at most the logarithm to base t of (n + 1) / 2 |
| StringOrder.BisectLeft | src/cachyDB/index/btree.py:226-241 | binary search finds the position the linear scan finds |
| StringOrder.Trichotomy | src/cachyDB/index/btree.py:256-260 | code-point order is total and strict |
| StringOrder.LessIsBelow | src/cachyDB/index/btree.py:256-260 | one key is below another exactly if, at the first place where they differ, it has ended or has the lower code point |
| BTree.BTreeMemTable.Insert | src/cachyDB/index/btree.py:137-169 | on the mutable nodes: the contents change by exactly one map update, all tree invariants hold again, the size is the number of keys; an empty key is refused |
| BTree.BTreeMemTable.FindNodeAndIndex | src/cachyDB/index/btree.py:243-265 | returns the node and slot that hold the key, reached along the search path, or none exactly when the key is absent |
| BTree.BTreeMemTable.SearchNode | src/cachyDB/index/btree.py:226-241 | the recursive binary search returns what the linear lookup returns |
| BTree.BTreeMemTable.SplitChild | src/cachyDB/index/btree.py:267-300 | the in-place split turns the node into the split tree and keeps all nodes disjoint |
| BTree.BTreeMemTable.InsertNonFull | src/cachyDB/index/btree.py:302-324 | the in-place descent with proactive splits carries out the insertion and keeps all nodes disjoint |
| BTree.BTreeMemTable.Search | src/cachyDB/index/btree.py:121-135 | the value the map holds, an error for the empty key |
| BTree.BTreeMemTable.Contains | src/cachyDB/index/btree.py:171-190 | membership in the map, an error for the empty key |
| BTree.BTreeMemTable.InOrderTraversal | src/cachyDB/index/btree.py:192-198 | the listing holds every entry of the table once, with its value, and no other; of any two keys the earlier one is lower at the first place where they differ |
| BTree.BTreeMemTable.Clear | src/cachyDB/index/btree.py:200-208 | the table is empty afterwards |
| PageFormat.InsertKeeps | src/cachyDB/pager/pager.py:137-190 | an inserted record goes to a new slot and every other record stays readable, overlapping none |
| PageFormat.DeleteKeeps | src/cachyDB/pager/pager.py:216-242 | on any accepted page a deletion empties one slot and leaves every record that shares no byte with it as it was |
| PageFormat.DeletePacked | src/cachyDB/pager/pager.py:216-242 | on a page built by the engine that is every other record |
| PageFormat.ImageReadsBack | src/cachyDB/pager/pager.py:275-415 | bytes written by `to_bytes` are accepted by `from_bytes` and restore ids, flags, offsets, slots and records |
| PageFormat.ImageOfParsed | src/cachyDB/pager/pager.py:275-415 | for every buffer `from_bytes` accepts, writing the page back gives the same bytes |
| PageFormat.AcceptedIsImage | src/cachyDB/pager/pager.py:323-415 | a buffer is accepted exactly if it is the image of some page |
| PageFormat.ImageLayout | src/cachyDB/pager/pager.py:65-81 | which byte of an image holds what: `CDBP`, id, offsets, slot count, flags, the checksum over the whole page with its own field zero, the slots, the records |
| PageFormat.FaultMeaning | src/cachyDB/pager/pager.py:346-384 | which bytes make which check fail, and in which order |
| PageFormat.SlotFault | src/cachyDB/pager/pager.py:390-412 | a slot is refused exactly if it is half deleted or reaches out of the record area |
| PageFormat.ParsedLoaded | src/cachyDB/pager/pager.py:323-415 | every accepted buffer is a page all operations are safe on |
| PageFormat.SumBound | src/cachyDB/pager/pager.py:244-273 | the live records of a page fit between its directory and its end |
| PageFormat.MoveStep | src/cachyDB/pager/pager.py:255-271 | moving one more record up in a compaction disturbs none already moved |
| PagerModel.Pager.SpaceIsFit | src/cachyDB/pager/pager.py:116-135 | `has_space_for` says yes exactly if the page with the record put in is one `from_bytes` accepts, and that page holds the old records and the new one |
| PagerModel.Pager.InsertRecord | src/cachyDB/pager/pager.py:137-190 | appends the record under the next slot id, or refuses with the page unchanged |
| PagerModel.Pager.GetRecord | src/cachyDB/pager/pager.py:192-214 | the slot's record, nothing for a deleted one, an error for a slot out of range |
| PagerModel.Pager.DeleteRecord | src/cachyDB/pager/pager.py:216-242 | on any accepted page: one slot becomes (0, 0) and its bytes are zeroed, records apart from it stay, or the page is unchanged and the error says why |
| PagerModel.Pager.Compact | src/cachyDB/pager/pager.py:244-273 | on any accepted page whose records fit behind one another, overlapping or not: keeps every slot id and its record, orders the records, and leaves free exactly what header, directory and live records do not use |
| PagerModel.Pager.ToBytes | src/cachyDB/pager/pager.py:275-321 | the buffer becomes the page's image and the page still shows the same records |
| PagerModel.Pager.FromBytes | src/cachyDB/pager/pager.py:323-415 | the page the bytes describe, or the first fault found in them |
| TableFile.OnlyOnePage | src/cachyDB/storage/table_handler.py:199-222 | writing a page at its place changes that page of the file and no other, and grows the file by at most that page |
| TableFile.ImageStable | src/cachyDB/storage/table_handler.py:129-151 | serialising a page into its own buffer does not change its image |
| TableFile.TableHandler.ReadPage | src/cachyDB/storage/table_handler.py:153-197 | the cached object if there is one, else the page the file holds; errors for a negative id, one out of range and corrupt bytes; no reader notices the caching |
| TableFile.TableHandler.AllocatePage | src/cachyDB/storage/table_handler.py:129-151 | one empty page without flags is appended under the next id, cached, and in the file as it is in the cache; every other page stays saved |
| TableFile.TableHandler.WritePage | src/cachyDB/storage/table_handler.py:199-222 | afterwards file and cache agree on the page and its records are unchanged; every other page stays as it was |
| TableFile.TableHandler.InsertCached | src/cachyDB/storage/router.py:807-807 | an insert into a cached page is seen by every reader of the handler at once; the other pages stay saved |
| TableFile.TableHandler.constructor | src/cachyDB/storage/table_handler.py:49-87 | a handler over a file shows what the bytes of each page parse to |
| TableFlush.InitDiskIndex | src/cachyDB/storage/router.py:287-308 | the forward pass over real pages builds the index that the page sequence determines |
| TableFlush.ReadFromDisk | src/cachyDB/storage/router.py:711-750 | the indexed read with its scan fallback returns what a backward scan over the records that unpack returns, whatever bytes the pages hold |
| TableFlush.IndexAgrees | src/cachyDB/storage/router.py:715-727 | a key that is not indexed has no live record; one that is, and whose record unpacks, reads as that record |
| TableFlush.ScanBackwards | src/cachyDB/storage/router.py:733-750 | the fallback finds the last record of the key that unpacks, and passes over unreadable pages, deleted slots, truncated records and records that are not JSON |
| TableFlush.IndexPayload | src/cachyDB/storage/router.py:297-307 | one slot's bytes change the index for the key they name only; short and undecodable records change nothing |
| TableFlush.FlushedAppend | src/cachyDB/storage/router.py:807-831 | one more placed record keeps the pending changes equal to what a rebuild of the index would show |
| TableFlush.MakeRoom | src/cachyDB/storage/router.py:798-805 | a full page is written out before a fresh one takes its place, so file and cache agree on every page but the one being filled |
| TableFlush.FlushRecords | src/cachyDB/storage/router.py:786-824 | each record is placed once, in order, behind what the table held, on the last page if it fits there and on a new one if not; no insert overflows; at the end every page in the file is as it is in the cache |
| TableFlush.FillBound | src/cachyDB/storage/router.py:794-807 | filling an empty table that way takes at most one page more than twice what the records would fill |
| MemtableFlush.FlushMemtable | src/cachyDB/storage/router.py:752-831 | a flush places each memtable entry exactly once, by ascending key, on the last page that has room; its maintained index is the one a restart would build, every key reads as the memtable has it or else as before, and whatever mixture of old and new page images a crash leaves shows pages between the old and the new ones |
| CrashPages.MixtureBetween | src/cachyDB/storage/router.py:794-839 | a file left by a mixture of synced and written page images shows, page by page, at least what was synced and at most what was written |
| CrashPages.SavedShows | src/cachyDB/storage/table_handler.py:199-222 | once every page is written out, a restart reads from the file what the handler shows |
| MemtableFlush.FlushedReads | src/cachyDB/storage/router.py:711-750 | after a flush a key reads as its flushed entry if it has one, else as before |
| MemtableFlush.LastOfFlat | src/cachyDB/storage/router.py:733-750 | the page-by-page backward scan finds the last record of the table as one list |
| Records.PackReadsBack | src/cachyDB/storage/router.py:95-127 | a packed record reads back as its key and its text |
| Records.PackLayout | src/cachyDB/storage/router.py:98-102 | which byte of a packed record holds what |
| Records.ReadLayout | src/cachyDB/storage/router.py:297-307 | which bytes the index reads as a record, and as which, whoever wrote them |
| Records.NullIsTombstone | src/cachyDB/storage/router.py:809-814 | the four bytes behind the key are `null` exactly for a deletion |
| RouterModel.PackUnpacks | src/cachyDB/storage/router.py:95-161 | `_unpack_record` undoes `_pack_record` |
| RouterModel.UnpackLayout | src/cachyDB/storage/router.py:143-161 | which bytes unpack, and to what: a key length, that many bytes of UTF-8, and behind them at least one byte, all of it JSON |
| CodecWitness.LawfulCodecExists | src/cachyDB/storage/router.py:95-127 | the laws asked of JSON, zlib, base64 and UTF-8 can be met together: a codec that meets them all, with UTF-8 and base64 as they are |
| Json.ChunkKeyInjective | src/cachyDB/storage/router.py:376-392 | chunk keys of different records, or of different chunks, never collide, whatever colons and digits the record keys hold |
| Json.DigitsNumeral | src/cachyDB/storage/router.py:390-392 | the index in a chunk key is its decimal numeral, without leading zeros |
| RecordSizes.SmallFits | src/cachyDB/storage/router.py:369-371 | a value of at most 2000 bytes fits an empty page under every key of up to 2070 bytes |
| RecordSizes.SmallLimit | src/cachyDB/storage/router.py:369-371 | 2070 is exact |
| RecordSizes.ChunkFits | src/cachyDB/storage/router.py:384-392 | a chunk fits whenever key bytes and index digits together are at most 1389 |
| RecordSizes.ChunkLimit | src/cachyDB/storage/router.py:384-392 | for a full chunk 1389 is exact |
| RecordSizes.ManifestFits | src/cachyDB/storage/router.py:394-402 | so does the manifest under such a key |
| RecordSizes.ChunkDeletionFits | src/cachyDB/storage/router.py:376-379 | and the null over an old chunk |
| ChunkStore.ChunksJoin | src/cachyDB/storage/router.py:383-388 | slicing the compressed bytes loses and reorders nothing |
| ChunkStore.ChunksAre | src/cachyDB/storage/router.py:383-388 | they are the slices of 2000 bytes, the last one what is left |
| ChunkStore.ChunkCountIs | src/cachyDB/storage/router.py:383-388 | as many as it takes: all but the last are full, and the last is not empty |
| ChunkStore.ManifestReadsBack | src/cachyDB/storage/router.py:553-606 | once chunks and manifest of a value are stored, `get` gives that value back |
| ChunkStore.ManifestStandsFor | src/cachyDB/storage/router.py:570-606 | a manifest reads as the value that its chunks, fetched, joined, decompressed and decoded, spell, and as null if they spell none |
| ChunkStore.MissingChunk | src/cachyDB/storage/router.py:585-589 | it reads as null if a chunk is missing or is not base64 text |
| ChunkStore.MissingCount | src/cachyDB/storage/router.py:582-582 | and if it does not count its chunks |
| ChunkStore.ForeignChunks | src/cachyDB/storage/router.py:593-606 | and if they do not decompress, are not UTF-8 or not JSON |
| ChunkStore.OthersUnchanged | src/cachyDB/storage/router.py:339-420 | whatever happens to one record's key and chunks, every other record reads as before |
| ChunkStore.ChunkKeepsCoherent | src/cachyDB/storage/router.py:376-392 | while a large record is being written every other cached value stays right |
| ChunkStore.RecordCoherent | src/cachyDB/storage/router.py:401-404 | writing the record's own key makes the whole cache right again |
| RouterModel.FlushKeeps | src/cachyDB/storage/router.py:786-839 | a finished background flush changes no value, deletions included |
| RouterModel.RotateKeeps | src/cachyDB/storage/router.py:521-536 | moving the active memtable behind an empty one changes no value |
| RouterModel.Slices | src/cachyDB/storage/router.py:383-388 | the slicing loop gives the chunks of at most 2000 bytes |
| RouterModel.Router.SetInternal | src/cachyDB/storage/router.py:422-551 | assigns one key in the merged store: its packed record enters the active memtable, which is rotated exactly if that fills it, and its value the cache, as one insert or one use; or fails for an empty or over-long key with nothing changed |
| RouterModel.Router.CleanUpChunks | src/cachyDB/storage/router.py:374-381 | nulls every chunk the stored manifest counts and touches nothing else; ends early and harmlessly at a chunk key that cannot be packed |
| RouterModel.Router.SetLarge | src/cachyDB/storage/router.py:368-406 | on success the key reads as the large value; on failure only this record's chunks were touched; it succeeds whenever all records fit |
| RouterModel.Router.Set | src/cachyDB/storage/router.py:339-420 | the key then reads as the value set, small, large or null; a text of more than 2000 bytes is stored as a manifest and its chunks if their keys can be packed, any other as it is; every other record reads as before; it fails only for an empty key or one too long to pack, and then nothing a caller sees changes; no chunk of the old value is left behind, the cache holds the value, and what it writes can be flushed |
| RouterModel.Router.SetMany | src/cachyDB/storage/router.py:204-285 | the records are stored whole, in order, each counting once on the cache, with at most one rotation at the end; each key then reads as its value and every other as before; nothing is written if a key is too long, an empty one stops the loop; no chunk is written or cleaned up, so a flush of what is in memory fits its pages if and only if each record fits one |
| RouterModel.Router.Get | src/cachyDB/storage/router.py:553-606 | returns the stored value, or the value its chunks spell, or null if they spell none, whatever the cache has kept or evicted |
| RouterModel.Router.GetInternal | src/cachyDB/storage/router.py:640-709 | a cached value that is not null wins and counts one use; else memtables and disk are asked and the answer cached, unless it is a null from behind the active memtable |
| RouterModel.Router.GetCoherent | src/cachyDB/storage/router.py:640-709 | every hit is the stored value, or the value its stored manifest stands for |
| RouterModel.Router.Reconstruct | src/cachyDB/storage/router.py:570-604 | gives the value the chunks of a manifest spell and caches it, null if they spell none, and keeps the cache right |
| RouterModel.Router.GetRawManifest | src/cachyDB/storage/router.py:608-638 | the stored value past the cache |
| RouterModel.Router.BackgroundFlush | src/cachyDB/storage/router.py:752-839 | the flushed texts are on disk, deletions gone, and the memtable is dropped; no reader sees it happen, and the cache stays right |
| RouterModel.Router.RotateIfFull | src/cachyDB/storage/router.py:521-536 | a memtable is rotated exactly if it is full, after the flush before it; no reader sees it happen |
| LfuCache.Cache.Put | src/cachyDB/cache/cache.py:49-76 | the evicted key has the fewest uses since its insertion and among those the oldest last use, in every run; nothing else leaves the cache; no eviction while there is room |
| LfuCache.Cache.Get | src/cachyDB/cache/cache.py:33-47 | returns the cached value, counts one use, and drops nothing |
| LfuCache.Cache.Evict | src/cachyDB/cache/cache.py:68-71 | the group the hint names is never empty here, and its front is the victim |
| LfuCache.Cache.Invalidate | src/cachyDB/cache/cache.py:78-85 | removes one key; the stale hint stays a lower bound |
| LfuCache.Cache.Clear | src/cachyDB/cache/cache.py:87-93 | empties the cache |
| LfuCache.VictimUnique | src/cachyDB/cache/cache.py:68-71 | there is never a choice of victim |
| LfuCache.EvictOk | src/cachyDB/cache/cache.py:68-71 | the front of the group named by an exact hint is the victim, and the groups stay right without it |
| LfuCache.PromotedHint | src/cachyDB/cache/cache.py:39-46 | after a use the hint is still a lower bound of all counts, and still exact if it was |
| LfuCache.EnterOk | src/cachyDB/cache/cache.py:73-76 | a new key makes the hint exact again |
| CompactorModel.CollectRecords | src/cachyDB/garbage/compactor.py:214-241 | the dictionary holds the last value of every key among the records that unpack and no other key, in the order in which they first turn up; corrupted records are passed over; an unreadable page aborts |
| CompactorModel.RewriteRecords | src/cachyDB/garbage/compactor.py:243-259 | the new table, and the bytes of its file under the old checksum, hold exactly the dictionary's records in its order, each on the last page that has room; it is refused exactly if one of them fits no page |
| CompactorModel.CompactTable | src/cachyDB/garbage/compactor.py:213-259 | every key, deleted ones included, has the same last value before and after, also for whoever reopens the new file with the old checksum; one record per key is left, in at most one page more than twice what they would fill; it fails exactly on an unreadable page or if a value that is kept no longer fits a page |
| CompactorModel.Reopened | src/cachyDB/garbage/compactor.py:251-276 | a file that is written out shows, to a reader with the same checksum, the values its handler shows |
| CompactorModel.CleanCompacts | src/cachyDB/garbage/compactor.py:243-259 | on a table the router wrote no value outgrows its page, and every key has the very same last record afterwards |
| CompactorModel.CleanStrict | src/cachyDB/storage/router.py:163-179 | on such a table every record a scan of the index sees also unpacks |
| CompactorModel.StoredFits | src/cachyDB/garbage/compactor.py:247-256 | a record that is on a page fits an empty one |

## Left out

- Engine.StepInv: one step is one locked section or one system call. A mark that arrives after the writer has copied the completed set, and before its batch is in the file, is overwritten by the batch; that is a lost mark in the sense of `Recovery.LostMarksExactly`, not a step of the model.
- Recovery.CrashSafety: the run ends at the first recovery, since recovery marks entries complete before their pages are flushed; lost marks are those of the run, not of an earlier process.
- Recovery.CrashSafety: the engine's write is routed by the table name that the key carries, so a table whose name has a colon is outside the modelled runs; `Namespace.NamespaceRoundTrip` says what happens to its records.
- Recovery.CrashSafety: small records only; `LargeRecovery` says what a restart gives back of a chunked one.
- Recovery.CrashSafety: each write of a page, a header, a block of payloads or of entries is atomic, and the file system keeps the order of the issued writes of one file.
- Engine.SettledRead: records carry the id that wrote them as an auxiliary tag; the bytes on a page do not hold it, and no step of the model branches on it.
- CrashPages.MixtureBetween: pages are whole; a page torn within its 4096 bytes fails its checksum and shows nothing. The order in which a flush issues its page writes is not recorded.
- RouterModel.Router.Set: stated for keys that do not start with `__chunk__:` and for values that are not shaped like a manifest; for others the stored bytes would be taken for chunk bookkeeping.
- RouterModel.Router.Set: one table; the memtables are the maps that `BTreeMemTable` is proved to be and the disk is the map of live texts that `MemtableFlush` is proved to keep; the log append is in `Engine` and `WalModel`.
- WalModel.WAL.WriteBufferToDisk: after a refused batch the buffer is gone and later batches no longer start at the record count, as in the code; only `Sound` is promised then.
- WalModel.WAL.PreAllocate: the test for the file and its creation are one step; two threads that both miss the file and both create it are not modelled.
- WalModel.WAL.MarkManyJobsComplete: ids are marked one by one rather than grouped by file, which differs only in how often a file is opened.
- WalModel.Restart: a file with an accepted header is one this program wrote; a header cut short is not the beginning of an accepted one.
- TableFile.TableHandler.constructor: the id stored in each readable page is its position in the file, and page ids stay below 2^32.
- TableFlush.ReadFromDisk: which texts are JSON is a parameter; the index it is given is the one its pages determine.
- PagerModel.Pager.Compact: on a page whose records overlap so far that together they no longer fit behind the directory, the code writes over the directory.
- CompactorModel.CompactTable: the new file of a refused compaction, which the code removes.
- Json.LawfulCodec covers values that JSON can represent; a Python object that `json.dumps` rejects, tuples, and dictionaries with other than string keys are not modelled. A float stands for its text.
- Engine.StepInv: a write takes its id and its place in the memtable in one step, as `set` does; `set_many` takes its ids first, and `BulkWrite` says what that changes.
- `force_flush` with a non-empty buffer takes the same non-reentrant lock twice; the writer loop is modelled instead.
- Back-pressure sleeps, flush scheduling, locks, thread start and stop, the `active_flushes` counter.
- The `cached_metadata` of a page, which repeats what its slots hold.
- Failed flushes and rotations that race with one another.
- `archive_file`'s compression and its exclusive create; only the removal counts.
- The rest of the compactor: the fragmentation test, the file swap, and the stale index and page cache after it.
- `record/record.py`, logging, latency measurement, file permissions, directory creation.
