/** Archiving sealed log files whose every entry is complete. */
module CheckpointModel {
  import opened Wrappers
  import opened Bytes
  import opened WalFile
  import opened WalBatch
  import opened WalStore
  import opened WalSteps
  import opened WalIo
  import opened WalModel
  import WalLog

  /** Slot `i` is in the file and has its mark. */
  ghost predicate SlotMarked(file: Data, i: nat) {
    SlotAt(i + 1) <= |file| && file[SlotAt(i) + 16] != 0
  }

  /** The header is accepted, and so are the slots it counts, each with a mark. */
  ghost predicate Completed(crc: Checksum, file: Data) {
    ReadHeader(file, crc).Ok? && forall i | 0 <= i < ReadHeader(file, crc).value.rec :: SlotMarked(file, i)
  }

  lemma EntryMarked(l: Layout, file: Data, id: nat, recs: seq<Record>, i: nat)
    requires i < |recs| && EntryOk(l, file, id, recs, i)
    ensures SlotMarked(file, i) <==> recs[i].done
  {
    hide Framed, FirstTx, Used;
    assert file[SlotAt(i)..SlotAt(i + 1)][16] == file[SlotAt(i) + 16];
  }

  /** Of a well-formed file that says that every record is complete. */
  lemma CompletedMeans(l: Layout, crc: Checksum, file: Data, id: nat, recs: seq<Record>)
    requires FileOk(l, crc, file, id, recs)
    ensures Completed(crc, file) <==> AllDone(recs)
  {
    hide EntryOk, SlotMarked, ReadHeader;
    forall i | 0 <= i < |recs| ensures SlotMarked(file, i) <==> recs[i].done {
      EntryMarked(l, file, id, recs, i);
    }
  }

  /** `is_file_fully_completed`: a file it cannot trust, or that stops short, is not complete. */
  method IsFileFullyCompleted(l: Layout, crc: Checksum, file: Data, ghost id: nat, ghost recs: seq<Record>)
    returns (b: bool)
    ensures b <==> Completed(crc, file)
    ensures FileOk(l, crc, file, id, recs) ==> (b <==> AllDone(recs))
  {
    hide ReadHeader, FileOk, AllDone;
    if FileOk(l, crc, file, id, recs) { CompletedMeans(l, crc, file, id, recs); }
    var header := ReadHeader(file, crc);
    if header.Err? {
      return false;
    }
    for i := 0 to header.value.rec
      invariant forall j | 0 <= j < i :: SlotMarked(file, j)
    {
      if |file| < SlotAt(i + 1) {
        assert !SlotMarked(file, i);
        return false;
      }
      var entry := file[SlotAt(i)..SlotAt(i + 1)];
      if entry[16] == 0 {
        assert !SlotMarked(file, i);
        return false;
      }
    }
    return true;
  }

  /** The files a checkpoint removes: well-formed and complete, not the newest, and archived without trouble. */
  ghost predicate Removes(recs: Stored, ids: seq<nat>, busy: set<nat>, id: nat) {
    id in ids && id != ids[|ids| - 1] && RemovesAt(recs, busy, id)
  }

  ghost predicate RemovesAt(recs: Stored, busy: set<nat>, id: nat) {
    id !in busy && id in recs && AllDone(recs[id])
  }

  ghost predicate Removals(ops: seq<Io>, gone: set<nat>) {
    forall op | op in ops :: op.Remove? && op.id in gone
  }

  /**
   `run_checkpoint`. `busy` are the files whose archive exists already or cannot be written; those stay.
   No file goes while a memtable is being flushed.
   */
  method RunCheckpoint(wal: WAL, ids: seq<nat>, activeFlushes: int, busy: set<nat>)
    returns (ghost gone: set<nat>, ghost ops: seq<Io>)
    requires wal.Sound() && Listing(ids, wal.files)
    modifies wal`files, wal`io, wal`recs
    ensures wal.Sound() && wal.files == old(wal.files) - gone && wal.recs == old(wal.recs) - gone
    ensures wal.io == old(wal.io) + ops && wal.files == AfterOps(old(wal.files), ops) && Removals(ops, gone)
    ensures forall id :: id in gone <==> activeFlushes <= 0 && Removes(old(wal.recs), ids, busy, id)
    // what a reader gets, and where a restart resumes, stay the same
    ensures forall n: nat :: WalLog.Pending(wal.Log(), n) == WalLog.Pending(old(wal.Log()), n)
    ensures forall ids' | Listing(ids', wal.files) ::
              Restored(wal.l, wal.recs, ids') == Restored(wal.l, old(wal.recs), ids)
    // the writer loses its place exactly when its own file is among the removed and has a record already
    ensures old(wal.Valid()) ==>
              (wal.Valid() <==> !(&& activeFlushes <= 0 && SlotOf(wal.l, wal.Next()) != 0
                                  && Removes(old(wal.recs), ids, busy, FileOf(wal.l, wal.Next()))))
  {
    hide FilesOk, Bounded, AlignedAt, LogOf, AllDone, WalLog.Pending, FileOf, SlotOf, FirstTx, AfterOps, Removals,
         Removes, Ascends;
    gone, ops := {}, [];
    ghost var recs0, files0 := wal.recs, wal.files;
    WalSound(wal);
    AfterOne(wal.files, [], Remove(0));
    NoRemovals();
    if activeFlushes <= 0 && |ids| > 1 {
      gone, ops := RemoveCompleted(wal, ids, busy);
    } else {
      OneListed(recs0, ids, busy);
    }
    GoneFacts(recs0, ids, busy, files0.Keys);
    forall n: nat ensures WalLog.Pending(wal.Log(), n) == WalLog.Pending(old(wal.Log()), n) {
      ArchiveReads(wal.l, recs0, gone, n);
    }
    if old(wal.Valid()) {
      ArchiveAligned(wal.l, recs0, files0.Keys, ids, gone, wal.Next());
    }
    assert wal.files.Keys == files0.Keys - gone;
    forall ids' | Listing(ids', wal.files) ensures Restored(wal.l, wal.recs, ids') == Restored(wal.l, recs0, ids) {
      NewestStays(wal.l, recs0, files0.Keys, ids, gone, ids');
    }
  }

  lemma WalSound(wal: WAL)
    requires wal.Sound()
    ensures Bounded(wal.l, wal.recs) && wal.recs.Keys <= wal.files.Keys
  {}

  lemma NoRemovals()
    ensures Removals([], {})
  {}

  lemma OneListed(recs: Stored, ids: seq<nat>, busy: set<nat>)
    ensures |ids| <= 1 ==> forall id :: !Removes(recs, ids, busy, id)
  {}

  lemma GoneFacts(recs: Stored, ids: seq<nat>, busy: set<nat>, dir: set<nat>)
    requires Ascends(ids, dir)
    ensures forall id | Removes(recs, ids, busy, id) ::
              id in dir && id in recs && AllDone(recs[id]) && id != ids[|ids| - 1]
  {
    hide AllDone;
  }

  lemma SealedFile(l: Layout, crc: Checksum, files: Files, recs: Stored, ids: seq<nat>, k: nat)
    requires FilesOk(l, crc, files, recs) && Listing(ids, files) && k < |ids|
    ensures ids[k] in files && ids[k] !in ids[..k]
    ensures ids[k] in recs ==> FileOk(l, crc, files[ids[k]], ids[k], recs[ids[k]])
    ensures ids[k] !in recs ==> ReadHeader(files[ids[k]], crc).Err?
  {
    hide FileOk, Unreadable, ReadHeader;
    assert ids[k] in ids;
    if ids[k] !in recs { UnreadableFails(crc, files[ids[k]]); }
  }

  /** Every listed file but the newest is sealed. */
  lemma SealedIds(recs: Stored, ids: seq<nat>, busy: set<nat>, dir: set<nat>)
    requires Ascends(ids, dir) && ids != []
    ensures forall id: nat :: id in ids[..|ids| - 1] && RemovesAt(recs, busy, id) <==> Removes(recs, ids, busy, id)
  {
    hide RemovesAt;
    var n := |ids| - 1;
    assert ids == ids[..n] + [ids[n]];
    assert ids[n] !in ids[..n];
  }

  lemma FilesLeft(l: Layout, crc: Checksum, files: Files, recs: Stored, gone: set<nat>)
    requires FilesOk(l, crc, files, recs) && Bounded(l, recs)
    ensures FilesOk(l, crc, files - gone, recs - gone) && Bounded(l, recs - gone)
  {
    hide FileOk, Unreadable;
  }

  /** The loop over the sealed files. */
  method RemoveCompleted(wal: WAL, ids: seq<nat>, busy: set<nat>) returns (ghost gone: set<nat>, ghost ops: seq<Io>)
    requires wal.Sound() && Listing(ids, wal.files) && ids != []
    modifies wal`files, wal`io, wal`recs
    ensures wal.Sound() && wal.files == old(wal.files) - gone && wal.recs == old(wal.recs) - gone
    ensures wal.io == old(wal.io) + ops && wal.files == AfterOps(old(wal.files), ops) && Removals(ops, gone)
    ensures forall id :: id in gone <==> Removes(old(wal.recs), ids, busy, id)
  {
    hide FileOk, FilesOk, Bounded, Ascends, AllDone, Removes, RemovesAt, AfterOps, ReadHeader;
    gone, ops := {}, [];
    ghost var recs0, files0 := wal.recs, wal.files;
    AfterOne(wal.files, [], Remove(0));
    for k := 0 to |ids| - 1
      invariant wal.files == files0 - gone && wal.recs == recs0 - gone
      invariant wal.io == old(wal.io) + ops && wal.files == AfterOps(files0, ops) && Removals(ops, gone)
      invariant forall id :: id in gone <==> id in ids[..k] && RemovesAt(recs0, busy, id)
    {
      var id := ids[k];
      SealedFile(wal.l, wal.crc, files0, recs0, ids, k);
      SealedStep(recs0, busy, ids, k);
      var complete := IsFileFullyCompleted(wal.l, wal.crc, wal.files[id], id, if id in recs0 then recs0[id] else []);
      if complete && id !in busy {
        AfterOne(files0, ops, Remove(id));
        wal.Do(Remove(id));
        wal.recs := wal.recs - {id};
        gone, ops := gone + {id}, ops + [Remove(id)];
      }
    }
    SealedIds(recs0, ids, busy, files0.Keys);
    FilesLeft(wal.l, wal.crc, files0, recs0, gone);
  }

  lemma SealedStep(recs: Stored, busy: set<nat>, ids: seq<nat>, k: nat)
    requires k < |ids|
    ensures forall id :: id in ids[..k + 1] <==> id in ids[..k] || id == ids[k]
    ensures RemovesAt(recs, busy, ids[k]) <==> ids[k] !in busy && ids[k] in recs && AllDone(recs[ids[k]])
  {
    hide AllDone;
    assert ids[..k + 1] == ids[..k] + [ids[k]];
  }

  lemma NewestStays(l: Layout, recs: Stored, dir: set<nat>, ids: seq<nat>, gone: set<nat>, ids': seq<nat>)
    requires Ascends(ids, dir) && Ascends(ids', dir - gone)
    requires gone <= dir && (ids != [] ==> ids[|ids| - 1] !in gone)
    ensures Restored(l, recs - gone, ids') == Restored(l, recs, ids)
  {
    hide FirstTx;
    assert ids' != [] ==> ids'[0] in ids' && ids'[0] in dir && ids != [];
    if ids != [] {
      var newest := ids[|ids| - 1];
      assert newest in ids && newest in dir - gone && newest in ids';
      var j :| 0 <= j < |ids'| && ids'[j] == newest;
      var last := ids'[|ids'| - 1];
      assert last in ids';
      assert last in ids;
      var i :| 0 <= i < |ids| && ids[i] == last;
    }
  }

  // ---------------------------------------------------------------------------------------
  // When the writer's own file goes

  /**
   The writer's own file can go: with two slots a file, one complete record in file 0 and a
   pre-allocated file 1, the next transaction belongs to slot 1 of a file that is no longer there.
   */
  lemma WritersFileCanGo()
    ensures var l, recs, ids := Layout(2, 100), map[0 := [Record([7], true)], 1 := []], [0, 1];
            && Ascends(ids, {0, 1}) && AlignedAt(l, recs, {0, 1}, 1) && Removes(recs, ids, {}, 0)
            && !AlignedAt(l, recs - {0}, {0, 1} - {0}, 1)
  {
    var l, recs: Stored, ids: seq<nat> := Layout(2, 100), map[0 := [Record([7], true)], 1 := []], [0, 1];
    assert FileOf(l, 1) == 0 && SlotOf(l, 1) == 1;
    assert 0 in {0, 1} && 1 <= FirstTx(l, 0) + |RecordsIn(recs, 0)|;
    assert ids[0] == 0 && ids[1] == 1;
  }

  /**
   What is lost then. The next batch creates the file anew and goes to slots `slot` on, but the header counts its
   records from zero. A batch of at most `slot` records is written in full and never read: the slots that are
   counted are empty and point at the file's first bytes, whose magic number is no length within the area.
   */
  lemma LostBatch(l: Layout, crc: Checksum, files: Files, f: nat, slot: nat, batch: seq<Record>, stamps: seq<Stamp>)
    requires l.area < 0x5741_4C31 && 0 < |batch| <= slot && slot + |batch| <= l.cap && f !in files
    requires BatchFits(l, f, slot, 0, 0, batch) && |stamps| == |batch|
    ensures var ops := CreateOps(l, crc, f, HEADER_SIZE + Used(batch)) + BatchOps(l, crc, f, slot, 0, 0, batch, stamps);
            && AfterOps(files, ops).Keys == files.Keys + {f}
            && FileReads(l, crc, AfterOps(files, ops)[f]) == []
  {
    hide AfterOps, Put, Header, ReadHeader, BatchOps, Frames, Entries, Used, FirstTx, BatchFits, ReadEntry;
    FitsNarrow(l, f, slot, batch);
    var size := HEADER_SIZE + Used(batch);
    var created, writes := CreateOps(l, crc, f, size), BatchOps(l, crc, f, slot, 0, 0, batch, stamps);
    BatchFitsWide(l, f, slot, 0, 0, batch);
    BatchWrites(l, crc, f, slot, 0, 0, batch, stamps);
    CreateFiles(l, crc, files, f, size);
    AfterConcat(files, created, writes);
    var file0 := Put(Zeros(size), 0, Header(l.cap, 0, 0, crc));
    var file1 := Put(file0, writes[0].at, writes[0].bytes);
    var file2 := Put(file1, writes[1].at, writes[1].bytes);
    var file3 := Put(file2, writes[2].at, writes[2].bytes);
    ThreeWrites(files[f := file0], f, writes, file0, file1, file2, file3);
    assert AfterOps(files, created + writes) == files[f := file3];
    EmptySlots(l, crc, size, slot, writes[0].bytes, writes[1].bytes, writes[2].bytes);
    PutInside(file2, 0, writes[2].bytes, 0, HEADER_SIZE);
    assert file3[..HEADER_SIZE] == writes[2].bytes;
    HeaderReads(file3, l.cap, |batch|, Used(batch), crc);
    MagicFirst(file3, l.cap, |batch|, Used(batch), crc);
    NothingRead(l, file3, |batch|);
  }

  lemma FitsNarrow(l: Layout, f: nat, slot: nat, batch: seq<Record>)
    requires BatchFits(l, f, slot, 0, 0, batch) && batch != []
    ensures l.cap < 0x1_0000_0000 && |batch| < 0x1_0000_0000 && 0 < Used(batch) < 0x1_0000_0000
    ensures FirstTx(l, f) + slot + |batch| <= MAX_TX + 1
  {
    hide FirstTx;
  }

  lemma MagicFirst(file: Data, cap: nat, rec: nat, used: nat, crc: Checksum)
    requires cap < 0x1_0000_0000 && rec < 0x1_0000_0000 && used < 0x1_0000_0000_0000_0000
    requires |file| >= HEADER_SIZE && file[..HEADER_SIZE] == Header(cap, rec, used, crc)
    ensures Get32(file[0..4]) == 0x5741_4C31
  {
    hide U32, U64;
    assert file[0..4] == file[..HEADER_SIZE][..4] == HeaderFields(cap, rec, used)[..4] == WAL1;
  }

  /** The slots before the batch are still the zeros the file was created with. */
  lemma EmptySlots(l: Layout, crc: Checksum, size: nat, slot: nat, payloads: Data, entries: Data, header: Data)
    requires l.cap < 0x1_0000_0000 && slot <= l.cap && payloads != [] && entries != [] && |header| == HEADER_SIZE
    ensures var created := Put(Zeros(size), 0, Header(l.cap, 0, 0, crc));
            var file := Put(Put(Put(created, Block(l), payloads), SlotAt(slot), entries), 0, header);
            SlotAt(slot) <= |file| && forall k | HEADER_SIZE <= k < SlotAt(slot) :: file[k] == 0
  {
    hide Header;
    var file0 := Put(Zeros(size), 0, Header(l.cap, 0, 0, crc));
    ZerosLeft(Zeros(size), 0, Header(l.cap, 0, 0, crc));
    var file1 := Put(file0, Block(l), payloads);
    ZerosUpTo(file0, Block(l), payloads);
    var file2 := Put(file1, SlotAt(slot), entries);
    SameBelow(file1, SlotAt(slot), entries);
    SameBehind(file2, header);
  }

  lemma ZerosLeft(file: Data, at: nat, b: Data)
    requires forall k | 0 <= k < |file| :: file[k] == 0
    ensures forall k | at + |b| <= k < |Put(file, at, b)| :: Put(file, at, b)[k] == 0
  {}

  lemma ZerosUpTo(file: Data, at: nat, b: Data)
    requires b != [] && at >= HEADER_SIZE && forall k | HEADER_SIZE <= k < |file| :: file[k] == 0
    ensures at <= |Put(file, at, b)| && forall k | HEADER_SIZE <= k < at :: Put(file, at, b)[k] == 0
  {}

  lemma SameBelow(file: Data, at: nat, b: Data)
    requires b != [] && at <= |file|
    ensures at <= |Put(file, at, b)| && forall k | 0 <= k < at :: Put(file, at, b)[k] == file[k]
  {}

  lemma SameBehind(file: Data, b: Data)
    requires |b| <= |file|
    ensures |Put(file, 0, b)| == |file| && forall k | |b| <= k < |file| :: Put(file, 0, b)[k] == file[k]
  {}

  /** An empty slot points at the start of the file. */
  lemma {:induction false} NothingRead(l: Layout, file: Data, n: nat)
    requires SlotAt(n) <= |file| && forall k | HEADER_SIZE <= k < SlotAt(n) :: file[k] == 0
    requires l.area < 0x5741_4C31 == Get32(file[0..4])
    ensures ReadEntries(l, file, n) == []
  {
    hide Get32;
    if n > 0 {
      NothingRead(l, file, n - 1);
      var entry := file[SlotAt(n - 1)..SlotAt(n)];
      assert forall k | 0 <= k < ENTRY_SIZE :: entry[k] == 0;
      ZeroNumber(entry[17..25]);
    }
  }

  lemma ZeroNumber(b: Data)
    requires |b| == 8 && forall k | 0 <= k < 8 :: b[k] == 0
    ensures Get64(b) == 0
  {}
}
