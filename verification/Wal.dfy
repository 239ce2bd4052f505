/**
 The write-ahead log object: an id counter, a buffer of consecutive transactions, the marks that
 came in for it, and the files.

 Every method is proved against the log the files hold (`Log`) and the log they will hold once the
 buffer is written (`Whole`). Each method is one step; `Sound` holds even after a batch was refused.
 */
module WalModel {
  import opened Wrappers
  import opened Bytes
  import opened WalFile
  import opened WalBatch
  import opened WalStore
  import opened WalSteps
  import opened WalIo
  import opened WalWrite
  import WalLog

  function Ids(txs: seq<nat>): set<nat> {
    set t | t in txs
  }

  lemma IdsUpTo(txs: seq<nat>, n: nat)
    requires n <= |txs|
    ensures Ids(txs[..n]) <= Ids(txs)
  {}

  lemma StoredIds(l: Layout, crc: Checksum, files: Files, recs: Stored, tx: nat)
    requires FilesOk(l, crc, files, recs) && Holds(l, recs, tx)
    ensures tx <= MAX_TX
  {
    hide FirstTx, ReadHeader, EntrySays, Framed;
    var f, i := FileOf(l, tx), SlotOf(l, tx);
    assert EntryOk(l, files[f], f, recs[f], i);
    Address(l, tx, f, i);
  }

  /** No file the buffer goes to is unreadable, or would overflow its payload area even if it took the whole buffer. */
  ghost predicate RoomFor(l: Layout, files: Files, recs: Stored, buffer: Buffer)
    requires l.cap > 0
  {
    forall i | 0 <= i < |buffer| :: RoomIn(FileOf(l, buffer[i].0), l, files, recs, buffer)
  }

  ghost predicate RoomIn(id: nat, l: Layout, files: Files, recs: Stored, buffer: Buffer) {
    && (id in files ==> id in recs)
    && Used(RecordsIn(recs, id)) + Used(BatchRecs(buffer, {})) <= l.area
  }

  lemma {:induction false} FlagsUseNothing(a: seq<Record>, b: seq<Record>)
    requires |a| == |b| && forall i | 0 <= i < |a| :: a[i].payload == b[i].payload
    ensures Used(a) == Used(b)
    decreases |a|
  {
    if a != [] { FlagsUseNothing(a[..|a| - 1], b[..|b| - 1]); }
  }

  ghost predicate SameFile(id: nat, files: Files, recs: Stored, files0: Files, recs0: Stored) {
    (id in files <==> id in files0) && (id in recs <==> id in recs0) && RecordsIn(recs, id) == RecordsIn(recs0, id)
  }

  /** The files the remaining batches go to are as they were. */
  ghost predicate Untouched(l: Layout, batches: seq<Buffer>, files: Files, recs: Stored, files0: Files, recs0: Stored)
    requires l.cap > 0
  {
    forall j | 0 <= j < |batches| && batches[j] != [] ::
      SameFile(FileOf(l, batches[j][0].0), files, recs, files0, recs0)
  }

  lemma UntouchedStart(l: Layout, batches: seq<Buffer>, files: Files, recs: Stored)
    requires l.cap > 0
    ensures Untouched(l, batches, files, recs, files, recs)
  {}

  lemma UntouchedStep(l: Layout, batches: seq<Buffer>, k: nat, files: Files, recs: Stored, files0: Files,
                      recs0: Stored, files': Files, rs: seq<Record>)
    requires l.cap > 0 && k < |batches| && batches[k] != [] && Untouched(l, batches[k..], files, recs, files0, recs0)
    requires OnePerFile(l, batches)
    requires files'.Keys == files.Keys + {FileOf(l, batches[k][0].0)}
    ensures Untouched(l, batches[k + 1..], files', recs[FileOf(l, batches[k][0].0) := rs], files0, recs0)
  {
    hide FileOf;
    assert batches[k + 1..] == batches[k..][1..];
  }

  lemma UntouchedNow(l: Layout, batches: seq<Buffer>, k: nat, files: Files, recs: Stored, files0: Files, recs0: Stored)
    requires l.cap > 0 && k < |batches| && batches[k] != [] && Untouched(l, batches[k..], files, recs, files0, recs0)
    ensures SameFile(FileOf(l, batches[k][0].0), files, recs, files0, recs0)
  {
    hide FileOf;
    assert batches[k..][0] == batches[k];
  }

  /** The next batch of a buffer of which `at` entries are written. */
  lemma NextPart(buffer: Buffer, first: nat, at: nat, batch: Buffer)
    requires Consecutive(buffer, first) && at + |batch| <= |buffer| && buffer[at..at + |batch|] == batch
    ensures Consecutive(batch, first + at)
    ensures BufferPayloads(buffer)[..at + |batch|] == BufferPayloads(buffer)[..at] + BufferPayloads(batch)
  {}

  /** A batch needs no more room than the buffer it is part of. */
  lemma PartUses(buffer: Buffer, at: nat, batch: Buffer, completed: set<nat>)
    requires at + |batch| <= |buffer| && buffer[at..at + |batch|] == batch
    ensures Used(BatchRecs(batch, completed)) <= Used(BatchRecs(buffer, {}))
  {
    hide Used;
    var whole := BatchRecs(buffer, {});
    var before, part, after := whole[..at], whole[at..at + |batch|], whole[at + |batch|..];
    assert whole == before + (part + after);
    UsedConcat(before, part + after);
    UsedConcat(part, after);
    FlagsUseNothing(part, BatchRecs(batch, completed));
  }

  lemma BatchRoom(l: Layout, files: Files, recs: Stored, files0: Files, recs0: Stored, buffer: Buffer, at: nat,
                  batch: Buffer, completed: set<nat>)
    requires l.cap > 0 && at + |batch| <= |buffer| && buffer[at..at + |batch|] == batch && batch != []
    requires SameFile(FileOf(l, batch[0].0), files, recs, files0, recs0) && RoomFor(l, files0, recs0, buffer)
    ensures var id := FileOf(l, batch[0].0);
            (id in files ==> id in recs) && Used(RecordsIn(recs, id)) + Used(BatchRecs(batch, completed)) <= l.area
  {
    hide Used, FileOf;
    assert buffer[at] == batch[0];
    PartUses(buffer, at, batch, completed);
  }

  lemma BatchStart(l: Layout, crc: Checksum, files: Files, recs: Stored, batch: Buffer, next: nat)
    requires FilesOk(l, crc, files, recs) && OneFile(l, batch) && Consecutive(batch, next)
    ensures batch != [] && batch[0].0 == next && SlotOf(l, next) + |batch| <= l.cap && Packable(l)
  {
    hide FileOk, FileOf, SlotOf, Unreadable;
    OneFileSlots(l, batch, next);
  }

  /** Where a batch goes: behind the records of its file, at the slot the header counts up to. */
  lemma BatchSpace(l: Layout, crc: Checksum, files: Files, recs: Stored, dir: set<nat>, next: nat, n: nat)
    requires FilesOk(l, crc, files, recs) && AlignedAt(l, recs, dir, next) && SlotOf(l, next) + n <= l.cap
    ensures var f := FileOf(l, next);
            && FirstTx(l, f) + SlotOf(l, next) == next && |RecordsIn(recs, f)| == SlotOf(l, next)
            && (f in recs ==> ReadHeader(files[f], crc) == Ok(Info(l.cap, |recs[f]|, Used(recs[f])))
                              && Used(recs[f]) <= l.area && |recs[f]| + n < 0x1_0000_0000)
            && (f in files && f !in recs ==> ReadHeader(files[f], crc).Err?)
  {
    hide EntryOk, ReadHeader, FirstTx, FileOf, SlotOf, Used;
    var f := FileOf(l, next);
    Address(l, next, f, SlotOf(l, next));
    if f in recs {
      assert FileOk(l, crc, files[f], f, recs[f]);
    } else if f in files {
      UnreadableFails(crc, files[f]);
    }
  }

  lemma BatchStored(l: Layout, recs: Stored, dir: set<nat>, batch: Buffer, next: nat, completed: set<nat>)
    requires Bounded(l, recs) && AlignedAt(l, recs, dir, next) && OneFile(l, batch) && Consecutive(batch, next)
    requires FileOf(l, next) in dir
    ensures var f := FileOf(l, next); var recs' := recs[f := RecordsIn(recs, f) + BatchRecs(batch, completed)];
            && Bounded(l, recs') && AlignedAt(l, recs', dir, next + |batch|)
            && LogOf(l, recs') == WalLog.Store(LogOf(l, recs), next, BufferPayloads(batch), completed)
  {
    hide AlignedAt, LogOf, WalLog.Store, FileOf, SlotOf;
    OneFileSlots(l, batch, next);
    BatchStores(l, recs, dir, next, BatchRecs(batch, completed), completed);
    assert Payloads(BatchRecs(batch, completed)) == BufferPayloads(batch);
  }

  class WAL {
    const l: Layout
    const crc: Checksum
    var files: Files
    var globalTxId: nat
    var walBuffer: Buffer
    var ramCompleted: set<nat>

    /** Every change made to a file so far, in order. */
    ghost var io: seq<Io>
    ghost var recs: Stored

    /** The first transaction that is not on disk yet. */
    ghost function Next(): nat
      requires |walBuffer| <= globalTxId
      reads this`walBuffer, this`globalTxId
    {
      globalTxId - |walBuffer|
    }

    ghost predicate Sound()
      reads this
    {
      && FilesOk(l, crc, files, recs) && Bounded(l, recs)
      && |walBuffer| <= globalTxId && Consecutive(walBuffer, Next())
    }

    ghost predicate Valid()
      reads this
    {
      Sound() && AlignedAt(l, recs, files.Keys, Next())
    }

    /** What the files hold. */
    ghost function Log(): WalLog.Log<Data>
      requires Bounded(l, recs)
      reads this`recs
    {
      LogOf(l, recs)
    }

    /** What the files will hold once the buffer is written. */
    ghost function Whole(): WalLog.Log<Data>
      requires Bounded(l, recs) && |walBuffer| <= globalTxId
      reads this
    {
      Ahead(Log(), Next(), BufferPayloads(walBuffer), ramCompleted)
    }

    ghost predicate Buffered(tx: nat)
      reads this`walBuffer
    {
      exists i :: 0 <= i < |walBuffer| && walBuffer[i].0 == tx
    }

    /** `append_to_buffer`: ids are handed out in order and never reused. */
    method AppendToBuffer(packedRecord: Data) returns (tx: nat)
      requires Sound()
      modifies this`globalTxId, this`walBuffer
      ensures Sound() && (old(Valid()) ==> Valid())
      ensures tx == old(globalTxId) && globalTxId == old(globalTxId) + 1
      ensures walBuffer == old(walBuffer) + [(tx, packedRecord)]
      // a mark that came in ahead of its id counts
      ensures Whole() == WalLog.Store(old(Whole()), tx, [packedRecord], ramCompleted)
    {
      hide FilesOk, AlignedAt, LogOf, Bounded, Ahead, WalLog.Store, BufferPayloads;
      AheadAppend(Log(), Next(), walBuffer, ramCompleted, packedRecord);
      tx := globalTxId;
      globalTxId := globalTxId + 1;
      walBuffer := walBuffer + [(tx, packedRecord)];
    }

    static lemma AheadAppend(log: WalLog.Log<Data>, next: nat, buffer: Buffer, ram: set<nat>, payload: Data)
      ensures var n := next + |buffer|;
              Ahead(log, next, BufferPayloads(buffer + [(n, payload)]), ram)
              == WalLog.Store(Ahead(log, next, BufferPayloads(buffer), ram), n, [payload], ram)
    {
      var n := next + |buffer|;
      hide WalLog.Store;
      assert BufferPayloads(buffer + [(n, payload)]) == BufferPayloads(buffer) + [payload];
      StoreTwice(log, next, BufferPayloads(buffer), [payload], ram);
    }

    /** `append_many_to_buffer`. */
    method AppendManyToBuffer(packedRecords: seq<Data>) returns (txs: seq<nat>)
      requires Sound()
      modifies this`globalTxId, this`walBuffer
      ensures Sound() && (old(Valid()) ==> Valid())
      ensures globalTxId == old(globalTxId) + |packedRecords|
      ensures |txs| == |packedRecords| && forall i | 0 <= i < |txs| :: txs[i] == old(globalTxId) + i
      ensures Whole() == WalLog.Store(old(Whole()), old(globalTxId), packedRecords, ramCompleted)
    {
      hide Bounded, FilesOk, AlignedAt, LogOf, Ahead, WalLog.Store;
      txs := [];
      StoreNothing(Whole(), globalTxId, ramCompleted);
      for i := 0 to |packedRecords|
        invariant Sound() && (old(Valid()) ==> Valid())
        invariant globalTxId == old(globalTxId) + i
        invariant |txs| == i && forall j | 0 <= j < i :: txs[j] == old(globalTxId) + j
        invariant Whole() == WalLog.Store(old(Whole()), old(globalTxId), packedRecords[..i], ramCompleted)
      {
        var tx := AppendToBuffer(packedRecords[i]);
        StoreTwice(old(Whole()), old(globalTxId), packedRecords[..i], [packedRecords[i]], ramCompleted);
        assert packedRecords[..i + 1] == packedRecords[..i] + [packedRecords[i]];
        txs := txs + [tx];
      }
      assert packedRecords[..|packedRecords|] == packedRecords;
    }

    static lemma StoreNothing(log: WalLog.Log<Data>, first: nat, marks: set<nat>)
      ensures WalLog.Store(log, first, [], marks) == log
    {}

    /** Every change of a file is one of these: an open that creates it, a `seek` and `write`, or an `unlink`. */
    method Do(op: Io)
      modifies this`files, this`io
      ensures files == AfterOp(old(files), op) && io == old(io) + [op]
    {
      files := AfterOp(files, op);
      io := io + [op];
    }

    /** One mark on disk: a byte of slot `i` of file `f`, if the file is there. */
    method MarkSlot(f: nat, i: nat) returns (ghost ops: seq<Io>)
      requires FilesOk(l, crc, files, recs) && Bounded(l, recs) && i < l.cap
      modifies this`files, this`io, this`recs
      ensures FilesOk(l, crc, files, recs) && Bounded(l, recs) && files.Keys == old(files.Keys)
      ensures ops == if f in old(files) then [Write(f, SlotAt(i) + 16, [1])] else []
      ensures io == old(io) + ops && files == AfterOps(old(files), ops)
      ensures Log() == WalLog.MarkDone(old(Log()), {FirstTx(l, f) + i})
      ensures forall next | old(AlignedAt(l, recs, files.Keys, next)) :: AlignedAt(l, recs, files.Keys, next)
    {
      hide FileOk, FileOf, SlotOf, AlignedAt, LogOf, Put, MarkAt, WalLog.MarkDone, FirstTx, Unreadable, AfterOps;
      ghost var tx := FirstTx(l, f) + i;
      Address(l, tx, f, i);
      MarkLog(l, recs, tx);
      forall next | AlignedAt(l, recs, files.Keys, next) ensures AlignedAt(l, MarkTx(l, recs, tx), files.Keys, next) {
        MarkAligned(l, recs, files.Keys, next, tx);
      }
      ops := [];
      AfterOne(files, [], Write(f, SlotAt(i) + 16, [1]));
      if f !in files {
        return;
      }
      ops := [] + [Write(f, SlotAt(i) + 16, [1])];
      if f in recs {
        Marked(l, crc, files[f], f, recs[f], i);
        FileReplaced(l, crc, files, recs, f, Put(files[f], SlotAt(i) + 16, [1]), MarkAt(recs[f], i));
        recs := recs[f := MarkAt(recs[f], i)];
      } else {
        StaysUnreadable(crc, files[f], SlotAt(i) + 16, [1]);
        FileBroken(l, crc, files, recs, f, Put(files[f], SlotAt(i) + 16, [1]));
      }
      Do(Write(f, SlotAt(i) + 16, [1]));
    }

    static lemma MarkAbsent(log: WalLog.Log<Data>, tx: nat)
      requires tx !in log
      ensures WalLog.MarkDone(log, {tx}) == log
    {}

    lemma NotStored(tx: nat)
      requires FilesOk(l, crc, files, recs) && Bounded(l, recs) && tx > MAX_TX
      ensures WalLog.MarkDone(Log(), {tx}) == Log()
    {
      hide FilesOk, Holds, Txs;
      forall k | k in Log() ensures k != tx {
        StoredIds(l, crc, files, recs, k);
      }
      MarkAbsent(Log(), tx);
    }

    /** The mark of one transaction at its own place; an id no file has a place for is passed over. */
    method MarkOnDisk(tx: nat) returns (ghost ops: seq<Io>)
      requires FilesOk(l, crc, files, recs) && Bounded(l, recs)
      modifies this`files, this`io, this`recs
      ensures FilesOk(l, crc, files, recs) && Bounded(l, recs) && files.Keys == old(files.Keys)
      ensures |ops| <= 1 && io == old(io) + ops && files == AfterOps(old(files), ops)
      ensures Log() == WalLog.MarkDone(old(Log()), {tx})
      ensures forall next | old(AlignedAt(l, recs, files.Keys, next)) :: AlignedAt(l, recs, files.Keys, next)
    {
      hide FilesOk, Bounded, FileOf, SlotOf, AlignedAt, LogOf, WalLog.MarkDone, FirstTx, AfterOps;
      ops := [];
      AfterNothing(files);
      if tx > MAX_TX {
        NotStored(tx);
        return;
      }
      BoundedCap(l, recs);
      Address(l, tx, FileOf(l, tx), SlotOf(l, tx));
      ops := MarkSlot(FileOf(l, tx), SlotOf(l, tx));
    }

    static lemma AfterNothing(files: Files)
      ensures AfterOps(files, []) == files
    {}

    static lemma BoundedCap(l: Layout, recs: Stored)
      requires Bounded(l, recs)
      ensures l.cap > 0
    {}

    /**
     `mark_many_jobs_complete`: a mark is kept in memory for a buffered transaction and goes to disk
     for any other. The comparison with the buffer's first and last id is exact membership.
     */
    method MarkManyJobsComplete(txIds: seq<nat>) returns (ghost ops: seq<Io>)
      requires Valid()
      modifies this`files, this`io, this`recs, this`ramCompleted
      ensures Valid()
      ensures Whole() == WalLog.MarkDone(old(Whole()), Ids(txIds))
      ensures ramCompleted == old(ramCompleted) + Ids(txIds)
      ensures Log() == WalLog.MarkDone(old(Log()), set t | t in txIds && !old(Buffered(t)))
      // wherever the writes stop, some of the marks are there and nothing else has changed
      ensures io == old(io) + ops && files == AfterOps(old(files), ops)
      ensures ShowsMarks(l, crc, old(files), ops, old(Log()), Ids(txIds))
    {
      hide FilesOk, Bounded, AlignedAt, LogOf, Holds, WalLog.MarkDone, Ahead, BufferPayloads, AfterOps, Represents,
           ShowsMarks;
      ghost var all := Ids(txIds);
      ghost var log := Log();
      ghost var unbuffered := set t | t in txIds && !Buffered(t);
      StoredBelow();
      ops := [];
      MarkNothing(log);
      MarkNothing(Whole());
      AfterNothing(files);
      SoundRepresents(l, crc, files, recs);
      MarksNothing(l, crc, files, log, all);
      if txIds == [] {
        assert unbuffered == {} == all;
        return;
      }
      ramCompleted := ramCompleted + Ids(txIds);
      var diskTxIds := DiskTxIds(txIds);
      ghost var onDisk := Ids(diskTxIds);
      assert Ids(diskTxIds[..0]) == {};
      for i := 0 to |diskTxIds|
        invariant Valid() && ramCompleted == old(ramCompleted) + all
        invariant Log() == WalLog.MarkDone(log, Ids(diskTxIds[..i]))
        invariant io == old(io) + ops && files == AfterOps(old(files), ops)
        invariant ShowsMarks(l, crc, old(files), ops, log, all)
      {
        ghost var op := MarkOnDisk(diskTxIds[i]);
        MarkTwice(log, Ids(diskTxIds[..i]), {diskTxIds[i]});
        assert Ids(diskTxIds[..i + 1]) == Ids(diskTxIds[..i]) + {diskTxIds[i]};
        AfterConcat(old(files), ops, op);
        SoundRepresents(l, crc, files, recs);
        IdsUpTo(diskTxIds, i + 1);
        MarksConcat(l, crc, old(files), ops, op, log, all, Ids(diskTxIds[..i + 1]));
        ops := ops + op;
      }
      assert diskTxIds[..|diskTxIds|] == diskTxIds;
      assert onDisk == unbuffered;
      MarkAhead(log, Next(), BufferPayloads(walBuffer), old(ramCompleted), all, onDisk);
    }

    lemma StoredBelow()
      requires Valid()
      ensures forall t | t in Log() :: t < Next()
    {
      hide FilesOk, AlignedAt, LogOf, Holds;
      forall t | t in Log() ensures t < Next() {
        AlignedBelow(l, recs, files.Keys, Next(), t);
      }
    }

    static lemma MarkNothing(log: WalLog.Log<Data>)
      ensures WalLog.MarkDone(log, {}) == log
    {}

    /** The ids outside the buffer's range, which are the ids not in the buffer. */
    method DiskTxIds(txIds: seq<nat>) returns (diskTxIds: seq<nat>)
      requires |walBuffer| <= globalTxId && Consecutive(walBuffer, Next())
      ensures Ids(diskTxIds) == set t | t in txIds && !Buffered(t)
      ensures Ids(diskTxIds) == set t | t in txIds && !(Next() <= t < Next() + |walBuffer|)
    {
      if walBuffer == [] {
        return txIds;
      }
      var bufferMin, bufferMax := walBuffer[0].0, walBuffer[|walBuffer| - 1].0;
      forall t | bufferMin <= t <= bufferMax ensures Buffered(t) {
        assert walBuffer[t - bufferMin].0 == t;
      }
      diskTxIds := [];
      for i := 0 to |txIds|
        invariant forall t :: t in diskTxIds <==> t in txIds[..i] && !(bufferMin <= t <= bufferMax)
      {
        if !(bufferMin <= txIds[i] <= bufferMax) {
          diskTxIds := diskTxIds + [txIds[i]];
        }
      }
      assert txIds[..|txIds|] == txIds;
    }

    /**
     `mark_job_complete`: the caller names the file `f`. A transaction that is not buffered has the byte of its
     slot number set in that file; that is its own mark exactly when the file is its own.
     */
    method MarkJobComplete(tx: nat, f: nat) returns (r: Result<(), WalError>)
      requires Valid()
      modifies this`files, this`io, this`recs, this`ramCompleted
      ensures Valid()
      ensures r == if tx >= 0x8000_0000_0000_0000 then Err(BadId) else Ok(())
      ensures r.Ok? ==> ramCompleted == old(ramCompleted) + {tx}
      ensures r.Ok? ==>
                Log() == WalLog.MarkDone(old(Log()), if old(Buffered(tx)) then {} else {FirstTx(l, f) + SlotOf(l, tx)})
      ensures r.Ok? && (old(Buffered(tx)) || f == FileOf(l, tx)) ==> Whole() == WalLog.MarkDone(old(Whole()), {tx})
      ensures r.Err? ==> unchanged(this)
    {
      hide FilesOk, Bounded, AlignedAt, LogOf, Holds, WalLog.MarkDone, Ahead, BufferPayloads, FirstTx, FileOf, SlotOf;
      if tx > MAX_TX {
        return Err(BadId);
      }
      ghost var log := Log();
      BoundedCap(l, recs);
      Address(l, tx, FileOf(l, tx), SlotOf(l, tx));
      StoredBelow();
      BufferedRange(tx);
      ramCompleted := ramCompleted + {tx};
      ghost var onDisk: set<nat> := if Next() <= tx < Next() + |walBuffer| then {} else {tx};
      MarkAhead(log, Next(), BufferPayloads(walBuffer), old(ramCompleted), {tx}, onDisk);
      MarkNothing(log);
      if walBuffer != [] && walBuffer[0].0 <= tx <= walBuffer[|walBuffer| - 1].0 {
        return Ok(());
      }
      ghost var ops := MarkSlot(f, SlotOf(l, tx));
      return Ok(());
    }

    lemma BufferedRange(tx: nat)
      requires |walBuffer| <= globalTxId && Consecutive(walBuffer, Next())
      ensures Buffered(tx) <==> Next() <= tx < Next() + |walBuffer|
      ensures Buffered(tx) <==> walBuffer != [] && walBuffer[0].0 <= tx <= walBuffer[|walBuffer| - 1].0
    {
      if Next() <= tx < Next() + |walBuffer| { assert walBuffer[tx - Next()].0 == tx; }
    }

    // -------------------------------------------------------------------------------------
    // Writing

    /**
     `_pre_allocate_async`, and the pre-allocation of a batch's own file: a missing file is created, filled and
     given a header, in three separate changes. Wherever that stops a reader still gets the old log.
     */
    method PreAllocate(id: nat, size: nat) returns (ghost ops: seq<Io>)
      requires FilesOk(l, crc, files, recs) && Bounded(l, recs) && size >= HEADER_SIZE
      modifies this`files, this`io, this`recs
      ensures FilesOk(l, crc, files, recs) && Bounded(l, recs)
      ensures ops == if id in old(files) then [] else CreateOps(l, crc, id, size)
      ensures io == old(io) + ops && files == AfterOps(old(files), ops) && files.Keys == old(files.Keys) + {id}
      ensures Shows(l, crc, old(files), ops, old(Log()))
      ensures recs == if id in old(files) then old(recs) else old(recs)[id := []]
      ensures Log() == old(Log())
      ensures forall next | old(AlignedAt(l, recs, files.Keys, next)) :: AlignedAt(l, recs, files.Keys, next)
    {
      hide FileOk, Unreadable, AlignedAt, LogOf, Put, Header, AfterOps, Represents, Shows;
      ops := [];
      AfterNothing(files);
      SoundRepresents(l, crc, files, recs);
      ShowsNothing(l, crc, files, Log());
      if id !in files {
        CreateFiles(l, crc, files, id, size);
        CreateShows(l, crc, files, recs, id, size);
        EmptyFileLog(l, recs, id);
        forall next | AlignedAt(l, recs, files.Keys, next)
          ensures AlignedAt(l, recs[id := []], files.Keys + {id}, next)
        {
          EmptyFileAligned(l, recs, files.Keys, next, id);
        }
        ops := CreateOps(l, crc, id, size);
        Create(id, size);
        recs := recs[id := []];
      }
    }

    method Create(id: nat, size: nat)
      requires l.cap < 0x1_0000_0000
      modifies this`files, this`io
      ensures io == old(io) + CreateOps(l, crc, id, size) && files == AfterOps(old(files), CreateOps(l, crc, id, size))
    {
      hide Header, AfterOps, AfterOp;
      ghost var ops := CreateOps(l, crc, id, size);
      AfterThree(files, ops);
      Do(Io.Create(id));
      Do(Write(id, 0, Zeros(size)));
      Do(Write(id, 0, Header(l.cap, 0, 0, crc)));
    }

    /** The locked part of `_write_batch_to_disk`, on any file: payloads, then entry headers, then the file header. */
    method WritePhases(batch: Buffer, completed: set<nat>, stamps: seq<Stamp>, f: nat, slot: nat)
      returns (r: Result<(), WalError>, ghost ops: seq<Io>)
      requires Packable(l) && f in files && batch != [] && |stamps| == |batch|
               && Consecutive(batch, FirstTx(l, f) + slot)
      requires var header := ReadHeader(files[f], crc);
               header.Ok? ==> header.value.cap == l.cap && header.value.used <= l.area
                              && header.value.rec + |batch| < 0x1_0000_0000
      modifies this`files, this`io
      ensures io == old(io) + ops && files == AfterOps(old(files), ops)
      ensures var header, added := ReadHeader(old(files[f]), crc), BatchRecs(batch, completed);
              if header.Err? then r == Err(BadHeader(header.error)) && ops == []
              else && (r.Ok? <==> BatchFits(l, f, slot, header.value.rec, header.value.used, added))
                   && (r.Ok? ==> ops == BatchOps(l, crc, f, slot, header.value.rec, header.value.used, added, stamps))
                   && (r.Err? && ops != [] ==>
                         Fit(added) && ops == [Write(f, Block(l) + header.value.used, Frames(added))])
    {
      hide Put, Header, ReadHeader, Used, Entries, Frames, FirstTx, Fit, Block, SlotAt, AfterOps, AfterOp;
      ops := [];
      AfterNothing(files);
      ghost var added := BatchRecs(batch, completed);
      var header := ReadHeader(files[f], crc);
      if header.Err? {
        return Err(BadHeader(header.error)), ops;
      }
      var start := header.value.used;
      var blocks := BuildPayloads(l, batch, start, completed);
      if blocks.Err? {
        return Err(blocks.error), ops;
      }
      AfterOne(old(files), ops, Write(f, Block(l) + start, blocks.value.1));
      ops := ops + [Write(f, Block(l) + start, blocks.value.1)];
      Do(Write(f, Block(l) + start, blocks.value.1));
      SpaceBound(l, start, added);
      var entries := BuildEntries(l, batch, blocks.value.0, completed, stamps, FirstTx(l, f) + slot, Block(l) + start);
      if entries.Err? {
        return Err(entries.error), ops;
      }
      AfterOne(old(files), ops, Write(f, SlotAt(slot), entries.value));
      ops := ops + [Write(f, SlotAt(slot), entries.value)];
      Do(Write(f, SlotAt(slot), entries.value));
      var bytes := Header(header.value.cap, header.value.rec + |batch|, blocks.value.2, crc);
      AfterOne(old(files), ops, Write(f, 0, bytes));
      ops := ops + [Write(f, 0, bytes)];
      Do(Write(f, 0, bytes));
      return Ok(()), ops;
    }

    static lemma SpaceBound(l: Layout, used: nat, added: seq<Record>)
      requires Packable(l) && used + Used(added) <= l.area
      ensures Block(l) + used + Used(added) < 0x1_0000_0000_0000_0000
    {}

    /** A batch refused after its payloads were written: they lie past what the header counts. */
    static lemma PayloadsOnly(l: Layout, crc: Checksum, files: Files, recs: Stored, f: nat, added: seq<Record>)
      requires FilesOk(l, crc, files, recs) && Bounded(l, recs) && f in recs && Fit(added)
      ensures var ops := [Write(f, Block(l) + Used(recs[f]), Frames(added))];
              FilesOk(l, crc, AfterOps(files, ops), recs) && Shows(l, crc, files, ops, LogOf(l, recs))
    {
      hide FileOk, Unreadable, LogOf, Put, AfterOps, Represents, Shows, Frames, Used, Block;
      var op := Write(f, Block(l) + Used(recs[f]), Frames(added));
      assert [] + [op] == [op];
      AfterOne(files, [], op);
      Invisible(l, crc, files[f], f, recs[f], op.at, op.bytes);
      SoundRepresents(l, crc, files, recs);
      SameRecords(l, crc, files, recs, f, Put(files[f], op.at, op.bytes));
      FileReplaced(l, crc, files, recs, f, Put(files[f], op.at, op.bytes), recs[f]);
      assert recs[f := recs[f]] == recs;
      ShowsNothing(l, crc, files, LogOf(l, recs));
      ShowsOne(l, crc, files, [], op, LogOf(l, recs));
    }

    /** The changes a batch makes to the files: those that create its file, if need be, and its three writes. */
    static ghost function BatchIo(l: Layout, crc: Checksum, files: Files, recs: Stored, next: nat, batch: Buffer,
                                  completed: set<nat>, stamps: seq<Stamp>): (ops: seq<Io>)
      requires l.cap > 0
      requires var f := FileOf(l, next); var held := RecordsIn(recs, f);
               BatchFits(l, f, |held|, |held|, Used(held), BatchRecs(batch, completed)) && |stamps| == |batch|
      ensures |ops| >= 3
    {
      var f := FileOf(l, next);
      var held := RecordsIn(recs, f);
      (if f in files then [] else CreateOps(l, crc, f, HEADER_SIZE + Used(BatchRecs(batch, {}))))
      + BatchOps(l, crc, f, |held|, |held|, Used(held), BatchRecs(batch, completed), stamps)
    }

    /** What the three writes do to sound files. */
    static lemma BatchWritten(l: Layout, crc: Checksum, files: Files, recs: Stored, batch: Buffer, next: nat,
                              completed: set<nat>, stamps: seq<Stamp>)
      requires FilesOk(l, crc, files, recs) && Bounded(l, recs) && AlignedAt(l, recs, files.Keys, next)
      requires OneFile(l, batch) && Consecutive(batch, next) && |stamps| == |batch| && FileOf(l, next) in recs
      requires var held := recs[FileOf(l, next)];
               BatchFits(l, FileOf(l, next), |held|, |held|, Used(held), BatchRecs(batch, completed))
      ensures var f := FileOf(l, next); var held, added := recs[f], BatchRecs(batch, completed);
              var recs' := recs[f := held + added];
              var ops := BatchOps(l, crc, f, |held|, |held|, Used(held), added, stamps);
              && Shows(l, crc, files, ops[..2], LogOf(l, recs))
              && FilesOk(l, crc, AfterOps(files, ops), recs') && Bounded(l, recs')
              && AlignedAt(l, recs', files.Keys, next + |batch|)
              && LogOf(l, recs') == WalLog.Store(LogOf(l, recs), next, BufferPayloads(batch), completed)
    {
      hide AlignedAt, LogOf, WalLog.Store, FileOf, SlotOf, FileOk, Unreadable, AfterOps, Shows, BatchOps, Used,
           FirstTx, Holds, BufferPayloads, BatchRecs;
      OneFileSlots(l, batch, next);
      BatchSpace(l, crc, files, recs, files.Keys, next, |batch|);
      BatchStored(l, recs, files.Keys, batch, next, completed);
      BatchShows(l, crc, files, recs, FileOf(l, next), BatchRecs(batch, completed), stamps);
    }

    /** The writes of a batch into its own file, seen from the log: all of it, or nothing that shows. */
    method WriteToFile(batch: Buffer, completed: set<nat>, stamps: seq<Stamp>, f: nat, ghost next: nat)
      returns (r: Result<(), WalError>, ghost ops: seq<Io>)
      requires FilesOk(l, crc, files, recs) && Bounded(l, recs) && AlignedAt(l, recs, files.Keys, next)
      requires OneFile(l, batch) && Consecutive(batch, next) && |stamps| == |batch| && f == FileOf(l, next)
               && f in files
      modifies this`files, this`io, this`recs
      ensures FilesOk(l, crc, files, recs) && Bounded(l, recs) && files.Keys == old(files.Keys)
      ensures io == old(io) + ops && files == AfterOps(old(files), ops)
      ensures var held := old(RecordsIn(recs, f));
              r.Ok? <==> f in old(recs) && BatchFits(l, f, |held|, |held|, Used(held), BatchRecs(batch, completed))
      ensures r.Ok? ==> var held := old(RecordsIn(recs, f));
                        && ops == BatchOps(l, crc, f, |held|, |held|, Used(held), BatchRecs(batch, completed), stamps)
                        && Shows(l, crc, old(files), ops[..2], old(Log()))
      ensures r.Ok? ==> && AlignedAt(l, recs, files.Keys, next + |batch|)
                        && Log() == WalLog.Store(old(Log()), next, BufferPayloads(batch), completed)
                        && recs == old(recs)[f := old(RecordsIn(recs, f)) + BatchRecs(batch, completed)]
      ensures r.Err? ==> recs == old(recs) && Shows(l, crc, old(files), ops, old(Log()))
    {
      hide FilesOk, FileOk, AlignedAt, LogOf, Put, Header, ReadHeader, FileOf, SlotOf, Used, FirstTx, OneFile,
           BatchFits, Bounded, Consecutive, BatchRecs, AfterOps, Shows, Represents, BatchOps, Frames, Holds,
           BufferPayloads, WalLog.Store;
      BatchStart(l, crc, files, recs, batch, next);
      KeysOk(l, crc, files, recs);
      BatchSpace(l, crc, files, recs, files.Keys, next, |batch|);
      ghost var held, log, files1 := RecordsIn(recs, f), Log(), files;
      r, ops := WritePhases(batch, completed, stamps, f, SlotOf(l, batch[0].0));
      if r.Err? {
        AfterNothing(files1);
        SoundRepresents(l, crc, files1, recs);
        ShowsNothing(l, crc, files1, log);
        if ops != [] {
          PayloadsOnly(l, crc, files1, recs, f, BatchRecs(batch, completed));
          assert files.Keys == files1.Keys by { AfterOne(files1, [], ops[0]); assert [] + [ops[0]] == ops; }
        }
        return;
      }
      BatchWritten(l, crc, files1, recs, batch, next, completed, stamps);
      BatchKeys(l, crc, files1, f, |held|, |held|, Used(held), BatchRecs(batch, completed), stamps);
      recs := recs[f := held + BatchRecs(batch, completed)];
    }

    /**
     `_write_batch_to_disk`: a batch of one file goes to the log as a whole or not at all. Up to its last change of
     a file the log on disk is the one before the batch.
     */
    method WriteBatchToDisk(batch: Buffer, completed: set<nat>, stamps: seq<Stamp>, ghost next: nat)
      returns (r: Result<(), WalError>, ghost ops: seq<Io>)
      requires FilesOk(l, crc, files, recs) && Bounded(l, recs) && AlignedAt(l, recs, files.Keys, next)
      requires OneFile(l, batch) && Consecutive(batch, next) && |stamps| == |batch|
      modifies this`files, this`io, this`recs
      ensures FilesOk(l, crc, files, recs) && Bounded(l, recs)
      ensures io == old(io) + ops && files == AfterOps(old(files), ops)
      ensures var f, held := FileOf(l, next), old(RecordsIn(recs, FileOf(l, next)));
              r.Ok? <==> && (f in old(files) ==> f in old(recs))
                         && BatchFits(l, f, |held|, |held|, Used(held), BatchRecs(batch, completed))
      ensures r.Ok? ==> && ops == BatchIo(l, crc, old(files), old(recs), next, batch, completed, stamps)
                        && Shows(l, crc, old(files), ops[..|ops| - 1], old(Log()))
      ensures r.Ok? ==> && AlignedAt(l, recs, files.Keys, next + |batch|)
                        && Log() == WalLog.Store(old(Log()), next, BufferPayloads(batch), completed)
      ensures r.Ok? ==> && files.Keys == old(files.Keys) + {FileOf(l, next)}
                        && var f, added := FileOf(l, next), BatchRecs(batch, completed);
                           recs == old(recs)[f := RecordsIn(old(recs), f) + added]
      ensures r.Err? ==> Log() == old(Log()) && Shows(l, crc, old(files), ops, old(Log()))
    {
      hide FilesOk, FileOk, AlignedAt, LogOf, FileOf, SlotOf, Used, FirstTx, OneFile, BatchFits, ReadHeader, Bounded,
           Consecutive, BatchRecs, AfterOps, Shows, Represents, BatchOps, CreateOps, Holds, BufferPayloads,
           WalLog.Store;
      ops := [];
      AfterNothing(files);
      SoundRepresents(l, crc, files, recs);
      ShowsNothing(l, crc, files, Log());
      BatchStart(l, crc, files, recs, batch, next);
      KeysOk(l, crc, files, recs);
      IdFits(l, next, batch, completed, RecordsIn(recs, FileOf(l, next)));
      BatchSpace(l, crc, files, recs, files.Keys, next, |batch|);
      if batch[0].0 > MAX_TX {
        return Err(BadId), ops;
      }
      var f := FileOf(l, batch[0].0);
      ops := PreAllocate(f, HEADER_SIZE + Used(BatchRecs(batch, {})));
      assert RecordsIn(recs, f) == old(RecordsIn(recs, FileOf(l, next)));
      ghost var log, writes := Log(), [];
      r, writes := WriteToFile(batch, completed, stamps, f, next);
      AfterConcat(old(files), ops, writes);
      if r.Err? {
        ShowsConcat(l, crc, old(files), ops, writes, log);
      } else {
        ShowsConcat(l, crc, old(files), ops, writes[..2], log);
        assert (ops + writes)[..|ops + writes| - 1] == ops + writes[..2];
      }
      ops := ops + writes;
    }

    /** A batch whose first id is out of range does not fit. */
    static lemma IdFits(l: Layout, next: nat, batch: Buffer, completed: set<nat>, held: seq<Record>)
      requires l.cap > 0 && batch != []
      ensures FirstTx(l, FileOf(l, next)) + |held| == next && next > MAX_TX ==>
                !BatchFits(l, FileOf(l, next), |held|, |held|, Used(held), BatchRecs(batch, completed))
    {}

    /** The loop of `_write_buffer_to_disk` over the batches of a buffer that starts at `first`. */
    method WriteBatches(batches: seq<Buffer>, completed: set<nat>, clock: seq<Stamp>, ghost buffer: Buffer,
                        ghost first: nat)
      returns (r: Result<(), WalError>, ghost ops: seq<Io>)
      requires FilesOk(l, crc, files, recs) && Bounded(l, recs) && AlignedAt(l, recs, files.Keys, first)
      requires Flat(batches) == buffer && Consecutive(buffer, first) && |clock| == |buffer|
      requires forall k | 0 <= k < |batches| :: OneFile(l, batches[k])
      requires OnePerFile(l, batches)
      modifies this`files, this`io, this`recs
      ensures FilesOk(l, crc, files, recs) && Bounded(l, recs)
      ensures io == old(io) + ops && files == AfterOps(old(files), ops)
      ensures ShowsPrefix(l, crc, old(files), ops, old(Log()), first, BufferPayloads(buffer), completed)
      ensures r.Ok? ==> && AlignedAt(l, recs, files.Keys, first + |buffer|)
                        && Log() == WalLog.Store(old(Log()), first, BufferPayloads(buffer), completed)
      ensures first + |buffer| <= MAX_TX + 1 && RoomFor(l, old(files), old(recs), buffer) ==> r.Ok?
    {
      hide FilesOk, AlignedAt, LogOf, FileOf, SlotOf, WalLog.Store, RoomFor, Represents, Prefix, Untouched, Used,
           BatchFits, BatchRecs, Flat, BufferPayloads, Shows, ShowsPrefix, AfterOps, BatchIo, SameFile, FirstTx,
           RecordsIn, Holds, OneFile, Consecutive, OnePerFile;
      ops := [];
      ghost var log, all, recs0, files0 := Log(), BufferPayloads(buffer), recs, files;
      StoreNothing(log, first, completed);
      assert all[..0] == [];
      AfterNothing(files);
      SoundRepresents(l, crc, files, recs);
      PrefixNothing(l, crc, files, log, first, all, completed);
      var at := 0;
      FlatNothing();
      UntouchedStart(l, batches, files, recs);
      assert batches[..0] == [] && batches[0..] == batches;
      for k := 0 to |batches|
        invariant FilesOk(l, crc, files, recs) && Bounded(l, recs)
        invariant at == |Flat(batches[..k])| <= |buffer|
        invariant AlignedAt(l, recs, files.Keys, first + at) && Log() == WalLog.Store(log, first, all[..at], completed)
        invariant Untouched(l, batches[k..], files, recs, files0, recs0)
        invariant io == old(io) + ops && files == AfterOps(files0, ops)
        invariant ShowsPrefix(l, crc, files0, ops, log, first, all, completed)
      {
        var batch := batches[k];
        FlatAt(batches, k);
        NextPart(buffer, first, at, batch);
        SomeBatch(l, batch, first + at);
        assert batches[..k + 1][..k] == batches[..k];
        UntouchedNow(l, batches, k, files, recs, files0, recs0);
        BatchHasRoom(l, crc, files, recs, files0, recs0, buffer, first, at, batch, completed);
        ghost var files1, recs1, writes := files, recs, [];
        r, writes := WriteBatchToDisk(batch, completed, clock[at..at + |batch|], first + at);
        AfterConcat(files0, ops, writes);
        SoundRepresents(l, crc, files, recs);
        if r.Err? {
          PrefixRefused(l, crc, files0, ops, writes, log, first, all, completed, at);
          ops := ops + writes;
          return;
        }
        UntouchedStep(l, batches, k, files1, recs1, files0, recs0, files,
                      RecordsIn(recs1, FileOf(l, batch[0].0)) + BatchRecs(batch, completed));
        StoreTwice(log, first, all[..at], BufferPayloads(batch), completed);
        PrefixGrows(l, crc, files0, ops, writes, log, first, all, completed, at, at + |batch|);
        at := at + |batch|;
        ops := ops + writes;
      }
      assert batches[..|batches|] == batches && all[..|all|] == all;
      return Ok(()), ops;
    }

    /**
     A round of the writer loop: the buffer is swapped out and written, one batch per file, with the
     marks it collected.
     */
    method WriteBufferToDisk(clock: seq<Stamp>) returns (r: Result<(), WalError>, ghost ops: seq<Io>)
      requires Valid() && |clock| == |walBuffer|
      modifies this`files, this`io, this`recs, this`walBuffer, this`ramCompleted
      ensures Sound() && walBuffer == [] && ramCompleted == if old(walBuffer) == [] then old(ramCompleted) else {}
      ensures r.Ok? ==> Valid() && Log() == old(Whole())
      // a stop between any two changes of a file leaves the old log and some first part of the buffer
      ensures io == old(io) + ops && files == AfterOps(old(files), ops)
      ensures ShowsPrefix(l, crc, old(files), ops, old(Log()), old(Next()), old(BufferPayloads(walBuffer)),
              old(ramCompleted))
      ensures old(globalTxId) <= MAX_TX + 1 && RoomFor(l, old(files), old(recs), old(walBuffer)) ==> r.Ok?
    {
      hide FilesOk, AlignedAt, LogOf, FileOf, WalLog.Store, RoomFor, Represents, Flat, BufferPayloads, ShowsPrefix,
           AfterOps, Holds;
      ops := [];
      var bufferCopy := walBuffer;
      walBuffer := [];
      if bufferCopy == [] {
        StoreNothing(Log(), globalTxId, ramCompleted);
        AfterNothing(files);
        SoundRepresents(l, crc, files, recs);
        assert BufferPayloads(bufferCopy) == [] == BufferPayloads(bufferCopy)[..0];
        PrefixNothing(l, crc, files, Log(), globalTxId, BufferPayloads(bufferCopy), ramCompleted);
        return Ok(()), ops;
      }
      var completedCopy := ramCompleted;
      ramCompleted := {};
      ghost var first := old(Next());
      var batches := SplitByFile(l, bufferCopy, first);
      r, ops := WriteBatches(batches, completedCopy, clock, bufferCopy, first);
    }

    static lemma SomeBatch(l: Layout, batch: Buffer, next: nat)
      requires l.cap > 0 && OneFile(l, batch) && Consecutive(batch, next)
      ensures batch != [] && batch[0].0 == next
    {}

    /** With room for the whole buffer and ids in range, each of its batches fits. */
    static lemma BatchHasRoom(l: Layout, crc: Checksum, files: Files, recs: Stored, files0: Files, recs0: Stored,
                              buffer: Buffer, first: nat, at: nat, batch: Buffer, completed: set<nat>)
      requires FilesOk(l, crc, files, recs) && AlignedAt(l, recs, files.Keys, first + at) && OneFile(l, batch)
      requires Consecutive(batch, first + at) && at + |batch| <= |buffer| && buffer[at..at + |batch|] == batch
      requires SameFile(FileOf(l, batch[0].0), files, recs, files0, recs0)
      ensures first + |buffer| <= MAX_TX + 1 && RoomFor(l, files0, recs0, buffer) ==>
                var f, held := FileOf(l, first + at), RecordsIn(recs, FileOf(l, first + at));
                && (f in files ==> f in recs)
                && BatchFits(l, f, |held|, |held|, Used(held), BatchRecs(batch, completed))
    {
      hide FileOf, SlotOf, Used, FileOk, FirstTx, RoomFor, AlignedAt, SameFile, Unreadable;
      BatchStart(l, crc, files, recs, batch, first + at);
      BatchSpace(l, crc, files, recs, files.Keys, first + at, |batch|);
      if first + |buffer| <= MAX_TX + 1 && RoomFor(l, files0, recs0, buffer) {
        BatchRoom(l, files, recs, files0, recs0, buffer, at, batch, completed);
      }
    }

    // -------------------------------------------------------------------------------------
    // Reading and restarting

    /** `read_wal`: everything incomplete on disk; nothing stored lies at or above the writer's position. */
    method ReadWal(ids: seq<nat>) returns (out: seq<(nat, Data)>)
      requires Valid() && Listing(ids, files)
      ensures out == Readable(WalLog.Pending(Log(), Next()))
    {
      hide FilesOk, Bounded, AlignedAt, LogOf, Holds, Readable, WalLog.Pending;
      StoredBelow();
      out := ReadFiles(l, crc, files, ids, recs);
    }

    /** A process that starts over what an earlier one left: an empty buffer behind the restored id. */
    constructor (l: Layout, crc: Checksum, files: Files, restored: nat, ghost recs: Stored)
      requires FilesOk(l, crc, files, recs) && Bounded(l, recs) && AlignedAt(l, recs, files.Keys, restored)
      ensures Valid() && this.l == l && this.crc == crc && this.files == files && this.recs == recs
      ensures walBuffer == [] && ramCompleted == {} && io == [] && globalTxId == restored
    {
      hide FilesOk, AlignedAt;
      this.l, this.crc, this.files, this.recs, this.io := l, crc, files, recs, [];
      globalTxId, walBuffer, ramCompleted := restored, [], {};
    }
  }

  /** `restore_global_tx_id`: only the newest file's header is looked at. A header cut short counts no record. */
  method RestoreGlobalTxId(l: Layout, crc: Checksum, files: Files, ids: seq<nat>) returns (r: Result<nat, HeaderFault>)
    requires Listing(ids, files)
    ensures r == RestoredId(l, crc, files, ids)
  {
    hide ReadHeader;
    if ids == [] {
      return Ok(0);
    }
    var newest := ids[|ids| - 1];
    assert newest in ids;
    var header := ReadHeader(files[newest], crc);
    if header == Err(Truncated) {
      return Ok(FirstTx(l, newest));
    }
    if header.Err? {
      return Err(header.error);
    }
    return Ok(FirstTx(l, newest) + header.value.rec);
  }

  function RestoredId(l: Layout, crc: Checksum, files: Files, ids: seq<nat>): Result<nat, HeaderFault>
    requires ids != [] ==> ids[|ids| - 1] in files
  {
    if ids == [] then Ok(0)
    else
      var newest := ids[|ids| - 1];
      var header := ReadHeader(files[newest], crc);
      if header == Err(Truncated) then Ok(FirstTx(l, newest))
      else if header.Err? then Err(header.error)
      else Ok(FirstTx(l, newest) + header.value.rec)
  }

  /** The newest file in the directory was cut off before its header, or has one. */
  ghost predicate Restartable(crc: Checksum, files: Files, ids: seq<nat>)
    requires ids != [] ==> ids[|ids| - 1] in files
  {
    ids != [] ==> var newest := files[ids[|ids| - 1]]; |newest| < HEADER_SIZE || ReadHeader(newest, crc).Ok?
  }

  /**
   A restart is refused exactly if the newest file is of header length and not accepted; else it
   resumes behind everything stored.
   */
  lemma RestoredRight(l: Layout, crc: Checksum, files: Files, recs: Stored, ids: seq<nat>)
    requires FilesOk(l, crc, files, recs) && Bounded(l, recs) && Listing(ids, files)
    ensures ids != [] ==> ids[|ids| - 1] in files
    ensures RestoredId(l, crc, files, ids).Ok? <==> Restartable(crc, files, ids)
    ensures RestoredId(l, crc, files, ids).Ok? ==> RestoredId(l, crc, files, ids).value == Restored(l, recs, ids)
  {
    hide EntryOk, FirstTx, Unreadable;
    if ids != [] {
      var newest := ids[|ids| - 1];
      assert newest in ids;
      if newest in recs {
        assert FileOk(l, crc, files[newest], newest, recs[newest]);
      } else {
        UnreadableFails(crc, files[newest]);
      }
    }
  }

  /**
   `__init__` over the files an earlier process left, whole or not. It starts exactly if the newest file's header
   is accepted or cut short, and then hands out no id twice.
   */
  method Restart(l: Layout, crc: Checksum, files: Files, ids: seq<nat>, ghost recs: Stored)
    returns (r: Result<WAL, HeaderFault>)
    requires FilesOk(l, crc, files, recs) && Bounded(l, recs) && Listing(ids, files)
    ensures ids != [] ==> ids[|ids| - 1] in files
    ensures r.Ok? <==> Restartable(crc, files, ids)
    ensures r.Ok? ==> var wal := r.value;
                      && fresh(wal) && wal.Valid() && wal.l == l && wal.crc == crc && wal.files == files
                         && wal.recs == recs
                      && wal.walBuffer == [] && wal.ramCompleted == {}
                      && wal.globalTxId == Restored(l, recs, ids)
    // neither an id that is stored nor one an earlier writer has passed is handed out again
    ensures r.Ok? ==> forall tx | tx in r.value.Log() :: tx < r.value.globalTxId
    ensures r.Ok? ==> forall next: nat | AlignedAt(l, recs, files.Keys, next) :: next <= r.value.globalTxId
  {
    hide FilesOk, AlignedAt, LogOf, Holds, Bounded, Restartable, RestoredId;
    RestoredRight(l, crc, files, recs, ids);
    var restored := RestoreGlobalTxId(l, crc, files, ids);
    if restored.Err? {
      return Err(restored.error);
    }
    KeysOk(l, crc, files, recs);
    RestoredAligned(l, recs, files.Keys, ids);
    forall next: nat | AlignedAt(l, recs, files.Keys, next) ensures next <= restored.value {
      RestoredReaches(l, recs, files.Keys, ids, next);
    }
    var wal := new WAL(l, crc, files, restored.value, recs);
    return Ok(wal);
  }

  lemma KeysOk(l: Layout, crc: Checksum, files: Files, recs: Stored)
    requires FilesOk(l, crc, files, recs)
    ensures recs.Keys <= files.Keys && l.cap > 0
  {}

  /**
   A process that stops while it creates the newest file can be restarted if it stopped before the file was filled
   or after the header was written. In between the file is all zeros, and the restart is refused.
   */
  lemma StoppedCreation(l: Layout, crc: Checksum, files: Files, recs: Stored, ids: seq<nat>, id: nat, size: nat, k: nat)
    requires FilesOk(l, crc, files, recs) && Bounded(l, recs) && Listing(ids, files)
    requires (forall f | f in files :: f < id) && size >= HEADER_SIZE && k <= 3 && Restartable(crc, files, ids)
    ensures l.cap < 0x1_0000_0000
    ensures var files' := AfterOps(files, CreateOps(l, crc, id, size)[..k]);
            var ids' := if k == 0 then ids else ids + [id];
            Listing(ids', files') && (Restartable(crc, files', ids') <==> k != 2)
  {
    hide FileOk, Unreadable, ReadHeader, Header, Put, AfterOps, FilesOk, Ascends;
    SmallCap(l, crc, files, recs);
    CreateFiles(l, crc, files, id, size);
    NewestListed(ids, files, id, []);
    NewestListed(ids, files, id, Zeros(size));
    NewestListed(ids, files, id, Put(Zeros(size), 0, Header(l.cap, 0, 0, crc)));
    ZerosRefused(crc, size);
    CreatedReads(l, crc, files, recs, id, size);
    assert k == 0 || k == 1 || k == 2 || k == 3;
  }

  lemma NewestListed(ids: seq<nat>, files: Files, id: nat, file: Data)
    requires Listing(ids, files) && forall f | f in files :: f < id
    ensures Listing(ids + [id], files[id := file])
  {
    var ids', keys := ids + [id], files[id := file].Keys;
    forall f ensures f in keys <==> f in ids' {
      if f in ids' { assert f in ids || f == id; }
    }
    forall i | 0 <= i < |ids| ensures ids[i] < id { assert ids[i] in ids; }
  }

  lemma SmallCap(l: Layout, crc: Checksum, files: Files, recs: Stored)
    requires FilesOk(l, crc, files, recs)
    ensures l.cap < 0x1_0000_0000
  {}

  lemma CreatedReads(l: Layout, crc: Checksum, files: Files, recs: Stored, id: nat, size: nat)
    requires FilesOk(l, crc, files, recs) && size >= HEADER_SIZE
    ensures ReadHeader(Put(Zeros(size), 0, Header(l.cap, 0, 0, crc)), crc).Ok?
  {
    hide ReadHeader, Header, Put;
    CreatedFile(l, crc, id, size);
  }
}
