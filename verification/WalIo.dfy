/**
 The writes the log issues, one by one: a process can stop between any two of them.

 `AfterOps` is what is on disk after a list of writes. The lemmas say which log a reader finds at every
 point inside the creation of a file, a batch and a run of marks.
 */
module WalIo {
  import opened Wrappers
  import opened Bytes
  import opened WalFile
  import opened WalBatch
  import opened WalStore
  import opened WalSteps
  import WalLog

  /** An open that creates the file, one `seek` and `write`, or an `unlink`. */
  datatype Io = Create(id: nat) | Write(id: nat, at: nat, bytes: Data) | Remove(id: nat)

  function AfterOp(files: Files, op: Io): Files {
    match op
    case Create(id) => files[id := []]
    case Write(id, at, bytes) => if id in files then files[id := Put(files[id], at, bytes)] else files
    case Remove(id) => files - {id}
  }

  function AfterOps(files: Files, ops: seq<Io>): Files {
    if ops == [] then files else AfterOp(AfterOps(files, ops[..|ops| - 1]), ops[|ops| - 1])
  }

  lemma {:induction false} AfterConcat(files: Files, a: seq<Io>, b: seq<Io>)
    ensures AfterOps(files, a + b) == AfterOps(AfterOps(files, a), b)
    decreases |b|
  {
    hide AfterOp;
    if b == [] {
      assert a + b == a;
    } else {
      assert (a + b)[..|a + b| - 1] == a + b[..|b| - 1];
      AfterConcat(files, a, b[..|b| - 1]);
    }
  }

  lemma AfterOne(files: Files, ops: seq<Io>, op: Io)
    ensures AfterOps(files, ops + [op]) == AfterOp(AfterOps(files, ops), op)
    ensures AfterOps(files, []) == files
  {
    hide AfterOp;
    assert (ops + [op])[..|ops|] == ops;
  }

  lemma AfterThree(files: Files, ops: seq<Io>)
    requires |ops| == 3
    ensures AfterOps(files, ops) == AfterOp(AfterOp(AfterOp(files, ops[0]), ops[1]), ops[2])
  {
    hide AfterOp, AfterOps;
    assert ops == [] + [ops[0]] + [ops[1]] + [ops[2]];
    AfterOne(files, [], ops[0]);
    AfterOne(files, [] + [ops[0]], ops[1]);
    AfterOne(files, [] + [ops[0]] + [ops[1]], ops[2]);
  }

  // ---------------------------------------------------------------------------------------
  // What a reader finds wherever the writes stop

  /** Wherever the writes stop, the files hold `log`. */
  ghost predicate Shows(l: Layout, crc: Checksum, files: Files, ops: seq<Io>, log: WalLog.Log<Data>) {
    forall k | 0 <= k <= |ops| :: Represents(l, crc, AfterOps(files, ops[..k]), log)
  }

  /** The files hold the old log and the first part, possibly all or nothing, of a run of transactions. */
  ghost predicate Prefix(l: Layout, crc: Checksum, files: Files, log: WalLog.Log<Data>, first: nat,
                         payloads: seq<Data>, completed: set<nat>) {
    exists m: nat ::
      m <= |payloads| && Represents(l, crc, files, WalLog.Store(log, first, payloads[..m], completed))
  }

  /** Wherever the writes stop, the files hold the old log and some first part of the run. */
  ghost predicate ShowsPrefix(l: Layout, crc: Checksum, files: Files, ops: seq<Io>, log: WalLog.Log<Data>, first: nat,
                              payloads: seq<Data>, completed: set<nat>) {
    forall k | 0 <= k <= |ops| :: Prefix(l, crc, AfterOps(files, ops[..k]), log, first, payloads, completed)
  }

  /** Wherever the writes stop, the files hold the log with some of the marks. */
  ghost predicate ShowsMarks(l: Layout, crc: Checksum, files: Files, ops: seq<Io>, log: WalLog.Log<Data>,
                             txs: set<nat>) {
    forall k | 0 <= k <= |ops| :: SomeMarks(l, crc, AfterOps(files, ops[..k]), log, txs)
  }

  ghost predicate SomeMarks(l: Layout, crc: Checksum, files: Files, log: WalLog.Log<Data>, txs: set<nat>) {
    exists done: set<nat> :: done <= txs && Represents(l, crc, files, WalLog.MarkDone(log, done))
  }

  lemma SoundRepresents(l: Layout, crc: Checksum, files: Files, recs: Stored)
    requires FilesOk(l, crc, files, recs) && Bounded(l, recs)
    ensures Represents(l, crc, files, LogOf(l, recs))
  {}

  lemma ShowsNothing(l: Layout, crc: Checksum, files: Files, log: WalLog.Log<Data>)
    requires Represents(l, crc, files, log)
    ensures Shows(l, crc, files, [], log)
  {
    hide Represents;
  }

  lemma ShowsOne(l: Layout, crc: Checksum, files: Files, ops: seq<Io>, op: Io, log: WalLog.Log<Data>)
    requires Shows(l, crc, files, ops, log) && Represents(l, crc, AfterOps(files, ops + [op]), log)
    ensures Shows(l, crc, files, ops + [op], log)
  {
    hide Represents, AfterOps;
    forall k | 0 <= k <= |ops| + 1 ensures Represents(l, crc, AfterOps(files, (ops + [op])[..k]), log) {
      if k <= |ops| {
        assert (ops + [op])[..k] == ops[..k];
      } else {
        assert (ops + [op])[..k] == ops + [op];
      }
    }
  }

  lemma ShowsFront(l: Layout, crc: Checksum, files: Files, ops: seq<Io>, log: WalLog.Log<Data>)
    requires Shows(l, crc, files, ops, log)
    ensures ops != [] ==> Shows(l, crc, files, ops[..|ops| - 1], log)
  {
    hide Represents, AfterOps;
    if ops != [] {
      var front := ops[..|ops| - 1];
      forall k | 0 <= k <= |front| ensures Represents(l, crc, AfterOps(files, front[..k]), log) {
        assert front[..k] == ops[..k];
      }
    }
  }

  lemma ShowsConcat(l: Layout, crc: Checksum, files: Files, a: seq<Io>, b: seq<Io>, log: WalLog.Log<Data>)
    requires Shows(l, crc, files, a, log) && Shows(l, crc, AfterOps(files, a), b, log)
    ensures Shows(l, crc, files, a + b, log)
  {
    hide Represents, AfterOps;
    forall k | 0 <= k <= |a + b| ensures Represents(l, crc, AfterOps(files, (a + b)[..k]), log) {
      SplitAt(files, a, b, k);
    }
  }

  /** Where two runs of writes stop: in the first, or in the second. */
  lemma SplitAt(files: Files, a: seq<Io>, b: seq<Io>, k: nat)
    requires k <= |a + b|
    ensures k <= |a| ==> (a + b)[..k] == a[..k]
    ensures k >= |a| ==> AfterOps(files, (a + b)[..k]) == AfterOps(AfterOps(files, a), b[..k - |a|])
  {
    hide AfterOps;
    if k >= |a| {
      assert (a + b)[..k] == a + b[..k - |a|];
      AfterConcat(files, a, b[..k - |a|]);
    }
  }

  lemma PrefixAt(l: Layout, crc: Checksum, files: Files, log: WalLog.Log<Data>, first: nat, payloads: seq<Data>,
                 completed: set<nat>, m: nat)
    requires m <= |payloads| && Represents(l, crc, files, WalLog.Store(log, first, payloads[..m], completed))
    ensures Prefix(l, crc, files, log, first, payloads, completed)
  {}

  lemma PrefixNothing(l: Layout, crc: Checksum, files: Files, log: WalLog.Log<Data>, first: nat, payloads: seq<Data>,
                      completed: set<nat>)
    requires Represents(l, crc, files, WalLog.Store(log, first, payloads[..0], completed))
    ensures ShowsPrefix(l, crc, files, [], log, first, payloads, completed)
  {
    hide Prefix, Represents, WalLog.Store;
    PrefixAt(l, crc, files, log, first, payloads, completed, 0);
  }

  /**
   A run of writes that shows one part of the payloads throughout, up to its last write, which shows
   a longer part.
   */
  lemma PrefixConcat(l: Layout, crc: Checksum, files: Files, a: seq<Io>, b: seq<Io>, log: WalLog.Log<Data>, first: nat,
                     payloads: seq<Data>, completed: set<nat>, m: nat)
    requires m <= |payloads| && ShowsPrefix(l, crc, files, a, log, first, payloads, completed)
    requires b != [] ==>
               Shows(l, crc, AfterOps(files, a), b[..|b| - 1], WalLog.Store(log, first, payloads[..m], completed))
    requires Prefix(l, crc, AfterOps(AfterOps(files, a), b), log, first, payloads, completed)
    ensures ShowsPrefix(l, crc, files, a + b, log, first, payloads, completed)
  {
    hide Represents, AfterOps, Prefix, WalLog.Store;
    forall k | 0 <= k <= |a + b|
      ensures Prefix(l, crc, AfterOps(files, (a + b)[..k]), log, first, payloads, completed)
    {
      SplitAt(files, a, b, k);
      if |a| <= k < |a + b| {
        assert b[..|b| - 1][..k - |a|] == b[..k - |a|];
        PrefixAt(l, crc, AfterOps(AfterOps(files, a), b[..k - |a|]), log, first, payloads, completed, m);
      } else if k == |a + b| {
        assert b[..k - |a|] == b;
      }
    }
  }

  /** A batch that is written: up to its last write the first `m` payloads, then the first `n`. */
  lemma PrefixGrows(l: Layout, crc: Checksum, files: Files, a: seq<Io>, b: seq<Io>, log: WalLog.Log<Data>, first: nat,
                    payloads: seq<Data>, completed: set<nat>, m: nat, n: nat)
    requires m <= |payloads| && n <= |payloads| && b != []
    requires ShowsPrefix(l, crc, files, a, log, first, payloads, completed)
    requires Shows(l, crc, AfterOps(files, a), b[..|b| - 1], WalLog.Store(log, first, payloads[..m], completed))
    requires Represents(l, crc, AfterOps(files, a + b), WalLog.Store(log, first, payloads[..n], completed))
    ensures ShowsPrefix(l, crc, files, a + b, log, first, payloads, completed)
  {
    hide Represents, AfterOps, Prefix, WalLog.Store, Shows, ShowsPrefix;
    AfterConcat(files, a, b);
    PrefixAt(l, crc, AfterOps(files, a + b), log, first, payloads, completed, n);
    PrefixConcat(l, crc, files, a, b, log, first, payloads, completed, m);
  }

  /** A batch that is refused shows the first `m` payloads throughout. */
  lemma PrefixRefused(l: Layout, crc: Checksum, files: Files, a: seq<Io>, b: seq<Io>, log: WalLog.Log<Data>,
                      first: nat, payloads: seq<Data>, completed: set<nat>, m: nat)
    requires m <= |payloads| && ShowsPrefix(l, crc, files, a, log, first, payloads, completed)
    requires Shows(l, crc, AfterOps(files, a), b, WalLog.Store(log, first, payloads[..m], completed))
    ensures ShowsPrefix(l, crc, files, a + b, log, first, payloads, completed)
  {
    hide Represents, AfterOps, Prefix, WalLog.Store, ShowsPrefix;
    var now := AfterOps(AfterOps(files, a), b);
    assert b[..|b|] == b;
    PrefixAt(l, crc, now, log, first, payloads, completed, m);
    ShowsFront(l, crc, AfterOps(files, a), b, WalLog.Store(log, first, payloads[..m], completed));
    PrefixConcat(l, crc, files, a, b, log, first, payloads, completed, m);
  }

  lemma MarksNothing(l: Layout, crc: Checksum, files: Files, log: WalLog.Log<Data>, txs: set<nat>)
    requires Represents(l, crc, files, log)
    ensures ShowsMarks(l, crc, files, [], log, txs)
  {
    hide Represents;
    assert WalLog.MarkDone(log, {}) == log;
  }

  lemma MarksConcat(l: Layout, crc: Checksum, files: Files, a: seq<Io>, b: seq<Io>, log: WalLog.Log<Data>,
                    txs: set<nat>, done: set<nat>)
    requires ShowsMarks(l, crc, files, a, log, txs) && |b| <= 1 && done <= txs
    requires Represents(l, crc, AfterOps(AfterOps(files, a), b), WalLog.MarkDone(log, done))
    ensures ShowsMarks(l, crc, files, a + b, log, txs)
  {
    hide Represents, AfterOps, WalLog.MarkDone;
    forall k | 0 <= k <= |a + b| ensures SomeMarks(l, crc, AfterOps(files, (a + b)[..k]), log, txs) {
      SplitAt(files, a, b, k);
      if k > |a| { assert b[..k - |a|] == b; }
    }
  }

  // ---------------------------------------------------------------------------------------
  // Changing one file

  lemma FileReplaced(l: Layout, crc: Checksum, files: Files, recs: Stored, id: nat, file: Data, r: seq<Record>)
    requires FilesOk(l, crc, files, recs) && FileOk(l, crc, file, id, r)
    ensures FilesOk(l, crc, files[id := file], recs[id := r])
  {
    hide FileOk, Unreadable;
  }

  lemma FileBroken(l: Layout, crc: Checksum, files: Files, recs: Stored, id: nat, file: Data)
    requires FilesOk(l, crc, files, recs) && id !in recs && Unreadable(crc, file)
    ensures FilesOk(l, crc, files[id := file], recs)
  {
    hide FileOk, Unreadable;
  }

  lemma SameRecords(l: Layout, crc: Checksum, files: Files, recs: Stored, id: nat, file: Data)
    requires FilesOk(l, crc, files, recs) && Bounded(l, recs) && id in recs && FileOk(l, crc, file, id, recs[id])
    ensures Represents(l, crc, files[id := file], LogOf(l, recs))
  {
    hide FileOk, LogOf;
    FileReplaced(l, crc, files, recs, id, file, recs[id]);
    assert recs[id := recs[id]] == recs;
  }

  // ---------------------------------------------------------------------------------------
  // Creating a file

  /** `pre_allocate_wal`: the open makes an empty file, then it is filled with zeros, then the header is written. */
  function CreateOps(l: Layout, crc: Checksum, id: nat, size: nat): seq<Io>
    requires l.cap < 0x1_0000_0000
  {
    [Create(id), Write(id, 0, Zeros(size)), Write(id, 0, Header(l.cap, 0, 0, crc))]
  }

  lemma PutZeros(size: nat)
    ensures Put([], 0, Zeros(size)) == Zeros(size)
  {}

  lemma CreateFiles(l: Layout, crc: Checksum, files: Files, id: nat, size: nat)
    requires l.cap < 0x1_0000_0000
    ensures var ops := CreateOps(l, crc, id, size);
            && AfterOps(files, ops[..0]) == files && AfterOps(files, ops[..1]) == files[id := []]
            && AfterOps(files, ops[..2]) == files[id := Zeros(size)]
            && AfterOps(files, ops[..3]) == AfterOps(files, ops)
               == files[id := Put(Zeros(size), 0, Header(l.cap, 0, 0, crc))]
  {
    hide Header, AfterOps, Put;
    var ops := CreateOps(l, crc, id, size);
    assert ops[..0] == [] && ops[..1] == [] + [ops[0]] && ops[..2] == ops[..1] + [ops[1]]
        && ops[..3] == ops[..2] + [ops[2]];
    assert ops[..3] == ops;
    AfterOne(files, [], ops[0]);
    AfterOne(files, ops[..1], ops[1]);
    AfterOne(files, ops[..2], ops[2]);
    PutZeros(size);
  }

  /** A new file, once its header is written, holds nothing. */
  lemma CreatedFile(l: Layout, crc: Checksum, id: nat, size: nat)
    requires Packable(l) && size >= HEADER_SIZE
    ensures FileOk(l, crc, Put(Zeros(size), 0, Header(l.cap, 0, 0, crc)), id, [])
  {
    hide Header, ReadHeader, Put;
    var h := Header(l.cap, 0, 0, crc);
    PutInside(Zeros(size), 0, h, 0, HEADER_SIZE);
    var file := Put(Zeros(size), 0, h);
    assert file[..HEADER_SIZE] == h;
    HeaderReads(file, l.cap, 0, 0, crc);
  }

  /**
   Creating a file changes nothing a reader gets, wherever it stops: until the header is there the
   file is refused.
   */
  lemma CreateShows(l: Layout, crc: Checksum, files: Files, recs: Stored, id: nat, size: nat)
    requires FilesOk(l, crc, files, recs) && Bounded(l, recs) && id !in files && size >= HEADER_SIZE
    requires l.cap < 0x1_0000_0000
    ensures var ops := CreateOps(l, crc, id, size);
            Shows(l, crc, files, ops, LogOf(l, recs)) && FilesOk(l, crc, AfterOps(files, ops), recs[id := []])
  {
    hide FileOk, Unreadable, LogOf, Header, AfterOps, Put, Represents, FilesOk, Bounded;
    var ops := CreateOps(l, crc, id, size);
    CreateFiles(l, crc, files, id, size);
    CreateStates(l, crc, files, recs, id, size);
    EmptyFileLog(l, recs, id);
    SoundRepresents(l, crc, files, recs);
    SoundRepresents(l, crc, files[id := []], recs);
    SoundRepresents(l, crc, files[id := Zeros(size)], recs);
    SoundRepresents(l, crc, AfterOps(files, ops), recs[id := []]);
    forall k | 0 <= k <= |ops| ensures Represents(l, crc, AfterOps(files, ops[..k]), LogOf(l, recs)) {
      assert k == 0 || k == 1 || k == 2 || k == 3;
    }
  }

  lemma CreateStates(l: Layout, crc: Checksum, files: Files, recs: Stored, id: nat, size: nat)
    requires FilesOk(l, crc, files, recs) && id !in files && size >= HEADER_SIZE
    ensures id !in recs && FilesOk(l, crc, files[id := []], recs) && FilesOk(l, crc, files[id := Zeros(size)], recs)
    ensures FilesOk(l, crc, files[id := Put(Zeros(size), 0, Header(l.cap, 0, 0, crc))], recs[id := []])
  {
    hide FileOk, Unreadable, Header, Put;
    ZerosRefused(crc, 0);
    assert Zeros(0) == [];
    ZerosRefused(crc, size);
    FileBroken(l, crc, files, recs, id, []);
    FileBroken(l, crc, files, recs, id, Zeros(size));
    CreatedFile(l, crc, id, size);
    FileReplaced(l, crc, files, recs, id, Put(Zeros(size), 0, Header(l.cap, 0, 0, crc)), []);
  }

  // ---------------------------------------------------------------------------------------
  // Writing a batch

  /**
   The ids, the payload area and the header fields leave room for a batch at `slot` behind `rec`
   records of `used` bytes.
   */
  ghost predicate BatchFits(l: Layout, id: nat, slot: nat, rec: nat, used: nat, batch: seq<Record>) {
    && Packable(l) && used + Used(batch) <= l.area && rec + |batch| < 0x1_0000_0000
    && FirstTx(l, id) + slot + |batch| <= MAX_TX + 1
  }

  lemma BatchFitsWide(l: Layout, id: nat, slot: nat, rec: nat, used: nat, batch: seq<Record>)
    requires BatchFits(l, id, slot, rec, used, batch)
    ensures Fit(batch) && Block(l) + used + Used(batch) < 0x1_0000_0000_0000_0000
  {
    forall i | 0 <= i < |batch| ensures |batch[i].payload| < 0x1_0000_0000 {
      UsedUpTo(batch, i);
    }
  }

  /** The write of a batch's entry headers. */
  function EntryWrite(id: nat, slot: nat, first: nat, batch: seq<Record>, stamps: seq<Stamp>, offset: nat): Io
    requires |stamps| == |batch| && first + |batch| <= MAX_TX + 1 && offset + Used(batch) < 0x1_0000_0000_0000_0000
  {
    Write(id, SlotAt(slot), Entries(first, batch, stamps, offset))
  }

  /** The three writes of a batch: payloads, entry headers, file header. */
  ghost function BatchOps(l: Layout, crc: Checksum, id: nat, slot: nat, rec: nat, used: nat, batch: seq<Record>,
                          stamps: seq<Stamp>): (ops: seq<Io>)
    requires BatchFits(l, id, slot, rec, used, batch) && |stamps| == |batch|
    ensures |ops| == 3
  {
    BatchFitsWide(l, id, slot, rec, used, batch);
    [Write(id, Block(l) + used, Frames(batch)),
     EntryWrite(id, slot, FirstTx(l, id) + slot, batch, stamps, Block(l) + used),
     Write(id, 0, Header(l.cap, rec + |batch|, used + Used(batch), crc))]
  }

  /** Three writes into one file, with the bytes after each. */
  lemma ThreeWrites(files: Files, id: nat, ops: seq<Io>, file0: Data, file1: Data, file2: Data, file3: Data)
    requires id in files && files[id] == file0 && |ops| == 3 && forall i | 0 <= i < 3 ::
               ops[i].Write? && ops[i].id == id
    requires file1 == Put(file0, ops[0].at, ops[0].bytes) && file2 == Put(file1, ops[1].at, ops[1].bytes)
    requires file3 == Put(file2, ops[2].at, ops[2].bytes)
    ensures AfterOps(files, ops[..0]) == files && AfterOps(files, ops[..1]) == files[id := file1]
    ensures AfterOps(files, ops[..2]) == files[id := file2] && AfterOps(files, ops) == files[id := file3]
  {
    hide AfterOps, Put;
    assert ops[..0] == [] && ops[..1] == [] + [ops[0]] && ops[..2] == ops[..1] + [ops[1]] && ops == ops[..2] + [ops[2]];
    AfterOne(files, [], ops[0]);
    AfterOne(files, ops[..1], ops[1]);
    AfterOne(files, ops[..2], ops[2]);
  }

  lemma BatchWrites(l: Layout, crc: Checksum, id: nat, slot: nat, rec: nat, used: nat, batch: seq<Record>,
                    stamps: seq<Stamp>)
    requires BatchFits(l, id, slot, rec, used, batch) && |stamps| == |batch|
    requires l.cap < 0x1_0000_0000 && rec + |batch| < 0x1_0000_0000 && used + Used(batch) < 0x1_0000_0000_0000_0000
    requires Fit(batch) && Block(l) + used + Used(batch) < 0x1_0000_0000_0000_0000
    requires FirstTx(l, id) + slot + |batch| <= MAX_TX + 1
    ensures var ops := BatchOps(l, crc, id, slot, rec, used, batch, stamps);
            && ops[0] == Write(id, Block(l) + used, Frames(batch))
            && ops[1] == EntryWrite(id, slot, FirstTx(l, id) + slot, batch, stamps, Block(l) + used)
            && ops[2] == Write(id, 0, Header(l.cap, rec + |batch|, used + Used(batch), crc))
  {
    hide BatchFits, Used, Frames, EntryWrite, Header, Block, FirstTx, Fit;
  }

  lemma BatchKeys(l: Layout, crc: Checksum, files: Files, id: nat, slot: nat, rec: nat, used: nat, batch: seq<Record>,
                  stamps: seq<Stamp>)
    requires BatchFits(l, id, slot, rec, used, batch) && |stamps| == |batch| && id in files
    ensures AfterOps(files, BatchOps(l, crc, id, slot, rec, used, batch, stamps)).Keys == files.Keys
  {
    hide Put, Header, Frames, Entries, AfterOps, Used, FirstTx, Block, SlotAt, BatchOps;
    BatchFitsWide(l, id, slot, rec, used, batch);
    BatchWrites(l, crc, id, slot, rec, used, batch, stamps);
    AfterThree(files, BatchOps(l, crc, id, slot, rec, used, batch, stamps));
  }

  lemma RoomIsFit(l: Layout, id: nat, recs: seq<Record>, batch: seq<Record>)
    requires Room(l, id, recs, batch)
    ensures BatchFits(l, id, |recs|, |recs|, Used(recs), batch) && l.cap < 0x1_0000_0000
    ensures |recs| + |batch| < 0x1_0000_0000 && Used(recs) + Used(batch) < 0x1_0000_0000_0000_0000
    ensures FirstTx(l, id) + |recs| + |batch| <= MAX_TX + 1
  {
    hide FirstTx, Used;
  }

  lemma PutsAre(l: Layout, file: Data, file1: Data, id: nat, recs: seq<Record>, batch: seq<Record>, stamps: seq<Stamp>,
                ops: seq<Io>)
    requires Fit(batch) && |stamps| == |batch| && FirstTx(l, id) + |recs| + |batch| <= MAX_TX + 1 && |ops| == 3
    requires Block(l) + Used(recs) + Used(batch) < 0x1_0000_0000_0000_0000
    requires ops[0] == Write(id, Block(l) + Used(recs), Frames(batch))
    requires ops[1] == EntryWrite(id, |recs|, FirstTx(l, id) + |recs|, batch, stamps, Block(l) + Used(recs))
    ensures ops[1].Write? && ops[1].id == id
    ensures WithPayloads(l, file, recs, batch) == Put(file, ops[0].at, ops[0].bytes)
    ensures WithEntries(l, file1, id, recs, batch, stamps) == Put(file1, ops[1].at, ops[1].bytes)
  {
    hide Put, Block, Used, Frames, Entries, SlotAt, FirstTx, Fit, PutEntries, EntryWrite;
    EntryWritten(file1, id, |recs|, FirstTx(l, id) + |recs|, batch, stamps, Block(l) + Used(recs));
  }

  lemma HeaderIs(l: Layout, crc: Checksum, file: Data, id: nat, recs: seq<Record>, batch: seq<Record>, op: Io)
    requires l.cap < 0x1_0000_0000 && |recs| + |batch| < 0x1_0000_0000
    requires Used(recs) + Used(batch) < 0x1_0000_0000_0000_0000
    requires op == Write(id, 0, Header(l.cap, |recs| + |batch|, Used(recs) + Used(batch), crc))
    ensures WithHeader(l, file, recs, batch, crc) == Put(file, op.at, op.bytes)
  {
    hide Put, Used, Header;
  }

  lemma EntryWritten(file: Data, id: nat, slot: nat, first: nat, batch: seq<Record>, stamps: seq<Stamp>, offset: nat)
    requires |stamps| == |batch| && first + |batch| <= MAX_TX + 1 && offset + Used(batch) < 0x1_0000_0000_0000_0000
    ensures var op := EntryWrite(id, slot, first, batch, stamps, offset);
            && op.Write? && op.id == id
            && PutEntries(file, slot, first, batch, stamps, offset) == Put(file, op.at, op.bytes)
  {
    hide Put, Used, Entries, SlotAt;
  }

  lemma BatchFiles(l: Layout, crc: Checksum, files: Files, id: nat, recs: seq<Record>, batch: seq<Record>,
                   stamps: seq<Stamp>)
    requires Room(l, id, recs, batch) && |stamps| == |batch| && id in files
    requires Fit(batch) && Block(l) + Used(recs) + Used(batch) < 0x1_0000_0000_0000_0000
    ensures BatchFits(l, id, |recs|, |recs|, Used(recs), batch)
    ensures var ops := BatchOps(l, crc, id, |recs|, |recs|, Used(recs), batch, stamps);
            var file1 := WithPayloads(l, files[id], recs, batch);
            var file2 := WithEntries(l, file1, id, recs, batch, stamps);
            && AfterOps(files, ops[..0]) == files && AfterOps(files, ops[..1]) == files[id := file1]
            && AfterOps(files, ops[..2]) == files[id := file2]
            && l.cap < 0x1_0000_0000 && |recs| + |batch| < 0x1_0000_0000
            && AfterOps(files, ops) == files[id := WithHeader(l, file2, recs, batch, crc)]
  {
    hide Header, AfterOps, Put, Used, FirstTx, BatchOps, Block, Fit, SlotAt, Frames, Entries, Room, BatchFits,
         WithPayloads, WithEntries, WithHeader, EntryWrite;
    RoomIsFit(l, id, recs, batch);
    BatchWrites(l, crc, id, |recs|, |recs|, Used(recs), batch, stamps);
    var ops := BatchOps(l, crc, id, |recs|, |recs|, Used(recs), batch, stamps);
    var file1 := WithPayloads(l, files[id], recs, batch);
    var file2 := WithEntries(l, file1, id, recs, batch, stamps);
    PutsAre(l, files[id], file1, id, recs, batch, stamps, ops);
    HeaderIs(l, crc, file2, id, recs, batch, ops[2]);
    ThreeWrites(files, id, ops, files[id], file1, file2, WithHeader(l, file2, recs, batch, crc));
  }

  /** Up to the last of its writes a batch is invisible; with it all its records are there. */
  lemma BatchShows(l: Layout, crc: Checksum, files: Files, recs: Stored, id: nat, batch: seq<Record>,
                   stamps: seq<Stamp>)
    requires FilesOk(l, crc, files, recs) && Bounded(l, recs) && id in recs && Room(l, id, recs[id], batch)
    requires |stamps| == |batch|
    ensures var held := recs[id];
            && BatchFits(l, id, |held|, |held|, Used(held), batch)
            && var ops := BatchOps(l, crc, id, |held|, |held|, Used(held), batch, stamps);
            && Shows(l, crc, files, ops[..2], LogOf(l, recs))
            && FilesOk(l, crc, AfterOps(files, ops), recs[id := held + batch])
  {
    hide FileOk, LogOf, Header, AfterOps, Put, Represents, BatchOps, WithPayloads, WithEntries, WithHeader, Used;
    var held, file := recs[id], files[id];
    RoomFits(l, id, held, batch);
    BatchFiles(l, crc, files, id, held, batch, stamps);
    TornBatch(l, crc, file, id, held, batch, stamps);
    Committed(l, crc, file, id, held, batch, stamps);
    var ops := BatchOps(l, crc, id, |held|, |held|, Used(held), batch, stamps);
    var file1 := WithPayloads(l, file, held, batch);
    SoundRepresents(l, crc, files, recs);
    SameRecords(l, crc, files, recs, id, file1);
    SameRecords(l, crc, files, recs, id, WithEntries(l, file1, id, held, batch, stamps));
    FileReplaced(l, crc, files, recs, id, AfterOps(files, ops)[id], held + batch);
    forall k | 0 <= k <= 2 ensures Represents(l, crc, AfterOps(files, ops[..2][..k]), LogOf(l, recs)) {
      assert ops[..2][..k] == ops[..k];
    }
  }
}
