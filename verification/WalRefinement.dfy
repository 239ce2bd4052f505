/**
 The byte-level log carries out the engine's log: each operation of the `WAL` object, seen through a
 decoding of its payloads, is the engine's step of the same name.
 */
module WalRefinement {
  import opened Bytes
  import opened WalFile
  import opened WalStore
  import opened WalSteps
  import opened WalIo
  import opened WalWrite
  import opened WalModel
  import opened CheckpointModel
  import WalLog
  import E = Engine

  /** How a payload reads as a write; what the router packed is unpacked. */
  type Decode = Data -> E.Write

  function Decoded(log: WalLog.Log<Data>, d: Decode): WalLog.Log<E.Write> {
    map tx | tx in log :: WalLog.Entry(d(log[tx].payload), log[tx].done)
  }

  function DecodedBuffer(buffer: Buffer, d: Decode): (b: seq<(nat, E.Write)>)
    ensures |b| == |buffer| && forall i | 0 <= i < |b| :: b[i] == (buffer[i].0, d(buffer[i].1))
  {
    seq(|buffer|, i requires 0 <= i < |buffer| => (buffer[i].0, d(buffer[i].1)))
  }

  function DecodedPairs(es: seq<(nat, Data)>, d: Decode): (b: seq<(nat, E.Write)>)
    ensures |b| == |es| && forall i | 0 <= i < |b| :: b[i] == (es[i].0, d(es[i].1))
  {
    DecodedBuffer(es, d)
  }

  /** The object as the engine's state machine sees it. */
  ghost function Abstract(wal: WAL, d: Decode): E.Wal
    requires Bounded(wal.l, wal.recs)
    reads wal
  {
    E.Wal(DecodedBuffer(wal.walBuffer, d), wal.ramCompleted, Decoded(wal.Log(), d))
  }

  lemma StoreDecodes(log: WalLog.Log<Data>, first: nat, buffer: Buffer, ram: set<nat>, d: Decode)
    ensures Decoded(WalLog.Store(log, first, BufferPayloads(buffer), ram), d)
         == WalLog.Store(Decoded(log, d), first, E.Texts(DecodedBuffer(buffer, d)), ram)
  {
    hide BufferPayloads, DecodedBuffer;
    var ps, ws := BufferPayloads(buffer), E.Texts(DecodedBuffer(buffer, d));
    assert |ps| == |ws| && forall i | 0 <= i < |ps| :: ws[i] == d(ps[i]);
    StoreEach(log, first, ps, ws, ram, d);
  }

  lemma StoreEach(log: WalLog.Log<Data>, first: nat, ps: seq<Data>, ws: seq<E.Write>, ram: set<nat>, d: Decode)
    requires |ps| == |ws| && forall i | 0 <= i < |ps| :: ws[i] == d(ps[i])
    ensures Decoded(WalLog.Store(log, first, ps, ram), d) == WalLog.Store(Decoded(log, d), first, ws, ram)
  {}

  lemma MarkDecodes(log: WalLog.Log<Data>, txs: set<nat>, d: Decode)
    ensures Decoded(WalLog.MarkDone(log, txs), d) == WalLog.MarkDone(Decoded(log, d), txs)
  {}

  /** Reading and decoding commute. */
  lemma {:induction false} PendingDecodes(log: WalLog.Log<Data>, n: nat, d: Decode)
    ensures WalLog.Pending(Decoded(log, d), n) == DecodedPairs(WalLog.Pending(log, n), d)
  {
    if n > 0 { PendingDecodes(log, n - 1, d); }
  }

  /** `append_to_buffer` is the log side of the engine's `Set`. */
  method AppendStep(wal: WAL, payload: Data, ghost d: Decode) returns (tx: nat)
    requires wal.Valid()
    modifies wal
    ensures wal.Valid() && tx == old(wal.globalTxId) && wal.globalTxId == tx + 1
    ensures var before := old(Abstract(wal, d));
            Abstract(wal, d) == before.(buffer := before.buffer + [(tx, d(payload))])
  {
    hide AlignedAt, FilesOk, LogOf, Bounded;
    tx := wal.AppendToBuffer(payload);
  }

  /** The files hold a log that decodes to `log`. */
  ghost predicate Shown(l: Layout, crc: Checksum, files: Files, log: WalLog.Log<E.Write>, d: Decode) {
    exists b :: Represents(l, crc, files, b) && Decoded(b, d) == log
  }

  /** The files hold what the engine's log holds once some first part of the buffer is written. */
  ghost predicate ShownPart(l: Layout, crc: Checksum, files: Files, wal: E.Wal, d: Decode) {
    exists m: nat :: m <= |wal.buffer| && Shown(l, crc, files, E.WritePart(wal, m).log, d)
  }

  lemma PartDecodes(log: WalLog.Log<Data>, first: nat, buffer: Buffer, ram: set<nat>, d: Decode, m: nat)
    requires m <= |buffer| && Consecutive(buffer, first)
    ensures Decoded(WalLog.Store(log, first, BufferPayloads(buffer)[..m], ram), d)
         == E.WritePart(E.Wal(DecodedBuffer(buffer, d), ram, Decoded(log, d)), m).log
  {
    hide WalLog.Store, Decoded;
    var ps, ws := BufferPayloads(buffer)[..m], E.Texts(DecodedBuffer(buffer, d)[..m]);
    assert |ps| == |ws| && forall i | 0 <= i < |ps| :: ws[i] == d(ps[i]);
    StoreEach(log, first, ps, ws, ram, d);
    if m == 0 {
      assert ws == [];
      StoreNone(Decoded(log, d), first, ram);
    }
  }

  lemma StoreNone(log: WalLog.Log<E.Write>, first: nat, ram: set<nat>)
    ensures WalLog.Store(log, first, [], ram) == log
  {}

  lemma PrefixShown(l: Layout, crc: Checksum, files: Files, log: WalLog.Log<Data>, first: nat, buffer: Buffer,
                    ram: set<nat>, d: Decode)
    requires Prefix(l, crc, files, log, first, BufferPayloads(buffer), ram) && Consecutive(buffer, first)
    ensures ShownPart(l, crc, files, E.Wal(DecodedBuffer(buffer, d), ram, Decoded(log, d)), d)
  {
    hide Represents, WalLog.Store, Decoded, E.WritePart, BufferPayloads;
    var m: nat :| m <= |BufferPayloads(buffer)|
                  && Represents(l, crc, files, WalLog.Store(log, first, BufferPayloads(buffer)[..m], ram));
    PartDecodes(log, first, buffer, ram, d, m);
    assert Shown(l, crc, files, E.WritePart(E.Wal(DecodedBuffer(buffer, d), ram, Decoded(log, d)), m).log, d);
  }

  /**
   A round of the writer that finds room is the engine's `Writer`. Wherever it stops in between, with or without room,
   the files hold what the engine's log holds after some first part of the round.
   */
  method WriterStep(wal: WAL, clock: seq<Stamp>, ghost d: Decode) returns (ok: bool, ghost ops: seq<Io>)
    requires wal.Valid() && |clock| == |wal.walBuffer| && wal.walBuffer != []
    modifies wal
    ensures old(wal.globalTxId) <= MAX_TX + 1 && RoomFor(wal.l, old(wal.files), old(wal.recs), old(wal.walBuffer)) ==>
              ok
    ensures wal.Sound() && (ok ==> wal.Valid() && Abstract(wal, d) == E.WriteBuffer(old(Abstract(wal, d))))
    ensures wal.io == old(wal.io) + ops && wal.files == AfterOps(old(wal.files), ops)
    ensures forall k | 0 <= k <= |ops| ::
              ShownPart(wal.l, wal.crc, AfterOps(old(wal.files), ops[..k]), old(Abstract(wal, d)), d)
  {
    hide AlignedAt, FilesOk, LogOf, Bounded, RoomFor, WalLog.Store, AfterOps, ShownPart, Prefix, Decoded,
         BufferPayloads;
    StoreDecodes(wal.Log(), wal.Next(), wal.walBuffer, wal.ramCompleted, d);
    ghost var log, first, buffer, ram := wal.Log(), wal.Next(), wal.walBuffer, wal.ramCompleted;
    ghost var files, before := wal.files, Abstract(wal, d);
    var r;
    r, ops := wal.WriteBufferToDisk(clock);
    ok := r.Ok?;
    forall k | 0 <= k <= |ops| ensures ShownPart(wal.l, wal.crc, AfterOps(files, ops[..k]), before, d) {
      PrefixShown(wal.l, wal.crc, AfterOps(files, ops[..k]), log, first, buffer, ram, d);
    }
  }

  /** `mark_many_jobs_complete` is the engine's `Mark`. */
  method MarkStep(wal: WAL, txIds: seq<nat>, ghost d: Decode)
    requires wal.Valid()
    modifies wal
    ensures wal.Valid() && Abstract(wal, d) == E.MarkMany(old(Abstract(wal, d)), Ids(txIds))
  {
    hide AlignedAt, FilesOk, LogOf, Bounded, WalLog.MarkDone, Decoded, DecodedBuffer, Ids, E.MarkMany;
    ghost var onDisk := set t | t in txIds && !wal.Buffered(t);
    OnDiskIds(wal, txIds, d);
    MarkAbstract(wal.walBuffer, wal.ramCompleted, wal.Log(), Ids(txIds), onDisk, d);
    ghost var ops := wal.MarkManyJobsComplete(txIds);
  }

  lemma MarkAbstract(buffer: Buffer, ram: set<nat>, log: WalLog.Log<Data>, txs: set<nat>, onDisk: set<nat>, d: Decode)
    requires var b := DecodedBuffer(buffer, d);
             onDisk == if b == [] then txs else set tx | tx in txs && !(b[0].0 <= tx <= b[|b| - 1].0)
    ensures E.Wal(DecodedBuffer(buffer, d), ram + txs, Decoded(WalLog.MarkDone(log, onDisk), d))
         == E.MarkMany(E.Wal(DecodedBuffer(buffer, d), ram, Decoded(log, d)), txs)
  {
    hide Decoded, DecodedBuffer, WalLog.MarkDone;
    MarkDecodes(log, onDisk, d);
  }

  /** The engine's range test picks the ids that are not buffered. */
  lemma OnDiskIds(wal: WAL, txIds: seq<nat>, d: Decode)
    requires wal.Valid()
    ensures var b := DecodedBuffer(wal.walBuffer, d);
            (set t | t in txIds && !wal.Buffered(t))
            == if b == [] then Ids(txIds) else set tx | tx in Ids(txIds) && !(b[0].0 <= tx <= b[|b| - 1].0)
  {
    hide AlignedAt, FilesOk, Bounded;
    var first := wal.Next();
    forall t | first <= t < first + |wal.walBuffer| ensures wal.Buffered(t) {
      assert wal.walBuffer[t - first].0 == t;
    }
  }

  lemma {:induction false} NoneEmptyReadable(es: seq<(nat, Data)>)
    requires forall e | e in es :: e.1 != []
    ensures Readable(es) == es
    decreases |es|
  {
    if es != [] {
      NoneEmptyReadable(es[..|es| - 1]);
      assert es == es[..|es| - 1] + [es[|es| - 1]];
    }
  }

  /** What `read_wal` yields is what the engine's recovery replays, as no packed record is empty. */
  method ReadStep(wal: WAL, ids: seq<nat>, ghost d: Decode) returns (out: seq<(nat, Data)>)
    requires wal.Valid() && Listing(ids, wal.files)
    requires forall tx | tx in wal.Log() :: wal.Log()[tx].payload != []
    ensures DecodedPairs(out, d) == WalLog.Pending(Abstract(wal, d).log, wal.Next())
  {
    hide AlignedAt, FilesOk, LogOf, Bounded, WalLog.Pending, Readable;
    out := wal.ReadWal(ids);
    var log, n := wal.Log(), wal.Next();
    PendingDecodes(log, n, d);
    forall e | e in WalLog.Pending(log, n) ensures e.1 != [] {
      WalLog.PendingMember(log, n, e.0, e.1);
    }
    NoneEmptyReadable(WalLog.Pending(log, n));
  }

  /** Removing a file is the engine's `Checkpoint` of that file. */
  lemma RemoveFile(l: Layout, recs: Stored, f: nat, wal: E.Wal, d: Decode)
    requires Bounded(l, recs) && wal.log == Decoded(LogOf(l, recs), d)
    ensures Bounded(l, recs - {f}) && E.Archive(wal, f, l.cap).log == Decoded(LogOf(l, recs - {f}), d)
  {
    hide Txs;
    var a, b := LogOf(l, recs - {f}), LogOf(l, recs);
    forall tx: nat ensures tx in a <==> tx in b && tx / l.cap != f
                   ensures tx in a ==> a[tx] == b[tx]
    {}
  }
}
