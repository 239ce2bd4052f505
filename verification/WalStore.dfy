/**
 The log's files together: which transaction each slot stands for, and the log they amount to.

 Transaction `tx` lives in slot `tx % cap` of file `tx / cap`, so a set of well-formed files is a
 `WalLog` map, and reading the files in order is reading that map in order.
 */
module WalStore {
  import opened Bytes
  import opened WalFile
  import opened WalBatch
  import WalLog

  type Files = map<nat, Data>
  type Stored = map<nat, seq<Record>>

  function RecordsIn(recs: Stored, id: nat): seq<Record> {
    if id in recs then recs[id] else []
  }

  /** Every file is a well-formed one that holds its records, or one that no reader accepts. */
  ghost predicate FilesOk(l: Layout, crc: Checksum, files: Files, recs: Stored) {
    && Packable(l) && recs.Keys <= files.Keys
    && (forall id | id in recs :: FileOk(l, crc, files[id], id, recs[id]))
    && (forall id | id in files && id !in recs :: Unreadable(crc, files[id]))
  }

  // ---------------------------------------------------------------------------------------
  // Addressing

  /** `get_file_path`. */
  function FileOf(l: Layout, tx: nat): nat
    requires l.cap > 0
  {
    tx / l.cap
  }

  /** `get_slot_index`. */
  function SlotOf(l: Layout, tx: nat): (i: nat)
    requires l.cap > 0
    ensures i < l.cap
  {
    tx % l.cap
  }

  /** A transaction has one place, and a place one transaction. */
  lemma Address(l: Layout, tx: nat, id: nat, i: nat)
    requires l.cap > 0 && i < l.cap
    ensures FirstTx(l, id) + i == tx <==> FileOf(l, tx) == id && SlotOf(l, tx) == i
  {
    DivModUnique(l.cap, tx, id, i);
  }

  lemma DivModUnique(cap: nat, tx: nat, id: nat, i: nat)
    requires cap > 0 && i < cap
    ensures id * cap + i == tx <==> tx / cap == id && tx % cap == i
  {
    var q, r := tx / cap, tx % cap;
    assert q * cap + r == tx;
    if id * cap + i == tx {
      if id < q { MulStep(id + 1, q, cap); }
      if q < id { MulStep(q + 1, id, cap); }
    }
  }

  lemma MulStep(a: nat, b: nat, c: nat)
    requires a <= b
    ensures a * c <= b * c
  {}

  lemma FirstTxMono(l: Layout, a: nat, b: nat)
    requires a <= b
    ensures FirstTx(l, a) <= FirstTx(l, b) && FirstTx(l, a + 1) == FirstTx(l, a) + l.cap
  {
    MulStep(a, b, l.cap);
  }

  // ---------------------------------------------------------------------------------------
  // The log in the files

  ghost predicate Bounded(l: Layout, recs: Stored) {
    l.cap > 0 && forall id | id in recs :: |recs[id]| <= l.cap
  }

  ghost predicate Holds(l: Layout, recs: Stored, tx: nat)
    requires l.cap > 0
  {
    FileOf(l, tx) in recs && SlotOf(l, tx) < |recs[FileOf(l, tx)]|
  }

  ghost function Txs(l: Layout, recs: Stored): (txs: set<nat>)
    requires Bounded(l, recs)
    ensures forall tx :: tx in txs <==> Holds(l, recs, tx)
  {
    var txs := set id, tx | id in recs && tx in Span(FirstTx(l, id), |recs[id]|) :: tx;
    assert forall tx :: tx in txs <==> Holds(l, recs, tx) by {
      forall tx: nat ensures tx in txs <==> Holds(l, recs, tx) {
        if tx in txs {
          var id :| id in recs && tx in Span(FirstTx(l, id), |recs[id]|);
          Address(l, tx, id, tx - FirstTx(l, id));
        }
        if Holds(l, recs, tx) {
          Address(l, tx, FileOf(l, tx), SlotOf(l, tx));
          assert tx in Span(FirstTx(l, FileOf(l, tx)), |recs[FileOf(l, tx)]|);
        }
      }
    }
    txs
  }

  ghost function Span(first: nat, n: nat): (txs: set<nat>)
    ensures forall tx :: tx in txs <==> first <= tx < first + n
  {
    if n == 0 then {} else Span(first, n - 1) + {first + n - 1}
  }

  ghost function RecordOf(l: Layout, recs: Stored, tx: nat): Record
    requires l.cap > 0 && Holds(l, recs, tx)
  {
    recs[FileOf(l, tx)][SlotOf(l, tx)]
  }

  ghost function LogOf(l: Layout, recs: Stored): (log: WalLog.Log<Data>)
    requires Bounded(l, recs)
    ensures forall tx :: tx in log <==> Holds(l, recs, tx)
  {
    map tx | tx in Txs(l, recs) :: WalLog.Entry(RecordOf(l, recs, tx).payload, RecordOf(l, recs, tx).done)
  }

  /** The files are a well-formed log of these entries. */
  ghost predicate Represents(l: Layout, crc: Checksum, files: Files, log: WalLog.Log<Data>) {
    exists recs :: FilesOk(l, crc, files, recs) && Bounded(l, recs) && LogOf(l, recs) == log
  }

  // ---------------------------------------------------------------------------------------
  // Reading

  ghost predicate Ascends(ids: seq<nat>, keys: set<nat>) {
    && (forall i, j | 0 <= i < j < |ids| :: ids[i] < ids[j])
    && (forall id :: id in keys <==> id in ids)
  }

  /** The directory listing sorted by file number. */
  ghost predicate Listing(ids: seq<nat>, files: Files) {
    Ascends(ids, files.Keys)
  }

  /** A reader passes over records of no length. */
  function Readable(es: seq<(nat, Data)>): seq<(nat, Data)> {
    if es == [] then []
    else Readable(es[..|es| - 1]) + if es[|es| - 1].1 == [] then [] else [es[|es| - 1]]
  }

  lemma {:induction false} ReadableConcat(a: seq<(nat, Data)>, b: seq<(nat, Data)>)
    ensures Readable(a + b) == Readable(a) + Readable(b)
    decreases |b|
  {
    if b == [] {
      assert a + b == a;
    } else {
      assert (a + b)[..|a + b| - 1] == a + b[..|b| - 1];
      ReadableConcat(a, b[..|b| - 1]);
    }
  }

  lemma {:induction false} PendingGap(log: WalLog.Log<Data>, a: nat, b: nat)
    requires a <= b && forall tx | a <= tx < b :: tx !in log
    ensures WalLog.Pending(log, b) == WalLog.Pending(log, a)
    decreases b
  {
    if a < b { PendingGap(log, a, b - 1); }
  }

  /** What one stored record adds to what is read. */
  lemma PendingRecord(log: WalLog.Log<Data>, tx: nat, rec: Record)
    requires tx in log && log[tx] == WalLog.Entry(rec.payload, rec.done)
    ensures Readable(WalLog.Pending(log, tx + 1))
         == Readable(WalLog.Pending(log, tx)) + if rec.done || rec.payload == [] then [] else [(tx, rec.payload)]
  {
    var last := if rec.done then [] else [(tx, rec.payload)];
    ReadableConcat(WalLog.Pending(log, tx), last);
    assert Readable(last) == if last == [] || last[0].1 == [] then [] else last;
  }

  lemma LogAt(l: Layout, recs: Stored, id: nat, i: nat)
    requires Bounded(l, recs) && id in recs && i < |recs[id]|
    ensures var tx := FirstTx(l, id) + i;
            tx in LogOf(l, recs) && LogOf(l, recs)[tx] == WalLog.Entry(recs[id][i].payload, recs[id][i].done)
  {
    hide Txs, FirstTx;
    Address(l, FirstTx(l, id) + i, id, i);
  }

  lemma {:induction false} PendingFile(l: Layout, recs: Stored, id: nat, i: nat)
    requires Bounded(l, recs) && id in recs && i <= |recs[id]|
    ensures Readable(WalLog.Pending(LogOf(l, recs), FirstTx(l, id) + i))
         == Readable(WalLog.Pending(LogOf(l, recs), FirstTx(l, id))) + Yield(FirstTx(l, id), recs[id][..i])
  {
    hide FirstTx, Txs, LogOf, WalLog.Pending, Readable;
    if i > 0 {
      PendingFile(l, recs, id, i - 1);
      var log, tx, rec := LogOf(l, recs), FirstTx(l, id) + i - 1, recs[id][i - 1];
      Address(l, tx, id, i - 1);
      LogAt(l, recs, id, i - 1);
      assert recs[id][..i][..i - 1] == recs[id][..i - 1];
      PendingRecord(log, tx, rec);
    }
  }

  /** Reading the listed files one after the other: what the first `k` of them yield. */
  lemma PendingNext(l: Layout, recs: Stored, ids: seq<nat>, k: nat)
    requires Bounded(l, recs) && k < |ids| && (forall i, j | 0 <= i < j < |ids| :: ids[i] < ids[j])
    requires forall id | id in recs :: id in ids
    ensures Readable(WalLog.Pending(LogOf(l, recs), Upto(l, ids, k + 1)))
         == Readable(WalLog.Pending(LogOf(l, recs), Upto(l, ids, k)))
             + Yield(FirstTx(l, ids[k]), RecordsIn(recs, ids[k]))
  {
    hide FirstTx, Txs, LogOf, WalLog.Pending, Readable, Yield;
    var log, id := LogOf(l, recs), ids[k];
    var n := |RecordsIn(recs, id)|;
    FirstTxMono(l, id, id);
    if k > 0 { FirstTxMono(l, ids[k - 1] + 1, id); }
    forall tx | Upto(l, ids, k) <= tx < FirstTx(l, id) ensures tx !in log {
      BetweenFiles(l, ids, k, tx);
    }
    PendingGap(log, Upto(l, ids, k), FirstTx(l, id));
    FileGap(l, recs, id);
    PendingGap(log, FirstTx(l, id) + n, FirstTx(l, id + 1));
    PendingIn(l, recs, id);
  }

  /** Behind a file's records and before the next file nothing is stored. */
  lemma FileGap(l: Layout, recs: Stored, id: nat)
    requires Bounded(l, recs)
    ensures FirstTx(l, id) + |RecordsIn(recs, id)| <= FirstTx(l, id + 1)
    ensures forall tx | FirstTx(l, id) + |RecordsIn(recs, id)| <= tx < FirstTx(l, id + 1) :: tx !in LogOf(l, recs)
  {
    hide FirstTx, Txs, LogOf;
    FirstTxMono(l, id, id);
    forall tx | FirstTx(l, id) + |RecordsIn(recs, id)| <= tx < FirstTx(l, id + 1) ensures tx !in LogOf(l, recs) {
      Address(l, tx, id, tx - FirstTx(l, id));
    }
  }

  lemma PendingIn(l: Layout, recs: Stored, id: nat)
    requires Bounded(l, recs)
    ensures Readable(WalLog.Pending(LogOf(l, recs), FirstTx(l, id) + |RecordsIn(recs, id)|))
         == Readable(WalLog.Pending(LogOf(l, recs), FirstTx(l, id))) + Yield(FirstTx(l, id), RecordsIn(recs, id))
  {
    hide FirstTx, Txs, LogOf, WalLog.Pending, Readable;
    if id in recs {
      PendingFile(l, recs, id, |recs[id]|);
      assert recs[id][..|recs[id]|] == recs[id];
    }
  }

  /** Past the first `k` files. */
  function Upto(l: Layout, ids: seq<nat>, k: nat): nat
    requires k <= |ids|
  {
    if k == 0 then 0 else FirstTx(l, ids[k - 1] + 1)
  }

  lemma BetweenFiles(l: Layout, ids: seq<nat>, k: nat, tx: nat)
    requires l.cap > 0 && k < |ids| && (forall i, j | 0 <= i < j < |ids| :: ids[i] < ids[j])
    requires Upto(l, ids, k) <= tx < FirstTx(l, ids[k])
    ensures FileOf(l, tx) !in ids
  {
    hide FirstTx;
    var f := FileOf(l, tx);
    Address(l, tx, f, SlotOf(l, tx));
    if f in ids {
      var j :| 0 <= j < |ids| && ids[j] == f;
      if j >= k {
        FirstTxMono(l, ids[k], f);
      } else {
        FirstTxMono(l, f + 1, ids[k - 1] + 1);
        FirstTxMono(l, f, f);
      }
    }
  }

  /** Nothing is stored behind the last listed file. */
  lemma AllListed(l: Layout, recs: Stored, ids: seq<nat>, n: nat)
    requires Bounded(l, recs) && (forall i, j | 0 <= i < j < |ids| :: ids[i] < ids[j])
    requires forall id | id in recs :: id in ids
    requires forall tx | tx in LogOf(l, recs) :: tx < n
    ensures WalLog.Pending(LogOf(l, recs), n) == WalLog.Pending(LogOf(l, recs), Upto(l, ids, |ids|))
  {
    hide FirstTx, Txs, LogOf;
    var log, end := LogOf(l, recs), Upto(l, ids, |ids|);
    forall tx | tx in log ensures tx < end {
      var f := FileOf(l, tx);
      var j :| 0 <= j < |ids| && ids[j] == f;
      Address(l, tx, f, SlotOf(l, tx));
      FirstTxMono(l, f + 1, ids[|ids| - 1] + 1);
      FirstTxMono(l, f, f);
    }
    if n <= end { PendingGap(log, n, end); } else { PendingGap(log, end, n); }
  }

  lemma EmptyLogReads(log: WalLog.Log<Data>)
    ensures Readable(WalLog.Pending(log, 0)) == []
  {}

  /** What one listed file yields: its records if it is well-formed, and otherwise nothing. */
  lemma ListedReads(l: Layout, crc: Checksum, files: Files, recs: Stored, ids: seq<nat>, k: nat)
    requires FilesOk(l, crc, files, recs) && Listing(ids, files) && k < |ids|
    ensures ids[k] in files && FileReads(l, crc, files[ids[k]]) == Yield(FirstTx(l, ids[k]), RecordsIn(recs, ids[k]))
  {
    hide FileOk, FirstTx, Unreadable, ReadHeader;
    var id := ids[k];
    assert id in ids;
    if id in recs {
      FileYields(l, crc, files[id], id, recs[id]);
    } else {
      UnreadableFails(crc, files[id]);
    }
  }

  /** `read_wal` over every file: the incomplete entries of the log, by ascending transaction id. */
  method ReadFiles(l: Layout, crc: Checksum, files: Files, ids: seq<nat>, ghost recs: Stored)
    returns (out: seq<(nat, Data)>)
    requires Listing(ids, files)
    ensures FilesOk(l, crc, files, recs) && Bounded(l, recs) ==>
              forall n: nat | (forall tx | tx in LogOf(l, recs) :: tx < n) ::
                  out == Readable(WalLog.Pending(LogOf(l, recs), n))
  {
    hide FileOk, LogOf, WalLog.Pending, Readable, Holds, FirstTx, FileReads, Unreadable, Yield;
    out := [];
    if Bounded(l, recs) { EmptyLogReads(LogOf(l, recs)); }
    ghost var sound := FilesOk(l, crc, files, recs) && Bounded(l, recs);
    for k := 0 to |ids|
      invariant sound ==> out == Readable(WalLog.Pending(LogOf(l, recs), Upto(l, ids, k)))
    {
      assert ids[k] in ids;
      var yielded := ReadFile(l, crc, files[ids[k]]);
      out := out + yielded;
      if sound {
        ListedReads(l, crc, files, recs, ids, k);
        PendingNext(l, recs, ids, k);
      }
    }
    if sound {
      forall n: nat | forall tx | tx in LogOf(l, recs) :: tx < n
        ensures out == Readable(WalLog.Pending(LogOf(l, recs), n))
      {
        AllListed(l, recs, ids, n);
      }
    }
  }

  /** A batch written behind everything stored is read behind everything that was read. */
  lemma AppendReads(log: WalLog.Log<Data>, first: nat, payloads: seq<Data>, completed: set<nat>)
    ensures Readable(WalLog.Pending(WalLog.Store(log, first, payloads, completed), first + |payloads|))
         == Readable(WalLog.Pending(log, first)) + Readable(WalLog.Incomplete(first, payloads, completed))
  {
    WalLog.StoreAppends(log, first, payloads, completed);
    ReadableConcat(WalLog.Pending(log, first), WalLog.Incomplete(first, payloads, completed));
  }
}
