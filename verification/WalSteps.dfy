/** What batches, marks, restarts and checkpoints do to the log that the files hold. */
module WalSteps {
  import opened Bytes
  import opened WalFile
  import opened WalBatch
  import opened WalStore
  import WalLog

  // ---------------------------------------------------------------------------------------
  // The writer's position

  /**
   `next` is the first transaction not yet written: its slot is the record count of its file,
   no later file holds a record, and a file in the directory `dir` reaches up to it.
   */
  ghost predicate AlignedAt(l: Layout, recs: Stored, dir: set<nat>, next: nat)
    requires l.cap > 0
  {
    var w := FileOf(l, next);
    && |RecordsIn(recs, w)| == SlotOf(l, next)
    && (forall id | id in recs && id > w :: recs[id] == [])
    && (next == 0 || exists id :: id in dir && next <= FirstTx(l, id) + |RecordsIn(recs, id)|)
  }

  /** Every stored transaction lies below the writer's position. */
  lemma AlignedBelow(l: Layout, recs: Stored, dir: set<nat>, next: nat, tx: nat)
    requires Bounded(l, recs) && AlignedAt(l, recs, dir, next) && Holds(l, recs, tx)
    ensures tx < next
  {
    hide FirstTx;
    var f, w := FileOf(l, tx), FileOf(l, next);
    Address(l, tx, f, SlotOf(l, tx));
    Address(l, next, w, SlotOf(l, next));
    if f < w {
      FirstTxMono(l, f + 1, w);
      FirstTxMono(l, f, f);
    }
  }

  function Payloads(batch: seq<Record>): (ps: seq<Data>)
    ensures |ps| == |batch| && forall i | 0 <= i < |ps| :: ps[i] == batch[i].payload
  {
    seq(|batch|, i requires 0 <= i < |batch| => batch[i].payload)
  }

  /** The records of a batch carry the completion marks known when it is written. */
  ghost predicate Flagged(batch: seq<Record>, next: nat, completed: set<nat>) {
    forall i | 0 <= i < |batch| :: batch[i].done <==> next + i in completed
  }

  /** A batch that stays in one file goes to the slots from `next` on. */
  lemma BatchPlace(l: Layout, recs: Stored, dir: set<nat>, next: nat, n: nat, tx: nat)
    requires Bounded(l, recs) && AlignedAt(l, recs, dir, next) && SlotOf(l, next) + n <= l.cap
    ensures var w := FileOf(l, next);
            next <= tx < next + n <==> FileOf(l, tx) == w && SlotOf(l, next) <= SlotOf(l, tx) < SlotOf(l, next) + n
  {
    hide FirstTx;
    var w := FileOf(l, next);
    Address(l, next, w, SlotOf(l, next));
    Address(l, tx, FileOf(l, tx), SlotOf(l, tx));
    if next <= tx < next + n {
      Address(l, tx, w, tx - FirstTx(l, w));
    }
  }

  /** Appending the batch to its file stores its transactions in the log and moves the writer past them. */
  lemma BatchStores(l: Layout, recs: Stored, dir: set<nat>, next: nat, batch: seq<Record>, completed: set<nat>)
    requires Bounded(l, recs) && AlignedAt(l, recs, dir, next) && Flagged(batch, next, completed)
    requires batch != [] && SlotOf(l, next) + |batch| <= l.cap && FileOf(l, next) in dir
    ensures var w := FileOf(l, next); var recs' := recs[w := RecordsIn(recs, w) + batch];
            && Bounded(l, recs') && AlignedAt(l, recs', dir, next + |batch|)
            && LogOf(l, recs') == WalLog.Store(LogOf(l, recs), next, Payloads(batch), completed)
  {
    var w := FileOf(l, next);
    var recs' := recs[w := RecordsIn(recs, w) + batch];
    BatchLog(l, recs, recs', dir, next, batch, completed);
    BatchAligned(l, recs, recs', dir, next, batch);
  }

  lemma AlignedSlot(l: Layout, recs: Stored, dir: set<nat>, next: nat)
    requires l.cap > 0 && AlignedAt(l, recs, dir, next)
    ensures |RecordsIn(recs, FileOf(l, next))| == SlotOf(l, next)
  {}

  lemma BatchLog(l: Layout, recs: Stored, recs': Stored, dir: set<nat>, next: nat, batch: seq<Record>,
                 completed: set<nat>)
    requires Bounded(l, recs) && AlignedAt(l, recs, dir, next) && Flagged(batch, next, completed)
    requires SlotOf(l, next) + |batch| <= l.cap && Bounded(l, recs')
    requires recs' == recs[FileOf(l, next) := RecordsIn(recs, FileOf(l, next)) + batch]
    ensures LogOf(l, recs') == WalLog.Store(LogOf(l, recs), next, Payloads(batch), completed)
  {
    hide FirstTx, Txs, FileOf, SlotOf, AlignedAt, Holds, RecordOf;
    forall tx: nat
      ensures Holds(l, recs', tx) <==> (next <= tx < next + |batch| || Holds(l, recs, tx))
      ensures Holds(l, recs', tx) ==>
                RecordOf(l, recs', tx)
                    == if next <= tx < next + |batch| then batch[tx - next] else RecordOf(l, recs, tx)
    {
      BatchHolds(l, recs, recs', dir, next, batch, tx);
    }
  }

  lemma BatchHolds(l: Layout, recs: Stored, recs': Stored, dir: set<nat>, next: nat, batch: seq<Record>, tx: nat)
    requires Bounded(l, recs) && AlignedAt(l, recs, dir, next) && SlotOf(l, next) + |batch| <= l.cap
    requires recs' == recs[FileOf(l, next) := RecordsIn(recs, FileOf(l, next)) + batch]
    ensures Holds(l, recs', tx) <==> (next <= tx < next + |batch| || Holds(l, recs, tx))
    ensures Holds(l, recs', tx) ==>
              RecordOf(l, recs', tx) == if next <= tx < next + |batch| then batch[tx - next] else RecordOf(l, recs, tx)
  {
    hide FirstTx, FileOf, SlotOf, AlignedAt;
    var w := FileOf(l, next);
    AlignedSlot(l, recs, dir, next);
    BatchPlace(l, recs, dir, next, |batch|, tx);
    Address(l, next, w, SlotOf(l, next));
    Address(l, tx, FileOf(l, tx), SlotOf(l, tx));
  }

  lemma BatchAligned(l: Layout, recs: Stored, recs': Stored, dir: set<nat>, next: nat, batch: seq<Record>)
    requires Bounded(l, recs) && AlignedAt(l, recs, dir, next) && batch != [] && SlotOf(l, next) + |batch| <= l.cap
    requires FileOf(l, next) in dir
    requires recs' == recs[FileOf(l, next) := RecordsIn(recs, FileOf(l, next)) + batch]
    ensures AlignedAt(l, recs', dir, next + |batch|)
  {
    hide FirstTx, FileOf, SlotOf;
    var w, n := FileOf(l, next), next + |batch|;
    Address(l, next, w, SlotOf(l, next));
    FirstTxMono(l, w, w);
    if SlotOf(l, next) + |batch| < l.cap {
      Address(l, n, w, SlotOf(l, next) + |batch|);
    } else {
      Address(l, n, w + 1, 0);
    }
    assert n <= FirstTx(l, w) + |recs'[w]|;
  }

  /** Two batches in a row are one. */
  lemma StoreTwice(log: WalLog.Log<Data>, first: nat, a: seq<Data>, b: seq<Data>, done: set<nat>)
    ensures WalLog.Store(WalLog.Store(log, first, a, done), first + |a|, b, done)
            == WalLog.Store(log, first, a + b, done)
  {}

  lemma EmptyFileLog(l: Layout, recs: Stored, id: nat)
    requires Bounded(l, recs) && id !in recs
    ensures Bounded(l, recs[id := []]) && LogOf(l, recs[id := []]) == LogOf(l, recs)
  {
    hide FirstTx, Txs, FileOf, SlotOf;
    var recs' := recs[id := []];
    assert forall tx | Holds(l, recs', tx) :: Holds(l, recs, tx) && RecordOf(l, recs', tx) == RecordOf(l, recs, tx);
    assert forall tx | Holds(l, recs, tx) :: Holds(l, recs', tx);
  }

  /** A new file, wherever the writer is, leaves it where it is, before and after its header is written. */
  lemma EmptyFileAligned(l: Layout, recs: Stored, dir: set<nat>, next: nat, id: nat)
    requires l.cap > 0 && AlignedAt(l, recs, dir, next) && id !in recs
    ensures AlignedAt(l, recs, dir + {id}, next) && AlignedAt(l, recs[id := []], dir + {id}, next)
  {
    hide FirstTx, FileOf, SlotOf;
    var recs' := recs[id := []];
    assert forall f :: RecordsIn(recs', f) == RecordsIn(recs, f);
    if next != 0 {
      var f :| f in dir && next <= FirstTx(l, f) + |RecordsIn(recs, f)|;
      assert f in dir + {id} && RecordsIn(recs', f) == RecordsIn(recs, f);
    }
  }

  // ---------------------------------------------------------------------------------------
  // Completion marks

  function MarkTx(l: Layout, recs: Stored, tx: nat): Stored
    requires l.cap > 0
  {
    var f := FileOf(l, tx);
    if f in recs then recs[f := MarkAt(recs[f], SlotOf(l, tx))] else recs
  }

  lemma MarkLog(l: Layout, recs: Stored, tx: nat)
    requires Bounded(l, recs)
    ensures Bounded(l, MarkTx(l, recs, tx)) && LogOf(l, MarkTx(l, recs, tx)) == WalLog.MarkDone(LogOf(l, recs), {tx})
  {
    hide FirstTx, Txs, FileOf, SlotOf;
    var recs' := MarkTx(l, recs, tx);
    forall k: nat
      ensures Holds(l, recs', k) <==> Holds(l, recs, k)
      ensures Holds(l, recs, k) && k == tx ==> RecordOf(l, recs', k) == RecordOf(l, recs, k).(done := true)
      ensures Holds(l, recs, k) && k != tx ==> RecordOf(l, recs', k) == RecordOf(l, recs, k)
    {
      Address(l, tx, FileOf(l, tx), SlotOf(l, tx));
      Address(l, k, FileOf(l, k), SlotOf(l, k));
    }
  }

  lemma MarkAligned(l: Layout, recs: Stored, dir: set<nat>, next: nat, tx: nat)
    requires l.cap > 0 && AlignedAt(l, recs, dir, next)
    ensures AlignedAt(l, MarkTx(l, recs, tx), dir, next)
  {
    hide FirstTx, FileOf, SlotOf;
    var recs' := MarkTx(l, recs, tx);
    assert recs'.Keys == recs.Keys;
    assert forall id :: |RecordsIn(recs', id)| == |RecordsIn(recs, id)|;
    assert forall id | id in recs' && recs'[id] != [] :: recs[id] != [];
    if next != 0 {
      var f :| f in dir && next <= FirstTx(l, f) + |RecordsIn(recs, f)|;
      assert next <= FirstTx(l, f) + |RecordsIn(recs', f)|;
    }
  }

  lemma MarkTwice(log: WalLog.Log<Data>, a: set<nat>, b: set<nat>)
    ensures WalLog.MarkDone(WalLog.MarkDone(log, a), b) == WalLog.MarkDone(log, a + b)
  {}

  /** The log as it will be once the buffer is written: the stored part plus the buffered batch with its marks. */
  ghost function Ahead(log: WalLog.Log<Data>, next: nat, payloads: seq<Data>, ram: set<nat>): WalLog.Log<Data> {
    WalLog.Store(log, next, payloads, ram)
  }

  /** A mark reaches its transaction whether that is on disk or still in the buffer. */
  lemma MarkAhead(log: WalLog.Log<Data>, next: nat, payloads: seq<Data>, ram: set<nat>, txs: set<nat>, onDisk: set<nat>)
    requires forall tx | tx in log :: tx < next
    requires onDisk == set tx | tx in txs && !(next <= tx < next + |payloads|)
    ensures Ahead(WalLog.MarkDone(log, onDisk), next, payloads, ram + txs)
         == WalLog.MarkDone(Ahead(log, next, payloads, ram), txs)
  {}

  // ---------------------------------------------------------------------------------------
  // Restart

  /** What a restart resumes from: the newest file's first transaction plus its record count. */
  function Restored(l: Layout, recs: Stored, ids: seq<nat>): nat {
    if ids == [] then 0 else FirstTx(l, ids[|ids| - 1]) + |RecordsIn(recs, ids[|ids| - 1])|
  }

  /** The restored id lies above every stored id, and the writer's position is right again. */
  lemma RestoredAligned(l: Layout, recs: Stored, dir: set<nat>, ids: seq<nat>)
    requires Bounded(l, recs) && Ascends(ids, dir) && recs.Keys <= dir
    ensures AlignedAt(l, recs, dir, Restored(l, recs, ids))
    ensures forall tx | tx in LogOf(l, recs) :: tx < Restored(l, recs, ids)
  {
    hide FirstTx, FileOf, SlotOf, LogOf, Holds;
    var next := Restored(l, recs, ids);
    if ids == [] {
      FirstTxZero(l);
      Address(l, 0, 0, 0);
      assert forall id :: id !in dir;
    } else {
      var newest := ids[|ids| - 1];
      FirstTxMono(l, newest, newest);
      if |RecordsIn(recs, newest)| < l.cap {
        Address(l, next, newest, |RecordsIn(recs, newest)|);
      } else {
        Address(l, next, newest + 1, 0);
      }
      forall id | id in recs ensures id <= newest {
        var j :| 0 <= j < |ids| && ids[j] == id;
      }
      assert newest in ids;
    }
    forall tx | tx in LogOf(l, recs) ensures tx < next {
      AlignedBelow(l, recs, dir, next, tx);
    }
  }

  lemma FirstTxZero(l: Layout)
    ensures FirstTx(l, 0) == 0
  {}

  /** A restart never goes back below the writer's position, so no id is handed out twice. */
  lemma RestoredReaches(l: Layout, recs: Stored, dir: set<nat>, ids: seq<nat>, next: nat)
    requires Bounded(l, recs) && Ascends(ids, dir) && AlignedAt(l, recs, dir, next)
    ensures next <= Restored(l, recs, ids)
  {
    hide FirstTx, FileOf, SlotOf;
    if next != 0 {
      var id :| id in dir && next <= FirstTx(l, id) + |RecordsIn(recs, id)|;
      var j :| 0 <= j < |ids| && ids[j] == id;
      var newest := ids[|ids| - 1];
      if id < newest {
        FirstTxMono(l, id + 1, newest);
        FirstTxMono(l, id, id);
      }
    }
  }

  // ---------------------------------------------------------------------------------------
  // Checkpoint

  ghost predicate AllDone(recs: seq<Record>) {
    forall i | 0 <= i < |recs| :: recs[i].done
  }

  /** Removing files of completed records leaves every reading of the log as it was. */
  lemma ArchiveReads(l: Layout, recs: Stored, gone: set<nat>, n: nat)
    requires Bounded(l, recs) && forall id | id in gone && id in recs :: AllDone(recs[id])
    ensures Bounded(l, recs - gone) && WalLog.Pending(LogOf(l, recs - gone), n) == WalLog.Pending(LogOf(l, recs), n)
  {
    hide FirstTx, Txs, FileOf, SlotOf;
    WalLog.PendingSame(LogOf(l, recs - gone), LogOf(l, recs), n);
  }

  /**
   The writer keeps its place exactly when its own file stays, or no record of that file is written yet.
   The newest file always stays.
   */
  lemma ArchiveAligned(l: Layout, recs: Stored, dir: set<nat>, ids: seq<nat>, gone: set<nat>, next: nat)
    requires Bounded(l, recs) && Ascends(ids, dir) && AlignedAt(l, recs, dir, next)
    requires gone <= dir && (ids != [] ==> ids[|ids| - 1] !in gone)
    ensures AlignedAt(l, recs - gone, dir - gone, next) <==> (FileOf(l, next) in gone ==> SlotOf(l, next) == 0)
  {
    hide FirstTx, FileOf, SlotOf;
    var left, w := recs - gone, FileOf(l, next);
    if next != 0 {
      RestoredReaches(l, recs, dir, ids, next);
      var newest := ids[|ids| - 1];
      assert newest in ids;
      assert newest in dir - gone && next <= FirstTx(l, newest) + |RecordsIn(left, newest)|;
    }
  }
}
