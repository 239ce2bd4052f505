/**
 The write-ahead log as a map from transaction id to entry, and what a reader gets out of it.

 `read_wal` walks the files in id order and the slots in order, so it yields the incomplete
 entries by ascending transaction id. The byte-level log is proved to be such a map elsewhere.
 */
module WalLog {

  datatype Entry<P> = Entry(payload: P, done: bool)

  type Log<P> = map<nat, Entry<P>>

  /** The incomplete entries below `n`, in ascending order of transaction id. */
  function Pending<P>(log: Log<P>, n: nat): seq<(nat, P)> {
    if n == 0 then []
    else Pending(log, n - 1) + if n - 1 in log && !log[n - 1].done then [(n - 1, log[n - 1].payload)] else []
  }

  /** A batch of consecutive ids written with the completion marks known at that moment. */
  function Store<P>(log: Log<P>, first: nat, payloads: seq<P>, done: set<nat>): Log<P> {
    log + map tx | first <= tx < first + |payloads| :: Entry(payloads[tx - first], tx in done)
  }

  function MarkDone<P>(log: Log<P>, txs: set<nat>): Log<P> {
    map tx | tx in log :: if tx in txs then log[tx].(done := true) else log[tx]
  }

  lemma {:induction false} PendingMember<P>(log: Log<P>, n: nat, tx: nat, p: P)
    ensures (tx, p) in Pending(log, n) <==> tx < n && tx in log && log[tx] == Entry(p, false)
  {
    if n > 0 { PendingMember(log, n - 1, tx, p); }
  }

  ghost predicate Ascending<P>(es: seq<(nat, P)>, n: nat) {
    && (forall i | 0 <= i < |es| :: es[i].0 < n)
    && (forall i, j | 0 <= i < j < |es| :: es[i].0 < es[j].0)
  }

  lemma {:induction false} PendingAscends<P>(log: Log<P>, n: nat)
    ensures Ascending(Pending(log, n), n)
  {
    if n > 0 {
      PendingAscends(log, n - 1);
      var front, es := Pending(log, n - 1), Pending(log, n);
      forall i | 0 <= i < |es| ensures es[i].0 < n && (i < |front| ==> es[i] == front[i]) {
        if i < |front| { assert es[i] == front[i]; }
      }
    }
  }

  /** Only incomplete entries matter to a reader. */
  lemma {:induction false} PendingSame<P>(a: Log<P>, b: Log<P>, n: nat)
    requires forall tx: nat | tx < n :: (tx in a && !a[tx].done) <==> (tx in b && !b[tx].done)
    requires forall tx: nat | tx < n && tx in a && !a[tx].done :: a[tx] == b[tx]
    ensures Pending(a, n) == Pending(b, n)
  {
    if n > 0 { PendingSame(a, b, n - 1); }
  }

  /** The incomplete records of a batch, in order. */
  function Incomplete<P>(first: nat, payloads: seq<P>, done: set<nat>): seq<(nat, P)>
    decreases |payloads|
  {
    if payloads == [] then []
    else
      var n := |payloads| - 1;
      Incomplete(first, payloads[..n], done) + if first + n in done then [] else [(first + n, payloads[n])]
  }

  lemma {:induction false} StorePrefix<P>(log: Log<P>, first: nat, payloads: seq<P>, done: set<nat>, m: nat)
    requires m <= |payloads|
    ensures Pending(Store(log, first, payloads, done), first + m)
         == Pending(log, first) + Incomplete(first, payloads[..m], done)
    decreases m
  {
    var s := Store(log, first, payloads, done);
    if m == 0 {
      PendingSame(s, log, first);
    } else {
      StorePrefix(log, first, payloads, done, m - 1);
      assert payloads[..m][..m - 1] == payloads[..m - 1];
    }
  }

  /** Appending a batch after everything stored appends exactly its incomplete records to what is read. */
  lemma StoreAppends<P>(log: Log<P>, first: nat, payloads: seq<P>, done: set<nat>)
    ensures Pending(Store(log, first, payloads, done), first + |payloads|)
         == Pending(log, first) + Incomplete(first, payloads, done)
  {
    StorePrefix(log, first, payloads, done, |payloads|);
    assert payloads[..|payloads|] == payloads;
  }
}
