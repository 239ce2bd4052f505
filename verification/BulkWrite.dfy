/**
 A bulk write takes its transaction ids before it takes the table's lock, so a write that gets in between has a higher
 id but is inserted into the memtable first. Readers see what was inserted last, recovery replays by id.
 */
module BulkWrite {
  import opened Namespace
  import opened Engine
  import opened Recovery

  /** The same writes in two orders: by id, as the log has them, and as they came into the memtable. */
  ghost predicate Reordered(log: seq<(nat, Write)>, inserted: seq<(nat, Write)>) {
    && multiset(log) == multiset(inserted)
    && forall i, j | 0 <= i < j < |log| :: log[i].0 < log[j].0
  }

  /** What a table's memtable holds for a key after these inserts. */
  function TextAfter(es: seq<(nat, Write)>, key: string): string
    requires LastOf(es, key) >= 0
  {
    es[LastOf(es, key)].1.text
  }

  /**
   The value that recovery gives back is the one readers saw if and only if the write inserted last has the text of
   the write with the highest id; it is that very write unless a bulk write was overtaken on this key.
   */
  lemma BulkRecovery(log: seq<(nat, Write)>, inserted: seq<(nat, Write)>, key: string)
    requires Reordered(log, inserted) && LastOf(inserted, key) >= 0
    ensures LastOf(log, key) >= 0
    ensures var t := TableOf(key);
            && t in Replay(log) && key in Replay(log)[t] && t in Replay(inserted) && key in Replay(inserted)[t]
            && (Replay(log)[t][key] == Replay(inserted)[t][key] <==> TextAfter(log, key) == TextAfter(inserted, key))
    ensures forall i | 0 <= i < |inserted| && inserted[i].1.key == key :: inserted[i].0 <= log[LastOf(log, key)].0
    ensures (forall i | 0 <= i < |inserted| && inserted[i].1.key == key ::
               inserted[i].0 <= inserted[LastOf(inserted, key)].0) ==>
              log[LastOf(log, key)] == inserted[LastOf(inserted, key)]
  {
    hide TableOf, Replay, LastOf, Reordered;
    ReplayLast(log, key);
    ReplayLast(inserted, key);
    var last := inserted[LastOf(inserted, key)];
    SameWrites(log, inserted, last);
    var at :| 0 <= at < |log| && log[at] == last;
    assert at <= LastOf(log, key);
    var newest := log[LastOf(log, key)];
    forall i | 0 <= i < |inserted| && inserted[i].1.key == key ensures inserted[i].0 <= newest.0 {
      SameWrites(log, inserted, inserted[i]);
      var j :| 0 <= j < |log| && log[j] == inserted[i];
      Ascend(log, inserted, j, LastOf(log, key));
    }
    SameWrites(log, inserted, newest);
    var n :| 0 <= n < |inserted| && inserted[n] == newest;
    Ascend(log, inserted, at, LastOf(log, key));
  }

  lemma SameWrites(log: seq<(nat, Write)>, inserted: seq<(nat, Write)>, e: (nat, Write))
    requires Reordered(log, inserted)
    ensures e in log <==> e in inserted
  {
    assert e in log <==> e in multiset(log);
    assert e in inserted <==> e in multiset(inserted);
  }

  /** Later in the log is higher in id, and nothing else has that id. */
  lemma Ascend(log: seq<(nat, Write)>, inserted: seq<(nat, Write)>, i: nat, j: nat)
    requires Reordered(log, inserted) && i <= j < |log|
    ensures log[i].0 <= log[j].0 && (log[i].0 == log[j].0 ==> i == j)
  {}

  const KEY := "users:a"
  const BULK: (nat, Write) := (0, Write(KEY, "1"))
  const OTHER: (nat, Write) := (1, Write(KEY, "2"))

  /** A bulk write of id 0 overtaken by a write of id 1: readers see the bulk write, recovery gives the other back. */
  lemma OvertakenBulk()
    ensures Reordered([BULK, OTHER], [OTHER, BULK])
    ensures TextOnly([OTHER, BULK], "1") && TextOnly([BULK, OTHER], "2")
  {
    hide Reordered, TextOnly;
    InTwoOrders();
    LastDecides([OTHER], BULK);
    LastDecides([BULK], OTHER);
    assert [OTHER] + [BULK] == [OTHER, BULK] && [BULK] + [OTHER] == [BULK, OTHER];
  }

  lemma InTwoOrders()
    ensures Reordered([BULK, OTHER], [OTHER, BULK])
  {
    assert multiset([BULK, OTHER]) == multiset{BULK, OTHER} == multiset([OTHER, BULK]);
  }

  /** The table holds this text under the key. */
  predicate TextOnly(es: seq<(nat, Write)>, text: string) {
    "users" in Replay(es) && KEY in Replay(es)["users"] && Replay(es)["users"][KEY] == text
  }

  lemma LastDecides(es: seq<(nat, Write)>, e: (nat, Write))
    requires e.1.key == KEY
    ensures TextOnly(es + [e], e.1.text)
  {
    hide TableOf, Replay;
    assert KEY[..5] == "users";
    TableOfRead(KEY, 5);
    ReplayLast(es + [e], KEY);
    assert LastOf(es + [e], KEY) == |es|;
  }
}
