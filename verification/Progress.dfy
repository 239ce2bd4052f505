/**
 A flush can always be finished: from every state there is a run that moves all of a table's writes to synced pages.
 Nothing a reader sees changes on the way.
 */
module Progress {
  import opened Wrappers
  import opened Namespace
  import opened DiskPages
  import opened WalLog
  import opened Engine

  lemma {:induction false} RunConcat(s: State, a: seq<Step>, b: seq<Step>)
    requires CanRun(s, a) && CanRun(Run(s, a), b)
    ensures CanRun(s, a + b) && Run(s, a + b) == Run(Run(s, a), b)
    decreases |a|
  {
    hide Enabled, Apply;
    if a == [] {
      assert a + b == b;
    } else {
      assert (a + b)[1..] == a[1..] + b;
      RunConcat(Apply(s, a[0]), a[1..], b);
    }
  }

  lemma OneStep(s: State, step: Step)
    requires Enabled(s, step)
    ensures CanRun(s, [step]) && Run(s, [step]) == Apply(s, step)
  {
    hide Enabled, Apply;
    assert [step][1..] == [];
  }

  /** What the flush that is under way does next. */
  ghost function NextFlush(t: string, tab: Table): (step: Step)
    requires tab.flush != Idle
    ensures TabEnabled(tab, step) && !step.Set? && !step.Writer? && !step.Checkpoint? && step.table == t
    ensures !step.Rotate?
    ensures tab.flush.Indexing? ==>
              if tab.flush.deletions != {} then step.Pop?
              else if tab.flush.updates != map[] then step.Update? else step.Sync?
  {
    match tab.flush
    case Filling(todo, _, _) =>
      if todo == [] then BeginIndexing(t) else if tab.pages == [] then NewPage(t) else Place(t)
    case Indexing(d, u) =>
      if d != {} then var k :| k in d; Pop(t, k)
      else if u != map[] then var k :| k in u; Update(t, k)
      else Sync(t)
    case Synced => Mark(t)
    case Marked => Drop(t)
  }

  /** A bound on the steps it still has to take. */
  function StepsLeft(tab: Table): nat {
    match tab.flush
    case Filling(todo, d, u) => 4 + 2 * |todo| + |d| + |u| + if tab.pages == [] then 1 else 0
    case Indexing(d, u) => 3 + |d| + |u|
    case Synced => 2
    case Marked => 1
    case Idle => 0
  }

  lemma StepsFall(t: string, tab: Table)
    requires tab.flush != Idle
    ensures StepsLeft(ApplyTab(tab, NextFlush(t, tab))) < StepsLeft(tab)
  {
    hide StepsLeft, ApplyTab, TabEnabled;
    match tab.flush
    case Filling(todo, _, _) =>
      if todo != [] && tab.pages != [] {
        PlaceFalls(t, tab);
      } else {
        OtherFalls(t, tab);
      }
    case Indexing(_, _) => IndexingFalls(t, tab);
    case _ => OtherFalls(t, tab);
  }

  lemma OtherFalls(t: string, tab: Table)
    requires tab.flush != Idle && !NextFlush(t, tab).Place? && !tab.flush.Indexing?
    ensures StepsLeft(ApplyTab(tab, NextFlush(t, tab))) < StepsLeft(tab)
  {
    hide Append, Lists;
  }

  lemma IndexingFalls(t: string, tab: Table)
    requires tab.flush.Indexing?
    ensures StepsLeft(ApplyTab(tab, NextFlush(t, tab))) < StepsLeft(tab)
  {
    var step := NextFlush(t, tab);
    hide *;
    if tab.flush.deletions != {} {
      PopFalls(tab, step);
    } else if tab.flush.updates != map[] {
      UpdateFalls(tab, step);
    } else {
      SyncFalls(tab, step);
    }
  }

  lemma PopFalls(tab: Table, step: Step)
    requires step.Pop? && TabEnabled(tab, step)
    ensures StepsLeft(ApplyTab(tab, step)) < StepsLeft(tab)
  {
    assert |tab.flush.deletions - {step.key}| < |tab.flush.deletions|;
  }

  lemma UpdateFalls(tab: Table, step: Step)
    requires step.Update? && TabEnabled(tab, step)
    ensures StepsLeft(ApplyTab(tab, step)) < StepsLeft(tab)
  {
    MapShrinks(tab.flush.updates, step.key);
  }

  lemma SyncFalls(tab: Table, step: Step)
    requires step.Sync? && TabEnabled(tab, step)
    ensures StepsLeft(ApplyTab(tab, step)) < StepsLeft(tab)
  {}

  lemma PlaceFalls(t: string, tab: Table)
    requires tab.flush.Filling? && tab.flush.todo != [] && tab.pages != []
    ensures TabEnabled(tab, Place(t)) && StepsLeft(ApplyTab(tab, Place(t))) < StepsLeft(tab)
  {
    hide Append;
    var r := tab.flush.todo[0];
    MapGrows(tab.flush.updates, r.key, (|tab.pages| - 1, |tab.pages[|tab.pages| - 1]|));
    AppendNotEmpty(tab.pages, r);
  }

  lemma AppendNotEmpty(pages: Pages, r: Rec)
    requires pages != []
    ensures Append(pages, r) != []
  {}

  lemma MapGrows(m: Index, key: string, at: Position)
    ensures |m[key := at]| <= |m| + 1
  {
    assert m[key := at].Keys == m.Keys + {key};
  }

  lemma MapShrinks(m: Index, key: string)
    requires key in m
    ensures |m - {key}| < |m|
  {
    assert (m - {key}).Keys == m.Keys - {key};
    assert |m.Keys - {key}| < |m.Keys|;
  }

  /** From `s` to `e` nothing but the flush of table `t` and its marks has moved. */
  ghost predicate OnlyFlushed(s: State, e: State, t: string)
    requires t in s.tables
  {
    && e.base == s.base && e.writes == s.writes && e.wal.buffer == s.wal.buffer && e.tables.Keys == s.tables.Keys
    && (forall u | u in s.tables && u != t :: e.tables[u] == s.tables[u])
    && e.tables[t].active == s.tables[t].active
  }

  /** The flush of a table runs to its end, whatever state it is in. */
  lemma FinishFlush(s: State, t: string) returns (steps: seq<Step>)
    requires t in s.tables
    ensures CanRun(s, steps) && (forall step | step in steps :: !step.Set?)
    ensures OnlyFlushed(s, Run(s, steps), t) && Run(s, steps).tables[t].flush == Idle
    ensures s.tables[t].flush != Idle ==> Run(s, steps).tables[t].imm == map[]
    ensures s.tables[t].flush == Idle ==> Run(s, steps) == s
    decreases StepsLeft(s.tables[t])
  {
    hide Apply, Enabled, ApplyTab, TabEnabled, StepsLeft, NextFlush;
    steps := [];
    if s.tables[t].flush != Idle {
      var step := NextFlush(t, s.tables[t]);
      FlushStep(s, t);
      var rest := FinishFlush(Apply(s, step), t);
      OneStep(s, step);
      RunConcat(s, [step], rest);
      steps := [step] + rest;
    }
  }

  lemma FlushStep(s: State, t: string)
    requires t in s.tables && s.tables[t].flush != Idle
    ensures var step := NextFlush(t, s.tables[t]);
            && Enabled(s, step) && OnlyFlushed(s, Apply(s, step), t)
            && StepsLeft(Apply(s, step).tables[t]) < StepsLeft(s.tables[t])
            && (Apply(s, step).tables[t].flush == Idle ==> Apply(s, step).tables[t].imm == map[])
  {
    hide StepsLeft;
    StepsFall(t, s.tables[t]);
    assert Apply(s, NextFlush(t, s.tables[t])).tables[t] == ApplyTab(s.tables[t], NextFlush(t, s.tables[t]));
  }

  /** A memtable's records in some order. */
  lemma {:induction false} Listing(m: Memtable) returns (order: seq<Rec>)
    ensures Lists(order, m)
    decreases |m|
  {
    order := [];
    if m != map[] {
      var k :| k in m;
      var rest := m - {k};
      assert rest.Keys == m.Keys - {k} && |m.Keys - {k}| < |m.Keys|;
      var front := Listing(rest);
      order := front + [Rec(k, m[k].text, m[k].ver)];
      ListsOneMore(m, k, front);
    }
  }

  lemma ListsOneMore(m: Memtable, k: string, front: seq<Rec>)
    requires k in m && Lists(front, m - {k})
    ensures Lists(front + [Rec(k, m[k].text, m[k].ver)], m)
  {
    var rest, order := m - {k}, front + [Rec(k, m[k].text, m[k].ver)];
    forall r | r in front ensures r in Recs(m) && r.key != k { assert r in Recs(rest); }
    forall x | x in m ensures Rec(x, m[x].text, m[x].ver) in order {
      if x != k { assert Rec(x, rest[x].text, rest[x].ver) in front; }
    }
    forall i, j | 0 <= i < j < |order| ensures order[i].key != order[j].key {
      assert order[i] in front;
    }
  }

  /** A full round for a table: the flush under way, then, if it holds anything, one of the active memtable. */
  lemma FlushAll(s: State, t: string) returns (steps: seq<Step>)
    requires Inv(s) && t in s.tables
    ensures CanRun(s, steps) && (forall step | step in steps :: !step.Set?)
    ensures var e := Run(s, steps);
            && e.base == s.base && e.writes == s.writes && e.wal.buffer == s.wal.buffer && t in e.tables
            && e.tables[t].flush == Idle && e.tables[t].active == e.tables[t].imm == map[]
  {
    hide Apply, Enabled, Inv;
    steps := FinishFlush(s, t);
    var e := Run(s, steps);
    RunInv(s, steps);
    IdleEmpty(e, t);
    if e.tables[t].active != map[] {
      var rest := FlushActive(e, t);
      RunConcat(s, steps, rest);
      steps := steps + rest;
    }
  }

  lemma FlushActive(s: State, t: string) returns (steps: seq<Step>)
    requires t in s.tables && s.tables[t].flush == Idle && s.tables[t].active != map[]
    ensures CanRun(s, steps) && (forall step | step in steps :: !step.Set?)
    ensures var e := Run(s, steps);
            && e.base == s.base && e.writes == s.writes && e.wal.buffer == s.wal.buffer && t in e.tables
            && e.tables[t].flush == Idle && e.tables[t].active == e.tables[t].imm == map[]
  {
    hide Apply, Enabled, Lists;
    var order := Listing(s.tables[t].active);
    var step := Rotate(t, order);
    Rotates(s, t, order);
    OneStep(s, step);
    var rest := FinishFlush(Apply(s, step), t);
    RunConcat(s, [step], rest);
    steps := [step] + rest;
  }

  lemma IdleEmpty(s: State, t: string)
    requires Inv(s) && t in s.tables && s.tables[t].flush == Idle
    ensures s.tables[t].imm == map[]
  {
    hide TxOk, MemOk, SyncedOk, IndexOk, LogOk;
    assert TabOk(s.base, s.writes, t, s.tables[t]);
  }

  lemma Rotates(s: State, t: string, order: seq<Rec>)
    requires t in s.tables && s.tables[t].flush == Idle && s.tables[t].active != map[]
    requires Lists(order, s.tables[t].active)
    ensures Enabled(s, Rotate(t, order))
    ensures var e := Apply(s, Rotate(t, order));
            && e.base == s.base && e.writes == s.writes && e.wal.buffer == s.wal.buffer && t in e.tables
            && e.tables[t].active == map[] && e.tables[t].flush.Filling?
  {
    hide Lists;
  }

  /**
   From every state the engine can be in, there is a run without further writes after which every write to the table
   has reached the log, is marked there, and is covered by the synced pages, and readers see what they saw.
   */
  lemma Settles(s: State, t: string) returns (steps: seq<Step>)
    requires Inv(s) && t in s.tables
    ensures CanRun(s, steps) && (forall step | step in steps :: !step.Set?)
    ensures var e := Run(s, steps);
            && Inv(e) && e.base == s.base && e.writes == s.writes && e.wal.buffer == [] && t in e.tables
            && e.tables[t].flush == Idle && e.tables[t].active == e.tables[t].imm == map[]
            && (forall key :: View(e, key) == View(s, key))
            && forall tx: nat | WroteTable(e.base, e.writes, tx, t) ::
                 tx !in Open(e) && Covered(e.tables[t].synced, e.writes[tx - e.base].key, tx)
  {
    hide Apply, Enabled, Inv, Open, View;
    steps := FlushAll(s, t);
    var e := Run(s, steps);
    if e.wal.buffer != [] {
      WriterRuns(e);
      OneStep(e, Writer);
      RunConcat(s, steps, [Writer]);
      steps := steps + [Writer];
    }
    e := Run(s, steps);
    RunInv(s, steps);
    forall key ensures View(e, key) == View(s, key) {
      RunView(s, steps, key);
      NoSet(steps, key);
    }
    AllCovered(e, t);
  }

  lemma WriterRuns(s: State)
    requires s.wal.buffer != []
    ensures Enabled(s, Writer)
    ensures var e := Apply(s, Writer);
            e.base == s.base && e.writes == s.writes && e.wal.buffer == [] && e.tables == s.tables
  {}

  lemma {:induction false} NoSet(steps: seq<Step>, key: string)
    requires forall step | step in steps :: !step.Set?
    ensures LastSet(steps, key) == None
    decreases |steps|
  {
    if steps != [] { NoSet(steps[..|steps| - 1], key); }
  }

  /** With both memtables empty nothing of the table is open, and its pages cover it all. */
  lemma AllCovered(s: State, t: string)
    requires Inv(s) && t in s.tables && s.tables[t].active == s.tables[t].imm == map[]
    ensures forall tx: nat | WroteTable(s.base, s.writes, tx, t) ::
              tx !in Open(s) && Covered(s.tables[t].synced, s.writes[tx - s.base].key, tx)
  {
    hide TxOk, MemOk, SyncedOk, PagesOk, IndexOk, LogOk, Covered;
    var tab := s.tables[t];
    assert TabOk(s.base, s.writes, t, tab);
    NothingHeld(s.base, s.writes, tab.activeTx);
    NothingHeld(s.base, s.writes, tab.immTx);
    TableCovered(s.base, s.writes, t, tab);
  }

  lemma NothingHeld(base: nat, writes: seq<Write>, txs: set<nat>)
    requires MemOk(base, writes, map[], txs)
    ensures txs == {}
  {
    assert forall tx | tx in txs :: HeldBy(base, writes, map[], tx);
  }

  lemma TableCovered(base: nat, writes: seq<Write>, t: string, tab: Table)
    requires SyncedOk(base, writes, t, tab) && tab.activeTx == tab.immTx == {}
    ensures Unmarked(tab) == {}
    ensures forall tx: nat | WroteTable(base, writes, tx, t) :: Covered(tab.synced, writes[tx - base].key, tx)
  {
    hide Covered;
  }

  /** A log file can be archived exactly if it is sealed and none of its writes is open. */
  lemma ArchiveEnabled(s: State, file: nat, capacity: nat)
    requires Inv(s) && capacity > 0
    ensures Enabled(s, Checkpoint(file, capacity)) <==>
              && file < Written(s) / capacity
              && forall tx: nat | tx in s.wal.log && tx / capacity == file :: tx !in Open(s)
  {
    hide TabOk, TableOf, Open;
  }
}
