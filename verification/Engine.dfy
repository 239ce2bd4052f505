/**
 The storage engine as a state machine: router, write-ahead log, flush, checkpoint, crash, recovery.

 One step is one thing that happens under a lock or in one system call: a write (log append and
 memtable insert), one round of the log writer, a memtable rotation, placing one record on a page,
 one change to the disk index, a sync, marking, dropping the flushed memtable, archiving a log file.
 `writes` is the history of all writes since start-up: transaction id `base + i` wrote `writes[i]`.
 */
module Engine {
  import opened Wrappers
  import opened Namespace
  import opened DiskPages
  import opened WalLog

  datatype Write = Write(key: string, text: string)

  /** A memtable entry; `ver` is the transaction id that wrote it. */
  datatype Cell = Cell(text: string, ver: nat)

  type Memtable = map<string, Cell>

  /** How far the background flush of the immutable memtable has got. */
  datatype Flush =
    | Idle
    | Filling(todo: seq<Rec>, deletions: set<string>, updates: Index)
    | Indexing(deletions: set<string>, updates: Index)
    | Synced
    | Marked

  /** One table; `synced` is what the last completed sync has made durable of `pages`. */
  datatype Table = Table(
    active: Memtable, activeTx: set<nat>,
    imm: Memtable, immTx: set<nat>,
    pages: Pages, synced: Pages, index: Index,
    flush: Flush)

  /** The log's side of the engine: records buffered in RAM, marks not yet on disk, the files. */
  datatype Wal = Wal(buffer: seq<(nat, Write)>, ram: set<nat>, log: Log<Write>)

  datatype State = State(base: nat, writes: seq<Write>, wal: Wal, tables: map<string, Table>)
  {
    /** `global_tx_id`: the next id to hand out. */
    function NextTx(): nat { base + |writes| }
  }

  /** The first id not yet written to a log file. */
  function Written(s: State): nat {
    if s.wal.buffer == [] then s.NextTx() else s.wal.buffer[0].0
  }

  // ---------------------------------------------------------------------------------------
  // Reading

  /** Active memtable, then immutable memtable, then disk through the index. */
  function Lookup(tab: Table, key: string): Option<string> {
    if key in tab.active then Seen(tab.active[key].text)
    else if key in tab.imm then Seen(tab.imm[key].text)
    else IndexedRead(tab.pages, tab.index, key)
  }

  function View(s: State, key: string): Option<string> {
    if TableOf(key) in s.tables then Lookup(s.tables[TableOf(key)], key) else None
  }

  // ---------------------------------------------------------------------------------------
  // Steps

  datatype Step =
    | Set(key: string, text: string)
    | Writer
    | Rotate(table: string, order: seq<Rec>)
    | NewPage(table: string)
    | Place(table: string)
    | BeginIndexing(table: string)
    | Pop(table: string, key: string)
    | Update(table: string, key: string)
    | Sync(table: string)
    | Mark(table: string)
    | Drop(table: string)
    | Checkpoint(file: nat, capacity: nat)

  /** The memtable's entries as records to be flushed. */
  function Recs(m: Memtable): set<Rec> {
    set k | k in m :: Rec(k, m[k].text, m[k].ver)
  }

  /** `order` lists the memtable, each key once. */
  ghost predicate Lists(order: seq<Rec>, m: Memtable) {
    && (forall r | r in order :: r in Recs(m))
    && (forall k | k in m :: Rec(k, m[k].text, m[k].ver) in order)
    && (forall i, j | 0 <= i < j < |order| :: order[i].key != order[j].key)
  }

  ghost predicate TabEnabled(tab: Table, step: Step) {
    match step
    // Rotation waits for the previous flush and needs a memtable that has reached its limit (>= 1).
    case Rotate(_, order) => tab.flush == Idle && tab.active != map[] && Lists(order, tab.active)
    case NewPage(_) => tab.flush.Filling?
    case Place(_) => tab.flush.Filling? && tab.flush.todo != [] && tab.pages != []
    case BeginIndexing(_) => tab.flush.Filling? && tab.flush.todo == []
    case Pop(_, k) => tab.flush.Indexing? && k in tab.flush.deletions
    case Update(_, k) => tab.flush.Indexing? && tab.flush.deletions == {} && k in tab.flush.updates
    case Sync(_) => tab.flush.Indexing? && tab.flush.deletions == {} && tab.flush.updates == map[]
    case Mark(_) => tab.flush == Synced
    case Drop(_) => tab.flush == Marked
    case _ => false
  }

  function ApplyTab(tab: Table, step: Step): Table
    requires TabEnabled(tab, step)
  {
    match step
    case Rotate(_, order) =>
      tab.(imm := tab.active, immTx := tab.activeTx, active := map[], activeTx := {},
           flush := Filling(order, {}, map[]))
    case NewPage(_) => tab.(pages := AddPage(tab.pages))
    case Place(_) =>
      var f, r, n := tab.flush, tab.flush.todo[0], |tab.pages| - 1;
      tab.(pages := Append(tab.pages, r),
           flush := if r.text == TOMBSTONE
                    then Filling(f.todo[1..], f.deletions + {r.key}, f.updates)
                    else Filling(f.todo[1..], f.deletions, f.updates[r.key := (n, |tab.pages[n]|)]))
    case BeginIndexing(_) => tab.(flush := Indexing(tab.flush.deletions, tab.flush.updates))
    case Pop(_, k) =>
      tab.(index := tab.index - {k}, flush := Indexing(tab.flush.deletions - {k}, tab.flush.updates))
    case Update(_, k) =>
      tab.(index := tab.index[k := tab.flush.updates[k]], flush := Indexing({}, tab.flush.updates - {k}))
    case Sync(_) => tab.(synced := tab.pages, flush := Synced)
    case Mark(_) => tab.(flush := Marked)
    case Drop(_) => tab.(imm := map[], immTx := {}, flush := Idle)
  }

  /** `mark_many_jobs_complete`: ids inside the buffer's id range stay in RAM, the others are marked on disk. */
  function MarkMany(wal: Wal, txs: set<nat>): Wal {
    var b := wal.buffer;
    var onDisk := if b == [] then txs else set tx | tx in txs && !(b[0].0 <= tx <= b[|b| - 1].0);
    wal.(ram := wal.ram + txs, log := MarkDone(wal.log, onDisk))
  }

  /** One round of the writer thread: the whole buffer goes to the log with the marks known in RAM. */
  function WriteBuffer(wal: Wal): Wal
    requires wal.buffer != []
  {
    Wal([], {}, Store(wal.log, wal.buffer[0].0, Texts(wal.buffer), wal.ram))
  }

  /** A round of the writer that has got `m` records into the files. */
  function WritePart(wal: Wal, m: nat): Wal
    requires m <= |wal.buffer|
  {
    if m == 0 then wal
    else Wal(wal.buffer[m..], wal.ram, Store(wal.log, wal.buffer[0].0, Texts(wal.buffer[..m]), wal.ram))
  }

  /** `archive_file`: a sealed file's entries leave the log together. */
  function Archive(wal: Wal, file: nat, capacity: nat): Wal
    requires capacity > 0
  {
    wal.(log := map tx | tx in wal.log && tx / capacity != file :: wal.log[tx])
  }

  function Texts(buffer: seq<(nat, Write)>): seq<Write> {
    seq(|buffer|, i requires 0 <= i < |buffer| => buffer[i].1)
  }

  ghost predicate Enabled(s: State, step: Step) {
    match step
    case Set(key, _) => TableOf(key) in s.tables
    case Writer => s.wal.buffer != []
    // A sealed file, strictly below the one being written, all of whose entries are complete.
    case Checkpoint(f, cap) =>
      cap > 0 && f < Written(s) / cap && forall tx: nat | tx in s.wal.log && tx / cap == f :: s.wal.log[tx].done
    case _ => step.table in s.tables && TabEnabled(s.tables[step.table], step)
  }

  /** `_set_internal`: one id, one log record, one memtable entry. */
  function ApplySet(s: State, key: string, text: string): State
    requires TableOf(key) in s.tables
  {
    var tx, t, tab := s.NextTx(), TableOf(key), s.tables[TableOf(key)];
    s.(writes := s.writes + [Write(key, text)],
       wal := s.wal.(buffer := s.wal.buffer + [(tx, Write(key, text))]),
       tables := s.tables[t := TabSet(tab, key, text, tx)])
  }

  function TabSet(tab: Table, key: string, text: string, tx: nat): Table {
    tab.(active := tab.active[key := Cell(text, tx)], activeTx := tab.activeTx + {tx})
  }

  function ApplyTable(s: State, step: Step): State
    requires !step.Set? && !step.Writer? && !step.Checkpoint?
    requires step.table in s.tables && TabEnabled(s.tables[step.table], step)
  {
    var tab := s.tables[step.table];
    s.(wal := if step.Mark? then MarkMany(s.wal, tab.immTx) else s.wal,
       tables := s.tables[step.table := ApplyTab(tab, step)])
  }

  function Apply(s: State, step: Step): State
    requires Enabled(s, step)
  {
    match step
    case Set(key, text) => ApplySet(s, key, text)
    case Writer => s.(wal := WriteBuffer(s.wal))
    case Checkpoint(f, cap) => s.(wal := Archive(s.wal, f, cap))
    case _ => ApplyTable(s, step)
  }

  ghost predicate CanRun(s: State, steps: seq<Step>)
    decreases |steps|
  {
    steps == [] || (Enabled(s, steps[0]) && CanRun(Apply(s, steps[0]), steps[1..]))
  }

  ghost function Run(s: State, steps: seq<Step>): State
    requires CanRun(s, steps)
    decreases |steps|
  {
    if steps == [] then s else Run(Apply(s, steps[0]), steps[1..])
  }

  // ---------------------------------------------------------------------------------------
  // Start

  /** Start-up with nothing to recover: every stored log entry is complete, memtables are empty. */
  ghost predicate Init(s: State) {
    && s.writes == [] && s.wal.buffer == [] && s.wal.ram == {}
    && (forall tx | tx in s.wal.log :: tx < s.base && s.wal.log[tx].done)
    && (forall t | t in s.tables ::
          var tab := s.tables[t];
          && tab.active == tab.imm == map[] && tab.activeTx == tab.immTx == {} && tab.flush == Idle
          && tab.synced == tab.pages && tab.index == Rebuild(tab.pages)
          && (forall p, r | 0 <= p < |tab.pages| && Some(r) in tab.pages[p] :: r.ver == -1))
  }

  // ---------------------------------------------------------------------------------------
  // Invariant

  /** Transaction `tx` wrote `key` with `text`. */
  ghost predicate Wrote(base: nat, writes: seq<Write>, tx: int, key: string, text: string) {
    base <= tx < base + |writes| && writes[tx - base] == Write(key, text)
  }

  ghost predicate WroteKey(base: nat, writes: seq<Write>, tx: int, key: string) {
    base <= tx < base + |writes| && writes[tx - base].key == key
  }

  ghost predicate WroteTable(base: nat, writes: seq<Write>, tx: int, t: string) {
    base <= tx < base + |writes| && TableOf(writes[tx - base].key) == t
  }

  /** The memtable holds, for each key written by `txs`, the last such write. */
  ghost predicate MemOk(base: nat, writes: seq<Write>, m: Memtable, txs: set<nat>) {
    && (forall k | k in m :: m[k].ver in txs && Wrote(base, writes, m[k].ver, k, m[k].text))
    && (forall tx | tx in txs :: HeldBy(base, writes, m, tx))
  }

  /** The memtable has the key of write `tx`, at that write or a later one. */
  ghost predicate HeldBy(base: nat, writes: seq<Write>, m: Memtable, tx: nat) {
    base <= tx < base + |writes| && writes[tx - base].key in m && tx <= m[writes[tx - base].key].ver
  }

  /** Writes of the table not yet marked complete. */
  function Unmarked(tab: Table): set<nat> {
    if tab.flush == Marked then tab.activeTx else tab.activeTx + tab.immTx
  }

  /** Writes flow from active to immutable to flushed in id order. */
  ghost predicate TxOk(base: nat, writes: seq<Write>, t: string, tab: Table) {
    && (forall tx | tx in tab.activeTx + tab.immTx :: WroteTable(base, writes, tx, t))
    && (forall a, b | a in tab.immTx && b in tab.activeTx :: a < b)
    && (forall tx: nat, p | WroteTable(base, writes, tx, t) && tx !in tab.activeTx + tab.immTx
                            && p in tab.activeTx + tab.immTx :: tx < p)
  }

  /** Synced records are genuine, and every marked write is covered by one at least as new. */
  ghost predicate SyncedOk(base: nat, writes: seq<Write>, t: string, tab: Table) {
    && (forall p, r | 0 <= p < |tab.synced| && Some(r) in tab.synced[p] ::
          r.ver == -1 || Wrote(base, writes, r.ver, r.key, r.text))
    && (forall tx: nat | WroteTable(base, writes, tx, t) && tx !in Unmarked(tab) ::
          Covered(tab.synced, writes[tx - base].key, tx))
  }

  ghost predicate Covered(pages: Pages, key: string, tx: nat) {
    LastRecord(pages, key).Some? && LastRecord(pages, key).value.ver >= tx
  }

  function Todo(tab: Table): seq<Rec> { if tab.flush.Filling? then tab.flush.todo else [] }

  ghost predicate InTodo(tab: Table, key: string) {
    exists r :: r in Todo(tab) && r.key == key
  }

  /** Keys whose index entry may still differ from what the pages say. */
  function Unsettled(tab: Table): set<string> {
    match tab.flush
    case Filling(_, _, _) => tab.imm.Keys
    case Indexing(d, u) => d + u.Keys
    case _ => {}
  }

  /** The pages hold what was synced, plus records of the memtable being flushed. */
  ghost predicate PagesOk(tab: Table) {
    && Extends(tab.synced, tab.pages, Recs(tab.imm))
    && (!tab.flush.Filling? && !tab.flush.Indexing? ==> tab.synced == tab.pages)
    && (tab.flush == Idle ==> tab.imm == map[] && tab.immTx == {})
    && (forall r | r in Todo(tab) :: r in Recs(tab.imm))
    && (forall i, j | 0 <= i < j < |Todo(tab)| :: Todo(tab)[i].key != Todo(tab)[j].key)
    && (forall k | k in tab.imm && !InTodo(tab, k) ::
          LastRecord(tab.pages, k) == Some(Rec(k, tab.imm[k].text, tab.imm[k].ver)))
  }

  /** Two index entries agree. */
  ghost predicate SameEntry(a: Index, b: Index, key: string) {
    (key in a <==> key in b) && (key in a ==> a[key] == b[key])
  }

  /** The index is what a rebuild would give, except where a pending change will make it so. */
  ghost predicate IndexOk(tab: Table) {
    && (forall k | k !in Unsettled(tab) :: SameEntry(tab.index, Rebuild(tab.pages), k))
    && (tab.flush.Filling? || tab.flush.Indexing? ==> PendingOk(tab, tab.flush.deletions, tab.flush.updates))
  }

  /** The pending index changes are right for every record placed so far. */
  ghost predicate PendingOk(tab: Table, deletions: set<string>, updates: Index) {
    var want := Rebuild(tab.pages);
    && deletions + updates.Keys <= tab.imm.Keys
    && (forall k | k in deletions :: k !in want && !InTodo(tab, k))
    && (forall k | k in updates :: SameEntry(updates, want, k) && !InTodo(tab, k))
    && (tab.flush.Filling? ==> forall k | k in tab.imm && !InTodo(tab, k) :: k in deletions || k in updates)
  }

  ghost predicate TabOk(base: nat, writes: seq<Write>, t: string, tab: Table) {
    && TxOk(base, writes, t, tab)
    && MemOk(base, writes, tab.active, tab.activeTx)
    && MemOk(base, writes, tab.imm, tab.immTx)
    && SyncedOk(base, writes, t, tab)
    && PagesOk(tab)
    && IndexOk(tab)
  }

  /** The writes still in some table's unmarked list. */
  ghost function Open(s: State): set<nat> {
    set tx | s.base <= tx < s.NextTx() && IsOpen(s, tx)
  }

  ghost predicate IsOpen(s: State, tx: nat)
    requires s.base <= tx < s.NextTx()
  {
    var t := TableOf(s.writes[tx - s.base].key);
    t in s.tables && tx in Unmarked(s.tables[t])
  }

  /** The buffer is a consecutive run of ids; completion marks tell exactly which writes are open. */
  ghost predicate LogOk(base: nat, writes: seq<Write>, wal: Wal, open: set<nat>) {
    var next := base + |writes|;
    var lo := next - |wal.buffer|;
    && |wal.buffer| <= |writes|
    && (forall i | 0 <= i < |wal.buffer| :: wal.buffer[i] == (lo + i, writes[lo + i - base]))
    && (forall tx | tx in wal.ram :: tx < next)
    && (forall tx | tx in wal.log :: tx < lo && (tx >= base ==> wal.log[tx].payload == writes[tx - base]))
    && (forall tx | tx in wal.log :: !wal.log[tx].done <==> tx in open)
    && (forall tx | tx in open :: base <= tx < next && (tx < lo ==> tx in wal.log))
    && (forall tx: nat | lo <= tx < next :: tx in wal.ram <==> tx !in open)
  }

  ghost predicate Inv(s: State) {
    && (forall w | w in s.writes :: TableOf(w.key) in s.tables)
    && (forall t | t in s.tables :: TabOk(s.base, s.writes, t, s.tables[t]))
    && LogOk(s.base, s.writes, s.wal, Open(s))
  }

  lemma InitInv(s: State)
    requires Init(s)
    ensures Inv(s)
  {
    forall t | t in s.tables ensures TabOk(s.base, s.writes, t, s.tables[t]) {
      ExtendsRefl(s.tables[t].pages, Recs(map[]));
    }
  }

  // ---------------------------------------------------------------------------------------
  // Flush steps keep a table's invariant

  lemma RotateOk(base: nat, writes: seq<Write>, t: string, tab: Table, step: Step)
    requires TabOk(base, writes, t, tab) && step.Rotate? && TabEnabled(tab, step)
    ensures TabOk(base, writes, t, ApplyTab(tab, step))
  {
    hide Rebuild, LastRecord, TableOf, Covered, Extends, MemOk;
    var tab' := ApplyTab(tab, step);
    ExtendsRefl(tab.pages, Recs(tab'.imm));
    forall k | k in tab'.imm ensures InTodo(tab', k) {
      assert Rec(k, tab'.imm[k].text, tab'.imm[k].ver) in step.order;
    }
  }

  lemma NewPageOk(base: nat, writes: seq<Write>, t: string, tab: Table, step: Step)
    requires TabOk(base, writes, t, tab) && step.NewPage? && TabEnabled(tab, step)
    ensures TabOk(base, writes, t, ApplyTab(tab, step))
  {
    var tab' := ApplyTab(tab, step);
    ExtendsAddPage(tab.synced, tab.pages, Recs(tab.imm));
    assert Todo(tab') == Todo(tab);
    forall k ensures Rebuild(tab'.pages) == Rebuild(tab.pages)
             ensures LastRecord(tab'.pages, k) == LastRecord(tab.pages, k)
             ensures InTodo(tab', k) <==> InTodo(tab, k) {
      AddPageKeeps(tab.pages, k);
    }
  }

  /** Placing the next record settles its key and leaves every other key as it was. */
  lemma PlaceTodo(tab: Table, step: Step, k: string)
    requires PagesOk(tab) && step.Place? && TabEnabled(tab, step)
    ensures var tab' := ApplyTab(tab, step); var r := tab.flush.todo[0];
            && (InTodo(tab', k) <==> InTodo(tab, k) && k != r.key)
            && r.key in tab.imm && r == Rec(r.key, tab.imm[r.key].text, tab.imm[r.key].ver)
            && InTodo(tab, r.key)
  {
    var tab', r := ApplyTab(tab, step), tab.flush.todo[0];
    assert r in Todo(tab) && r in Recs(tab.imm);
    if InTodo(tab', k) {
      var x :| x in Todo(tab') && x.key == k;
      var i :| 0 <= i < |Todo(tab')| && Todo(tab')[i] == x;
      assert Todo(tab)[i + 1] == x;
    }
    if InTodo(tab, k) && k != r.key {
      var x :| x in Todo(tab) && x.key == k;
      var i :| 0 <= i < |Todo(tab)| && Todo(tab)[i] == x;
      assert Todo(tab')[i - 1] == x;
    }
  }

  lemma PlacePagesOk(tab: Table, step: Step)
    requires PagesOk(tab) && step.Place? && TabEnabled(tab, step)
    ensures PagesOk(ApplyTab(tab, step))
  {
    var tab', r := ApplyTab(tab, step), tab.flush.todo[0];
    PlaceTodo(tab, step, r.key);
    ExtendsAppend(tab.synced, tab.pages, Recs(tab.imm), r);
    assert forall x | x in Todo(tab') :: x in Todo(tab);
    forall k | k in tab'.imm && !InTodo(tab', k)
      ensures LastRecord(tab'.pages, k) == Some(Rec(k, tab'.imm[k].text, tab'.imm[k].ver))
    {
      PlaceTodo(tab, step, k);
      AppendIndexes(tab.pages, r, k);
    }
  }

  lemma PlaceIndexOk(tab: Table, step: Step)
    requires PagesOk(tab) && IndexOk(tab) && step.Place? && TabEnabled(tab, step)
    ensures IndexOk(ApplyTab(tab, step))
  {
    hide Rebuild, LastRecord, InTodo, PendingOk, Append, Extends, Recs;
    var tab', r, n := ApplyTab(tab, step), tab.flush.todo[0], |tab.pages| - 1;
    PlaceTodo(tab, step, r.key);
    AppendIndexes(tab.pages, r, r.key);
    forall k ensures InTodo(tab', k) <==> InTodo(tab, k) && k != r.key {
      PlaceTodo(tab, step, k);
    }
    PlacePendingOk(tab, tab', r, (n, |tab.pages[n]|));
    forall k | k !in Unsettled(tab') ensures SameEntry(tab'.index, Rebuild(tab'.pages), k) {
      assert k != r.key && SameEntry(tab.index, Rebuild(tab.pages), k);
    }
  }

  /** The placed record's pending change is right, and no other pending change is disturbed. */
  lemma PlacePendingOk(tab: Table, tab': Table, r: Rec, at: Position)
    requires tab.flush.Filling? && tab'.flush.Filling? && tab.imm == tab'.imm && r.key in tab.imm && InTodo(tab, r.key)
    requires PendingOk(tab, tab.flush.deletions, tab.flush.updates)
    requires forall k :: InTodo(tab', k) <==> InTodo(tab, k) && k != r.key
    requires Rebuild(tab'.pages) == IndexRecord(Rebuild(tab.pages), Some(r), at)
    requires tab'.flush.deletions == tab.flush.deletions + (if r.text == TOMBSTONE then {r.key} else {})
    requires tab'.flush.updates == if r.text == TOMBSTONE then tab.flush.updates else tab.flush.updates[r.key := at]
    ensures PendingOk(tab', tab'.flush.deletions, tab'.flush.updates)
    ensures forall k | k != r.key :: SameEntry(Rebuild(tab'.pages), Rebuild(tab.pages), k)
  {
    hide InTodo, Rebuild;
    var f, f' := tab.flush, tab'.flush;
    assert r.key !in f.deletions && r.key !in f.updates;
    forall k | k in f'.updates ensures SameEntry(f'.updates, Rebuild(tab'.pages), k) && !InTodo(tab', k) {
      assert k == r.key || k in f.updates;
    }
    forall k | k in tab'.imm && !InTodo(tab', k) ensures k in f'.deletions || k in f'.updates {
      assert k == r.key || !InTodo(tab, k);
    }
  }

  lemma PlaceOk(base: nat, writes: seq<Write>, t: string, tab: Table, step: Step)
    requires TabOk(base, writes, t, tab) && step.Place? && TabEnabled(tab, step)
    ensures TabOk(base, writes, t, ApplyTab(tab, step))
  {
    hide Rebuild, LastRecord, TableOf, Covered, MemOk, PagesOk, IndexOk;
    PlacePagesOk(tab, step);
    PlaceIndexOk(tab, step);
    assert SyncedOk(base, writes, t, ApplyTab(tab, step));
  }

  lemma BeginIndexingOk(base: nat, writes: seq<Write>, t: string, tab: Table, step: Step)
    requires TabOk(base, writes, t, tab) && step.BeginIndexing? && TabEnabled(tab, step)
    ensures TabOk(base, writes, t, ApplyTab(tab, step))
  {
    hide Rebuild, LastRecord, TableOf, Covered, Extends, MemOk;
    var tab' := ApplyTab(tab, step);
    assert forall k :: !InTodo(tab', k) && !InTodo(tab, k);
    assert SyncedOk(base, writes, t, tab') && PagesOk(tab');
    forall k | k !in Unsettled(tab') ensures SameEntry(tab'.index, Rebuild(tab'.pages), k) {
      assert k !in tab.imm;
    }
  }

  /** While indexing, only the index and the pending changes move. */
  lemma IndexMoved(base: nat, writes: seq<Write>, t: string, tab: Table, tab': Table)
    requires TabOk(base, writes, t, tab) && tab.flush.Indexing? && tab'.flush.Indexing?
    requires tab' == tab.(index := tab'.index, flush := tab'.flush) && IndexOk(tab')
    ensures TabOk(base, writes, t, tab')
  {
    assert forall k :: InTodo(tab', k) <==> InTodo(tab, k);
    hide InTodo, Rebuild, LastRecord, Extends, Recs, IndexOk;
    assert SyncedOk(base, writes, t, tab');
  }

  lemma PopIndexOk(tab: Table, step: Step)
    requires IndexOk(tab) && step.Pop? && TabEnabled(tab, step)
    ensures IndexOk(ApplyTab(tab, step))
  {
    var tab' := ApplyTab(tab, step);
    assert forall k :: !InTodo(tab', k) && !InTodo(tab, k);
    hide InTodo, Rebuild;
    forall k | k !in Unsettled(tab') ensures SameEntry(tab'.index, Rebuild(tab'.pages), k) {
      assert k == step.key || k !in Unsettled(tab);
    }
  }

  lemma UpdateIndexOk(tab: Table, step: Step)
    requires IndexOk(tab) && step.Update? && TabEnabled(tab, step)
    ensures IndexOk(ApplyTab(tab, step))
  {
    var tab' := ApplyTab(tab, step);
    assert forall k :: !InTodo(tab', k) && !InTodo(tab, k);
    hide InTodo, Rebuild;
    forall k | k !in Unsettled(tab') ensures SameEntry(tab'.index, Rebuild(tab'.pages), k) {
      assert k == step.key || k !in Unsettled(tab);
    }
    forall k | k in tab'.flush.updates ensures SameEntry(tab'.flush.updates, Rebuild(tab'.pages), k) {
      assert k in tab.flush.updates;
    }
  }

  /** A sync makes the flushed records durable: coverage only grows. */
  lemma SyncOk(base: nat, writes: seq<Write>, t: string, tab: Table, step: Step)
    requires TabOk(base, writes, t, tab) && step.Sync? && TabEnabled(tab, step)
    ensures TabOk(base, writes, t, ApplyTab(tab, step))
  {
    var tab' := ApplyTab(tab, step);
    ExtendsRefl(tab.pages, Recs(tab.imm));
    assert forall k :: InTodo(tab', k) <==> InTodo(tab, k);
    forall p, r | 0 <= p < |tab.pages| && Some(r) in tab.pages[p]
      ensures r.ver == -1 || Wrote(base, writes, r.ver, r.key, r.text)
    {
      var i :| 0 <= i < |tab.pages[p]| && tab.pages[p][i] == Some(r);
      if p < |tab.synced| && i < |tab.synced[p]| {
        assert tab.synced[p][i] == Some(r);
      } else if p < |tab.synced| {
        assert tab.pages[p][|tab.synced[p]|..][i - |tab.synced[p]|] == Some(r);
      }
    }
    forall tx: nat | WroteTable(base, writes, tx, t) && tx !in Unmarked(tab')
      ensures Covered(tab'.synced, writes[tx - base].key, tx)
    {
      CoverageGrows(base, writes, t, tab, tab.pages, tx);
    }
  }

  /** Records of the memtable being flushed are newer than every marked write. */
  lemma CoverageGrows(base: nat, writes: seq<Write>, t: string, tab: Table, c: Pages, tx: nat)
    requires TabOk(base, writes, t, tab) && tab.flush != Marked
    requires Extends(tab.synced, c, Recs(tab.imm))
    requires WroteTable(base, writes, tx, t) && tx !in Unmarked(tab)
    ensures Covered(c, writes[tx - base].key, tx)
  {
    var key := writes[tx - base].key;
    LastExtends(tab.synced, c, key, Recs(tab.imm));
  }

  lemma MarkOk(base: nat, writes: seq<Write>, t: string, tab: Table, step: Step)
    requires TabOk(base, writes, t, tab) && step.Mark? && TabEnabled(tab, step)
    ensures TabOk(base, writes, t, ApplyTab(tab, step))
  {
    var tab' := ApplyTab(tab, step);
    assert forall k :: !InTodo(tab', k) && !InTodo(tab, k);
    forall tx: nat | WroteTable(base, writes, tx, t) && tx !in Unmarked(tab')
      ensures Covered(tab'.synced, writes[tx - base].key, tx)
    {
      var key := writes[tx - base].key;
      if tx in tab.immTx {
        assert key in tab.imm && LastRecord(tab.pages, key).value.ver == tab.imm[key].ver;
      }
    }
  }

  lemma DropOk(base: nat, writes: seq<Write>, t: string, tab: Table, step: Step)
    requires TabOk(base, writes, t, tab) && step.Drop? && TabEnabled(tab, step)
    ensures TabOk(base, writes, t, ApplyTab(tab, step))
  {
    hide TxOk, MemOk, SyncedOk, PagesOk, IndexOk;
    DropIds(base, writes, t, tab, step);
    DropSynced(base, writes, t, tab, step);
    DropPages(tab, step);
    NoMemory(base, writes);
  }

  lemma NoMemory(base: nat, writes: seq<Write>)
    ensures MemOk(base, writes, map[], {})
  {}

  lemma DropIds(base: nat, writes: seq<Write>, t: string, tab: Table, step: Step)
    requires TxOk(base, writes, t, tab) && SyncedOk(base, writes, t, tab) && step.Drop? && TabEnabled(tab, step)
    ensures TxOk(base, writes, t, ApplyTab(tab, step))
  {
    hide SyncedOk, WroteTable;
    var tab' := ApplyTab(tab, step);
    assert tab'.activeTx + tab'.immTx == tab.activeTx;
    forall tx: nat, p | WroteTable(base, writes, tx, t) && tx !in tab.activeTx && p in tab.activeTx ensures tx < p {
      assert p in tab.activeTx + tab.immTx;
      if tx !in tab.immTx { assert tx !in tab.activeTx + tab.immTx; }
    }
  }

  lemma DropSynced(base: nat, writes: seq<Write>, t: string, tab: Table, step: Step)
    requires SyncedOk(base, writes, t, tab) && step.Drop? && TabEnabled(tab, step)
    ensures SyncedOk(base, writes, t, ApplyTab(tab, step))
  {
    hide WroteTable, Covered, Wrote;
    assert Unmarked(ApplyTab(tab, step)) == Unmarked(tab);
    hide Unmarked;
  }

  lemma DropPages(tab: Table, step: Step)
    requires PagesOk(tab) && IndexOk(tab) && step.Drop? && TabEnabled(tab, step)
    ensures PagesOk(ApplyTab(tab, step)) && IndexOk(ApplyTab(tab, step))
  {
    var tab' := ApplyTab(tab, step);
    ExtendsRefl(tab.pages, Recs(map[]));
    assert forall k :: !InTodo(tab', k) && !InTodo(tab, k);
    hide InTodo, Rebuild, LastRecord, Extends, Recs;
  }

  lemma TabStepOk(base: nat, writes: seq<Write>, t: string, tab: Table, step: Step)
    requires TabOk(base, writes, t, tab) && TabEnabled(tab, step)
    ensures TabOk(base, writes, t, ApplyTab(tab, step))
  {
    hide TabOk;
    match step
    case Rotate(_, _) => RotateOk(base, writes, t, tab, step);
    case NewPage(_) => NewPageOk(base, writes, t, tab, step);
    case Place(_) => PlaceOk(base, writes, t, tab, step);
    case BeginIndexing(_) => BeginIndexingOk(base, writes, t, tab, step);
    case Pop(_, _) => PopStepOk(base, writes, t, tab, step);
    case Update(_, _) => UpdateStepOk(base, writes, t, tab, step);
    case Sync(_) => SyncOk(base, writes, t, tab, step);
    case Mark(_) => MarkOk(base, writes, t, tab, step);
    case Drop(_) => DropOk(base, writes, t, tab, step);
    case _ =>
  }

  lemma PopStepOk(base: nat, writes: seq<Write>, t: string, tab: Table, step: Step)
    requires TabOk(base, writes, t, tab) && step.Pop? && TabEnabled(tab, step)
    ensures TabOk(base, writes, t, ApplyTab(tab, step))
  {
    PopIndexOk(tab, step);
    IndexMoved(base, writes, t, tab, ApplyTab(tab, step));
  }

  lemma UpdateStepOk(base: nat, writes: seq<Write>, t: string, tab: Table, step: Step)
    requires TabOk(base, writes, t, tab) && step.Update? && TabEnabled(tab, step)
    ensures TabOk(base, writes, t, ApplyTab(tab, step))
  {
    UpdateIndexOk(tab, step);
    IndexMoved(base, writes, t, tab, ApplyTab(tab, step));
  }

  // ---------------------------------------------------------------------------------------
  // A write keeps every table's invariant

  /** The history of a table is unaffected by a write to another. */
  lemma OtherTableOk(base: nat, writes: seq<Write>, w: Write, t: string, tab: Table)
    requires TabOk(base, writes, t, tab) && TableOf(w.key) != t
    ensures TabOk(base, writes + [w], t, tab)
  {
    hide PagesOk, IndexOk, LastRecord;
    HistoryGrows(base, writes, w);
  }

  /** Old ids keep what they wrote; the new id wrote the new record. */
  lemma HistoryGrows(base: nat, writes: seq<Write>, w: Write)
    ensures forall x: int, key, text | Wrote(base, writes, x, key, text) :: Wrote(base, writes + [w], x, key, text)
    ensures forall x: int, t :: WroteTable(base, writes + [w], x, t) <==>
              WroteTable(base, writes, x, t) || (x == base + |writes| && TableOf(w.key) == t)
    ensures forall i | 0 <= i < |writes| :: (writes + [w])[i] == writes[i]
    ensures (writes + [w])[|writes|] == w
  {}

  lemma SetTableOk(base: nat, writes: seq<Write>, w: Write, t: string, tab: Table)
    requires TabOk(base, writes, t, tab) && TableOf(w.key) == t
    ensures TabOk(base, writes + [w], t, TabSet(tab, w.key, w.text, base + |writes|))
  {
    var tab' := TabSet(tab, w.key, w.text, base + |writes|);
    SetPagesOk(tab, tab');
    SetTxOk(base, writes, w, t, tab);
  }

  lemma SetPagesOk(tab: Table, tab': Table)
    requires PagesOk(tab) && IndexOk(tab) && tab' == tab.(active := tab'.active, activeTx := tab'.activeTx)
    ensures PagesOk(tab') && IndexOk(tab')
  {
    assert Todo(tab') == Todo(tab);
    assert forall k :: InTodo(tab', k) <==> InTodo(tab, k);
    hide LastRecord, Rebuild, InTodo, Extends, Recs;
  }

  lemma SetTxOk(base: nat, writes: seq<Write>, w: Write, t: string, tab: Table)
    requires TabOk(base, writes, t, tab) && TableOf(w.key) == t
    ensures var tab' := TabSet(tab, w.key, w.text, base + |writes|); var writes' := writes + [w];
            && TxOk(base, writes', t, tab')
            && MemOk(base, writes', tab'.active, tab'.activeTx) && MemOk(base, writes', tab'.imm, tab'.immTx)
            && SyncedOk(base, writes', t, tab')
  {
    hide PagesOk, IndexOk, LastRecord, MemOk, TxOk, SyncedOk, TabSet;
    SetMemOk(base, writes, w, tab);
    SetIds(base, writes, w, t, tab);
    SyncedGrows(base, writes, w, t, tab);
  }

  /** The new id is above all others of the table and joins the active ones. */
  lemma SetIds(base: nat, writes: seq<Write>, w: Write, t: string, tab: Table)
    requires TxOk(base, writes, t, tab) && TableOf(w.key) == t
    ensures TxOk(base, writes + [w], t, TabSet(tab, w.key, w.text, base + |writes|))
  {
    hide TableOf, WroteTable;
    var tx, writes', tab' := base + |writes|, writes + [w], TabSet(tab, w.key, w.text, base + |writes|);
    forall x: int ensures WroteTable(base, writes', x, t) <==> WroteTable(base, writes, x, t) || x == tx {
      TableHistory(base, writes, w, t, x);
    }
    forall x: int | WroteTable(base, writes, x, t) ensures x < tx { TableHistory(base, writes, w, t, x); }
    assert tab'.activeTx == tab.activeTx + {tx} && tab'.immTx == tab.immTx;
    assert forall x | x in tab.activeTx + tab.immTx :: WroteTable(base, writes, x, t);
  }

  lemma TableHistory(base: nat, writes: seq<Write>, w: Write, t: string, x: int)
    ensures WroteTable(base, writes + [w], x, t) <==>
              WroteTable(base, writes, x, t) || (x == base + |writes| && TableOf(w.key) == t)
    ensures WroteTable(base, writes, x, t) ==> x < base + |writes|
  {
    hide TableOf;
  }

  /** What is synced stays genuine, and the new write is unmarked. */
  lemma SyncedGrows(base: nat, writes: seq<Write>, w: Write, t: string, tab: Table)
    requires SyncedOk(base, writes, t, tab) && TableOf(w.key) == t
    ensures SyncedOk(base, writes + [w], t, TabSet(tab, w.key, w.text, base + |writes|))
  {
    hide TableOf, Covered, WroteTable;
    var tx, writes', tab' := base + |writes|, writes + [w], TabSet(tab, w.key, w.text, base + |writes|);
    assert Unmarked(tab') == Unmarked(tab) + {tx};
    hide Unmarked;
    forall x: nat | WroteTable(base, writes', x, t) && x !in Unmarked(tab')
      ensures base <= x < base + |writes'|
      ensures Covered(tab'.synced, writes'[x - base].key, x)
    {
      TableHistory(base, writes, w, t, x);
      InHistory(base, writes, x, t);
      InHistory(base, writes', x, t);
      assert writes'[x - base] == writes[x - base];
    }
    forall p, r | 0 <= p < |tab.synced| && Some(r) in tab.synced[p]
      ensures r.ver == -1 || Wrote(base, writes', r.ver, r.key, r.text)
    {
      if r.ver != -1 { WroteGrows(base, writes, w, r.ver, r.key, r.text); }
    }
  }

  lemma InHistory(base: nat, writes: seq<Write>, x: int, t: string)
    requires WroteTable(base, writes, x, t)
    ensures base <= x < base + |writes|
  {}

  lemma SetMemOk(base: nat, writes: seq<Write>, w: Write, tab: Table)
    requires MemOk(base, writes, tab.active, tab.activeTx) && MemOk(base, writes, tab.imm, tab.immTx)
    ensures var tab' := TabSet(tab, w.key, w.text, base + |writes|); var writes' := writes + [w];
            MemOk(base, writes', tab'.active, tab'.activeTx) && MemOk(base, writes', tab'.imm, tab'.immTx)
  {
    hide MemOk;
    MemGrows(base, writes, w, tab.imm, tab.immTx);
    MemSet(base, writes, w, tab.active, tab.activeTx);
  }

  /** A memtable stays right when the history grows. */
  lemma MemGrows(base: nat, writes: seq<Write>, w: Write, m: Memtable, txs: set<nat>)
    requires MemOk(base, writes, m, txs)
    ensures MemOk(base, writes + [w], m, txs)
  {
    hide HeldBy, Wrote;
    forall tx | tx in txs ensures HeldBy(base, writes + [w], m, tx) {
      HeldGrows(base, writes, w, m, tx);
    }
    forall k | k in m ensures Wrote(base, writes + [w], m[k].ver, k, m[k].text) {
      WroteGrows(base, writes, w, m[k].ver, k, m[k].text);
    }
  }

  lemma HeldGrows(base: nat, writes: seq<Write>, w: Write, m: Memtable, tx: nat)
    requires HeldBy(base, writes, m, tx)
    ensures HeldBy(base, writes + [w], m, tx)
    ensures HeldBy(base, writes + [w], m[w.key := Cell(w.text, base + |writes|)], tx)
  {
    assert (writes + [w])[tx - base] == writes[tx - base];
  }

  lemma WroteGrows(base: nat, writes: seq<Write>, w: Write, tx: int, key: string, text: string)
    requires Wrote(base, writes, tx, key, text)
    ensures Wrote(base, writes + [w], tx, key, text)
  {
    assert (writes + [w])[tx - base] == writes[tx - base];
  }

  lemma MemSet(base: nat, writes: seq<Write>, w: Write, m: Memtable, txs: set<nat>)
    requires MemOk(base, writes, m, txs)
    ensures var tx := base + |writes|; MemOk(base, writes + [w], m[w.key := Cell(w.text, tx)], txs + {tx})
  {
    var tx, writes' := base + |writes|, writes + [w];
    var m' := m[w.key := Cell(w.text, tx)];
    assert writes'[tx - base] == w;
    assert HeldBy(base, writes', m', tx) && Wrote(base, writes', tx, w.key, w.text);
    hide HeldBy, Wrote;
    forall k | k in m' ensures m'[k].ver in txs + {tx} && Wrote(base, writes', m'[k].ver, k, m'[k].text) {
      if k != w.key {
        assert m'[k] == m[k] && m[k].ver in txs;
        WroteGrows(base, writes, w, m[k].ver, k, m[k].text);
      }
    }
    forall x | x in txs + {tx} ensures HeldBy(base, writes', m', x) {
      if x != tx { HeldGrows(base, writes, w, m, x); }
    }
  }

  // ---------------------------------------------------------------------------------------
  // Every step keeps the invariant

  lemma SetLogOk(base: nat, writes: seq<Write>, wal: Wal, open: set<nat>, w: Write)
    requires LogOk(base, writes, wal, open)
    ensures var tx := base + |writes|;
            LogOk(base, writes + [w], wal.(buffer := wal.buffer + [(tx, w)]), open + {tx})
  {}

  /** Writing the first `m` buffered records moves the boundary between buffer and files, and closes nothing. */
  lemma PartLogOk(base: nat, writes: seq<Write>, wal: Wal, open: set<nat>, m: nat)
    requires LogOk(base, writes, wal, open) && m <= |wal.buffer|
    ensures LogOk(base, writes, WritePart(wal, m), open)
  {
    if m > 0 {
      hide Texts, Store;
      var next := base + |writes|;
      var lo, wal' := next - |wal.buffer|, WritePart(wal, m);
      assert wal.buffer[0].0 == lo;
      PartStores(wal, m, lo, writes, base);
      forall i | 0 <= i < |wal'.buffer| ensures wal'.buffer[i] == (lo + m + i, writes[lo + m + i - base]) {
        assert wal'.buffer[i] == wal.buffer[m + i];
      }
    }
  }

  lemma PartStores(wal: Wal, m: nat, lo: nat, writes: seq<Write>, base: nat)
    requires 0 < m <= |wal.buffer| && base <= lo && lo + |wal.buffer| <= base + |writes| && wal.buffer[0].0 == lo
    requires forall i | 0 <= i < |wal.buffer| :: wal.buffer[i] == (lo + i, writes[lo + i - base])
    ensures var log := WritePart(wal, m).log;
            && (forall tx | tx in log :: (lo <= tx < lo + m) || (tx in wal.log && log[tx] == wal.log[tx]))
            && (forall tx | tx in wal.log && !(lo <= tx < lo + m) :: tx in log)
            && (forall tx: nat | lo <= tx < lo + m :: tx in log && log[tx] == Entry(writes[tx - base], tx in wal.ram))
  {
    var log := WritePart(wal, m).log;
    forall tx: nat | lo <= tx < lo + m ensures tx in log && log[tx] == Entry(writes[tx - base], tx in wal.ram) {
      assert wal.buffer[..m][tx - lo] == wal.buffer[tx - lo];
    }
  }

  lemma WriterLogOk(base: nat, writes: seq<Write>, wal: Wal, open: set<nat>)
    requires LogOk(base, writes, wal, open) && wal.buffer != []
    ensures LogOk(base, writes, WriteBuffer(wal), open)
  {
    var n := |wal.buffer|;
    PartLogOk(base, writes, wal, open, n);
    assert wal.buffer[..n] == wal.buffer && wal.buffer[n..] == [];
  }

  lemma ArchiveLogOk(base: nat, writes: seq<Write>, wal: Wal, open: set<nat>, file: nat, capacity: nat)
    requires LogOk(base, writes, wal, open) && capacity > 0
    requires forall tx: nat | tx in wal.log && tx / capacity == file :: wal.log[tx].done
    ensures LogOk(base, writes, Archive(wal, file, capacity), open)
  {}

  /** Marking closes each of `txs` once: in RAM if it is still buffered, else on disk. */
  lemma MarkLogOk(base: nat, writes: seq<Write>, wal: Wal, open: set<nat>, txs: set<nat>)
    requires LogOk(base, writes, wal, open) && txs <= open
    ensures LogOk(base, writes, MarkMany(wal, txs), open - txs)
  {
    var b := wal.buffer;
    assert b != [] ==> b[|b| - 1].0 == base + |writes| - 1;
  }

  lemma SetOpen(s: State, key: string, text: string)
    requires TableOf(key) in s.tables
    ensures Open(ApplySet(s, key, text)) == Open(s) + {s.NextTx()}
  {
    hide TableOf;
    var s', tab, n := ApplySet(s, key, text), s.tables[TableOf(key)], s.NextTx();
    assert Unmarked(TabSet(tab, key, text, n)) == Unmarked(tab) + {n};
    hide Unmarked, TabSet;
    forall tx: nat | s.base <= tx < n ensures IsOpen(s', tx) <==> IsOpen(s, tx) {
      assert s'.writes[tx - s.base] == s.writes[tx - s.base];
    }
    assert IsOpen(s', n);
    hide IsOpen;
  }

  lemma SetInv(s: State, key: string, text: string)
    requires Inv(s) && TableOf(key) in s.tables
    ensures Inv(ApplySet(s, key, text))
  {
    hide TabOk, LogOk, TableOf;
    var s', w, tk := ApplySet(s, key, text), Write(key, text), TableOf(key);
    SetLogOk(s.base, s.writes, s.wal, Open(s), w);
    SetOpen(s, key, text);
    forall t | t in s'.tables ensures TabOk(s.base, s'.writes, t, s'.tables[t]) {
      if t == tk {
        SetTableOk(s.base, s.writes, w, t, s.tables[t]);
      } else {
        OtherTableOk(s.base, s.writes, w, t, s.tables[t]);
      }
    }
  }

  /** Only marking takes writes off a table's unmarked list, and it takes exactly the flushed ones. */
  lemma UnmarkedStep(base: nat, writes: seq<Write>, t: string, tab: Table, step: Step)
    requires TabOk(base, writes, t, tab) && TabEnabled(tab, step)
    ensures Unmarked(ApplyTab(tab, step)) == if step.Mark? then Unmarked(tab) - tab.immTx else Unmarked(tab)
    ensures step.Mark? ==> tab.immTx <= Unmarked(tab)
    ensures forall tx | tx in tab.immTx :: WroteTable(base, writes, tx, t)
  {
    hide SyncedOk, IndexOk, MemOk, Extends, LastRecord;
    if step.Mark? {
      assert forall tx | tx in tab.immTx :: tx !in tab.activeTx;
    }
  }

  lemma TableStepOpen(s: State, step: Step)
    requires Inv(s) && !step.Set? && !step.Writer? && !step.Checkpoint?
    requires step.table in s.tables && TabEnabled(s.tables[step.table], step)
    ensures var immTx := s.tables[step.table].immTx;
            && (step.Mark? ==> immTx <= Open(s))
            && Open(ApplyTable(s, step)) == if step.Mark? then Open(s) - immTx else Open(s)
  {
    hide LogOk, TabOk, TableOf, TabEnabled, ApplyTab, Unmarked, MarkMany;
    var t, tab := step.table, s.tables[step.table];
    var s', tab' := ApplyTable(s, step), ApplyTab(tab, step);
    UnmarkedStep(s.base, s.writes, t, tab, step);
    forall tx: nat | s.base <= tx < s.NextTx()
      ensures IsOpen(s', tx) <==> IsOpen(s, tx) && (step.Mark? ==> tx !in tab.immTx)
      ensures step.Mark? && tx in tab.immTx ==> IsOpen(s, tx)
    {
      if tx in tab.immTx { assert WroteTable(s.base, s.writes, tx, t); }
    }
    hide IsOpen;
  }

  lemma TableStepInv(s: State, step: Step)
    requires Inv(s) && !step.Set? && !step.Writer? && !step.Checkpoint?
    requires step.table in s.tables && TabEnabled(s.tables[step.table], step)
    ensures Inv(ApplyTable(s, step))
  {
    hide TabOk, TabEnabled, ApplyTab, LogOk, Open, MarkMany;
    TableStepOpen(s, step);
    TabStepOk(s.base, s.writes, step.table, s.tables[step.table], step);
    if step.Mark? {
      MarkLogOk(s.base, s.writes, s.wal, Open(s), s.tables[step.table].immTx);
    }
  }

  /** Which writes are open does not depend on the log. */
  lemma SameOpen(s: State, wal: Wal)
    ensures Open(s.(wal := wal)) == Open(s)
  {
    hide TableOf, Unmarked;
    forall tx: nat | s.base <= tx < s.NextTx() ensures IsOpen(s.(wal := wal), tx) <==> IsOpen(s, tx) {}
    hide IsOpen;
  }

  /** Stopping the writer in the middle of a round keeps the invariant. */
  lemma PartInv(s: State, m: nat)
    requires Inv(s) && m <= |s.wal.buffer|
    ensures Inv(s.(wal := WritePart(s.wal, m)))
  {
    hide TabOk, LogOk, WritePart, Open;
    PartLogOk(s.base, s.writes, s.wal, Open(s), m);
    SameOpen(s, WritePart(s.wal, m));
  }

  lemma StepInv(s: State, step: Step)
    requires Inv(s) && Enabled(s, step)
    ensures Inv(Apply(s, step))
  {
    hide TabOk, LogOk, TabEnabled, ApplySet, ApplyTable, WriteBuffer, Archive, Open;
    match step
    case Set(key, text) => SetInv(s, key, text);
    case Writer =>
      WriterLogOk(s.base, s.writes, s.wal, Open(s));
      SameOpen(s, WriteBuffer(s.wal));
    case Checkpoint(f, cap) =>
      ArchiveLogOk(s.base, s.writes, s.wal, Open(s), f, cap);
      SameOpen(s, Archive(s.wal, f, cap));
    case _ => TableStepInv(s, step);
  }

  /** The invariant holds after any run from a start with nothing to recover. */
  lemma {:induction false} RunInv(s: State, steps: seq<Step>)
    requires Inv(s) && CanRun(s, steps)
    ensures Inv(Run(s, steps))
    decreases |steps|
  {
    if steps != [] {
      StepInv(s, steps[0]);
      RunInv(Apply(s, steps[0]), steps[1..]);
    }
  }

  // ---------------------------------------------------------------------------------------
  // The engine is a map: flushing, logging and checkpointing are invisible to readers

  /** Away from pending changes, the index reads what a full scan of the pages would. */
  lemma SettledRead(tab: Table, key: string)
    requires IndexOk(tab) && key !in Unsettled(tab)
    ensures IndexedRead(tab.pages, tab.index, key) == ScanRead(tab.pages, key)
  {
    RebuildCorrect(tab.pages, key);
  }

  /** In the middle of a flush, a key in neither memtable reads from disk as the scan does, before and after a step. */
  lemma DiskStepView(tab: Table, step: Step, key: string)
    requires PagesOk(tab) && IndexOk(tab) && TabEnabled(tab, step) && IndexOk(ApplyTab(tab, step))
    requires key !in tab.imm && !step.Rotate? && !step.Drop?
    ensures var tab' := ApplyTab(tab, step);
            IndexedRead(tab'.pages, tab'.index, key) == IndexedRead(tab.pages, tab.index, key)
  {
    var tab' := ApplyTab(tab, step);
    UnsettledOld(tab, key);
    UnsettledOld(tab', key);
    SettledRead(tab, key);
    SettledRead(tab', key);
    hide PagesOk, IndexOk, IndexedRead, Rebuild;
    if step.Place? {
      PlaceTodo(tab, step, key);
      AppendIndexes(tab.pages, tab.flush.todo[0], key);
    } else if step.NewPage? {
      AddPageKeeps(tab.pages, key);
    }
  }

  lemma UnsettledOld(tab: Table, key: string)
    requires IndexOk(tab) && key !in tab.imm
    ensures key !in Unsettled(tab)
  {
    hide Rebuild;
  }

  lemma RotateView(tab: Table, step: Step, key: string)
    requires PagesOk(tab) && step.Rotate? && TabEnabled(tab, step)
    ensures Lookup(ApplyTab(tab, step), key) == Lookup(tab, key)
  {
    hide IndexedRead, Extends, LastRecord, Lists;
  }

  /** Dropping the flushed memtable uncovers the records it left on disk. */
  lemma DropView(tab: Table, step: Step, key: string)
    requires PagesOk(tab) && IndexOk(tab) && step.Drop? && TabEnabled(tab, step)
    ensures Lookup(ApplyTab(tab, step), key) == Lookup(tab, key)
  {
    hide IndexedRead, Extends, LastRecord, Rebuild;
    assert key !in Unsettled(tab) && !InTodo(tab, key);
    SettledRead(tab, key);
  }

  lemma TabParts(base: nat, writes: seq<Write>, t: string, tab: Table)
    requires TabOk(base, writes, t, tab)
    ensures PagesOk(tab) && IndexOk(tab)
  {
    hide TxOk, MemOk, SyncedOk, PagesOk, IndexOk;
  }

  lemma SameMemory(tab: Table, step: Step)
    requires TabEnabled(tab, step) && !step.Rotate? && !step.Drop?
    ensures var tab' := ApplyTab(tab, step); tab'.active == tab.active && tab'.imm == tab.imm
  {
    hide Lists;
  }

  lemma TabStepView(base: nat, writes: seq<Write>, t: string, tab: Table, step: Step, key: string)
    requires TabOk(base, writes, t, tab) && TabEnabled(tab, step)
    ensures Lookup(ApplyTab(tab, step), key) == Lookup(tab, key)
  {
    hide TabOk, TabEnabled, ApplyTab, IndexedRead, PagesOk, IndexOk;
    TabStepOk(base, writes, t, tab, step);
    TabParts(base, writes, t, tab);
    TabParts(base, writes, t, ApplyTab(tab, step));
    if !step.Rotate? && !step.Drop? { SameMemory(tab, step); }
    if step.Rotate? {
      RotateView(tab, step, key);
    } else if step.Drop? {
      DropView(tab, step, key);
    } else if key !in tab.imm {
      DiskStepView(tab, step, key);
    }
  }

  /** A step changes what readers see only if it is a write, and then only for its key. */
  lemma StepView(s: State, step: Step, key: string)
    requires Inv(s) && Enabled(s, step)
    ensures View(Apply(s, step), key)
         == if step.Set? && step.key == key then Seen(step.text) else View(s, key)
  {
    hide TabOk, LogOk, IndexedRead, TableOf, TabEnabled, ApplyTab;
    var t := TableOf(key);
    if !step.Set? && !step.Writer? && !step.Checkpoint? && step.table == t {
      TabStepView(s.base, s.writes, t, s.tables[t], step, key);
    }
  }

  /** The text of the last write to `key` among `steps`. */
  function LastSet(steps: seq<Step>, key: string): Option<string>
    decreases |steps|
  {
    if steps == [] then None
    else
      var step := steps[|steps| - 1];
      if step.Set? && step.key == key then Some(step.text) else LastSet(steps[..|steps| - 1], key)
  }

  lemma {:induction false} LastSetFront(steps: seq<Step>, key: string)
    requires steps != []
    ensures LastSet(steps, key)
         == if LastSet(steps[1..], key).Some? then LastSet(steps[1..], key)
            else if steps[0].Set? && steps[0].key == key then Some(steps[0].text) else None
    decreases |steps|
  {
    if |steps| > 1 {
      LastSetFront(steps[..|steps| - 1], key);
      assert steps[..|steps| - 1][1..] == steps[1..][..|steps| - 2];
    } else {
      assert LastSet(steps[..0], key) == None;
    }
  }

  /** After any run a key reads as its last write, or as it read at the start if it was not written. */
  lemma {:induction false} RunView(s: State, steps: seq<Step>, key: string)
    requires Inv(s) && CanRun(s, steps)
    ensures View(Run(s, steps), key)
         == if LastSet(steps, key).Some? then Seen(LastSet(steps, key).value) else View(s, key)
    decreases |steps|
  {
    if steps != [] {
      StepInv(s, steps[0]);
      StepView(s, steps[0], key);
      RunView(Apply(s, steps[0]), steps[1..], key);
      LastSetFront(steps, key);
    }
  }
}
