/**
 Crash and restart: what the log and the pages together give back.

 A crash keeps every synced record and every log entry written, and an arbitrary part of the
 page writes issued since the last sync. Completion marks are flushed but not synced, so a crash
 may also lose some of them. Recovery rebuilds each index from the pages and replays the incomplete
 log entries, in id order, into the memtables.
 */
module Recovery {
  import opened Wrappers
  import opened Namespace
  import opened DiskPages
  import opened WalLog
  import opened Engine

  /** What a crash can leave of every table: the synced records, and any part of what came after. */
  ghost predicate CrashImage(s: State, disk: map<string, Pages>) {
    && disk.Keys == s.tables.Keys
    && forall t | t in disk :: Between(s.tables[t].synced, disk[t], s.tables[t].pages)
  }

  /** Completion marks of this run that a crash can lose: those of entries still in the log. */
  ghost predicate Losable(s: State, lost: set<nat>) {
    forall tx | tx in lost :: s.base <= tx && tx in s.wal.log && s.wal.log[tx].done
  }

  /** The log a restart finds. */
  function CrashLog(s: State, lost: set<nat>): Log<Write> {
    map tx | tx in s.wal.log :: if tx in lost then s.wal.log[tx].(done := false) else s.wal.log[tx]
  }

  type Memtables = map<string, map<string, string>>

  /** One record goes into the memtable its key names, made on first use. */
  function ReplayOne(mems: Memtables, w: Write): Memtables {
    var t := TableOf(w.key);
    mems[t := (if t in mems then mems[t] else map[])[w.key := w.text]]
  }

  function Replay(es: seq<(nat, Write)>): Memtables {
    if es == [] then map[] else ReplayOne(Replay(es[..|es| - 1]), es[|es| - 1].1)
  }

  /** `_recover_transactions`: replay every record the log yields, marking each one complete. */
  method RecoverTransactions(log: Log<Write>, n: nat) returns (mems: Memtables, log': Log<Write>)
    requires forall tx | tx in log :: tx < n
    ensures mems == Replay(Pending(log, n))
    ensures log'.Keys == log.Keys
    ensures forall tx | tx in log :: log'[tx] == Entry(log[tx].payload, true)
    ensures Pending(log', n) == []
  {
    hide ReplayOne, Pending;
    var es := Pending(log, n);
    mems, log' := map[], log;
    assert es[..0] == [];
    ghost var marked: set<nat> := {};
    for i := 0 to |es|
      invariant mems == Replay(es[..i])
      invariant marked == set j | 0 <= j < i :: es[j].0
      invariant log' == MarkDone(log, marked)
    {
      assert es[..i + 1][..i] == es[..i];
      mems := ReplayOne(mems, es[i].1);
      marked := marked + {es[i].0};
      log' := MarkDone(log', {es[i].0});
    }
    assert es[..|es|] == es;
    forall tx | tx in log ensures log'[tx] == Entry(log[tx].payload, true) {
      PendingMember(log, n, tx, log[tx].payload);
      if !log[tx].done {
        var j :| 0 <= j < |es| && es[j] == (tx, log[tx].payload);
        assert es[j].0 in marked;
      }
    }
    AllComplete(log', n);
  }

  lemma {:induction false} AllComplete<P>(log: Log<P>, n: nat)
    requires forall tx | tx in log :: log[tx].done
    ensures Pending(log, n) == []
  {
    if n > 0 { AllComplete(log, n - 1); }
  }

  /** What a restart replays: the incomplete entries of the log as the crash left it. */
  function Replayed(s: State, lost: set<nat>): seq<(nat, Write)> {
    Pending(CrashLog(s, lost), Written(s))
  }

  /** What a reader sees after a restart. */
  function RecoveredView(s: State, disk: map<string, Pages>, lost: set<nat>, key: string): Option<string> {
    var t, mems := TableOf(key), Replay(Replayed(s, lost));
    if t in mems && key in mems[t] then Seen(mems[t][key])
    else if t in disk then IndexedRead(disk[t], Rebuild(disk[t]), key)
    else None
  }

  /** The place of the last record of a key, or -1. */
  function LastOf(es: seq<(nat, Write)>, key: string): (i: int)
    ensures -1 <= i < |es|
    ensures forall j | i < j < |es| :: es[j].1.key != key
    ensures i >= 0 ==> es[i].1.key == key
  {
    if es == [] then -1
    else if es[|es| - 1].1.key == key then |es| - 1
    else LastOf(es[..|es| - 1], key)
  }

  /** A replayed key holds its last record; a key without one is in no memtable. */
  lemma {:induction false} ReplayLast(es: seq<(nat, Write)>, key: string)
    ensures var t, mems, i := TableOf(key), Replay(es), LastOf(es, key);
            && (i == -1 ==> t !in mems || key !in mems[t])
            && (i >= 0 ==> t in mems && key in mems[t] && mems[t][key] == es[i].1.text)
    decreases |es|
  {
    hide TableOf;
    if es != [] && es[|es| - 1].1.key != key {
      ReplayLast(es[..|es| - 1], key);
    }
  }

  /** The newest write of `key` that is replayed, or -1. */
  function NewestReplayed(s: State, lost: set<nat>, key: string): int {
    var es := Replayed(s, lost);
    var i := LastOf(es, key);
    if i >= 0 then es[i].0 else -1
  }

  /**
   The write whose value a restart gives to `key`: the newest replayed one, else the one on disk; -1
   for none of this run.
   */
  function RecoveredVersion(s: State, disk: map<string, Pages>, lost: set<nat>, key: string): int
    requires TableOf(key) in disk
  {
    var o, r := NewestReplayed(s, lost, key), LastRecord(disk[TableOf(key)], key);
    if o >= 0 then o else if r.Some? then r.value.ver else -1
  }

  /** A write of `key` is replayed if it is open or its mark is lost, and it has reached the log. */
  ghost predicate ToReplay(s: State, lost: set<nat>, key: string, tx: int) {
    tx < Written(s) && WroteKey(s.base, s.writes, tx, key) && tx >= 0 && (tx in Open(s) || tx in lost)
  }

  /** The log yields a write exactly if it is open or its mark is lost. */
  lemma ReplayedMember(s: State, lost: set<nat>, e: (nat, Write))
    requires Inv(s) && Losable(s, lost)
    ensures e in Replayed(s, lost) <==>
              s.base <= e.0 < Written(s) && e.0 < s.NextTx() && e.1 == s.writes[e.0 - s.base]
                  && (e.0 in Open(s) || e.0 in lost)
  {
    hide TabOk, Open, TableOf, Pending;
    PendingMember(CrashLog(s, lost), Written(s), e.0, e.1);
  }

  /** Recovery restores, for each key, its newest replayed log record, or else its newest record on disk. */
  lemma RecoveredKey(s: State, disk: map<string, Pages>, lost: set<nat>, key: string)
    requires Inv(s) && CrashImage(s, disk) && Losable(s, lost) && TableOf(key) in s.tables
    ensures var o := NewestReplayed(s, lost, key);
            && (forall y | ToReplay(s, lost, key, y) :: y <= o)
            && (o >= 0 ==> ToReplay(s, lost, key, o))
            && RecoveredView(s, disk, lost, key)
            == if o >= 0 then Seen(s.writes[o - s.base].text) else ScanRead(disk[TableOf(key)], key)
  {
    hide Inv, Open, TableOf, Between, Rebuild, LastRecord, ScanRead, IndexedRead, Seen, Pending, Replay, Replayed,
         Written, Losable;
    var es, o := Replayed(s, lost), NewestReplayed(s, lost, key);
    PendingAscends(CrashLog(s, lost), Written(s));
    assert Ascending(es, Written(s)) by { assert Replayed(s, lost) == es; ReplayedIs(s, lost); }
    ReplayLast(es, key);
    var i := LastOf(es, key);
    if i >= 0 {
      assert es[i] in es;
      ReplayedMember(s, lost, es[i]);
    } else {
      IndexedReadIsScan(disk[TableOf(key)], key);
    }
    forall y | ToReplay(s, lost, key, y) ensures y <= o {
      ReplayedMember(s, lost, (y, s.writes[y - s.base]));
      var j :| 0 <= j < |es| && es[j] == (y, s.writes[y - s.base]);
      assert j <= i;
    }
  }

  lemma ReplayedIs(s: State, lost: set<nat>)
    ensures Replayed(s, lost) == Pending(CrashLog(s, lost), Written(s))
  {}

  lemma InvTable(s: State, t: string)
    requires Inv(s) && t in s.tables
    ensures TabOk(s.base, s.writes, t, s.tables[t])
    ensures PagesOk(s.tables[t]) && IndexOk(s.tables[t])
  {
    hide LogOk, MemOk, TxOk, IndexOk, PagesOk, SyncedOk;
  }

  /** A write of the history, with the table it went to. */
  lemma WriteTable(s: State, tx: nat) returns (t: string, tab: Table)
    requires Inv(s) && s.base <= tx < s.NextTx()
    ensures t == TableOf(s.writes[tx - s.base].key) && t in s.tables && tab == s.tables[t]
    ensures TabOk(s.base, s.writes, t, tab) && WroteTable(s.base, s.writes, tx, t)
    ensures PagesOk(tab) && SyncedOk(s.base, s.writes, t, tab)
    ensures tx in Open(s) <==> tx in Unmarked(tab)
  {
    hide LogOk, TableOf, MemOk, TxOk, IndexOk, PagesOk, SyncedOk;
    assert s.writes[tx - s.base] in s.writes;
    t := TableOf(s.writes[tx - s.base].key);
    tab := s.tables[t];
  }

  /** A write on disk in the log is incomplete exactly while it is open. */
  lemma OpenIsLogged(s: State, tx: nat)
    requires Inv(s) && s.base <= tx < Written(s)
    ensures tx < s.NextTx()
    ensures tx in Open(s) ==> tx in s.wal.log && s.wal.log[tx] == Entry(s.writes[tx - s.base], false)
  {
    hide TabOk, Open;
  }

  /** Every write that reached the log is still yielded by it, or covered by synced pages. */
  lemma Durable(s: State, tx: nat)
    requires Inv(s) && s.base <= tx < Written(s)
    ensures var w := s.writes[tx - s.base];
            (tx, w) in Pending(s.wal.log, Written(s)) || Covered(s.tables[TableOf(w.key)].synced, w.key, tx)
  {
    hide Inv, TabOk, SyncedOk, PagesOk, IndexOk, Covered, TableOf, Open, Pending, LogOk, WroteTable;
    OpenIsLogged(s, tx);
    var t, tab := WriteTable(s, tx);
    PendingMember(s.wal.log, Written(s), tx, s.writes[tx - s.base]);
    if tx !in Open(s) {
      assert Covered(tab.synced, s.writes[tx - s.base].key, tx) by { SyncedCovers(s.base, s.writes, t, tab, tx); }
    }
  }

  lemma SyncedCovers(base: nat, writes: seq<Write>, t: string, tab: Table, tx: nat)
    requires SyncedOk(base, writes, t, tab) && WroteTable(base, writes, tx, t) && tx !in Unmarked(tab)
    ensures Covered(tab.synced, writes[tx - base].key, tx)
  {}

  /** A crash image covers every marked write. */
  lemma CrashCovers(s: State, disk: map<string, Pages>, tx: nat)
    requires Inv(s) && CrashImage(s, disk) && s.base <= tx < s.NextTx() && tx !in Open(s)
    ensures var key := s.writes[tx - s.base].key;
            TableOf(key) in disk && Covered(disk[TableOf(key)], key, tx)
  {
    hide Inv, TabOk, SyncedOk, TableOf, Open, Covered, Between, Extends, Recs, LastRecord;
    var t, tab := WriteTable(s, tx);
    BetweenExtends(tab.synced, disk[t], tab.pages, Recs(tab.imm));
    if tab.flush == Marked {
      BetweenSame(tab.pages, disk[t]);
      SyncedCovers(s.base, s.writes, t, tab, tx);
    } else {
      CoverageGrows(s.base, s.writes, t, tab, disk[t], tx);
    }
  }

  lemma BetweenSame(pages: Pages, c: Pages)
    requires Between(pages, c, pages)
    ensures c == pages
  {
    assert forall p | 0 <= p < |pages| :: c[p] == pages[p];
  }

  /** Whatever record of a key survives on disk was written by the run or was there before it. */
  lemma SurvivorGenuine(s: State, disk: map<string, Pages>, key: string)
    requires Inv(s) && CrashImage(s, disk) && TableOf(key) in s.tables
    ensures var r := LastRecord(disk[TableOf(key)], key);
            r.Some? ==> r.value.ver == -1 || Wrote(s.base, s.writes, r.value.ver, key, r.value.text)
  {
    var t := TableOf(key);
    var tab := s.tables[t];
    assert TabOk(s.base, s.writes, t, tab);
    BetweenExtends(tab.synced, disk[t], tab.pages, Recs(tab.imm));
    LastExtends(tab.synced, disk[t], key, Recs(tab.imm));
  }

  /** Marks follow the order of writes: a marked write to a key is older than every open one. */
  lemma MarkedBeforeOpen(s: State, key: string, tx: nat, open: nat)
    requires Inv(s) && WroteKey(s.base, s.writes, tx, key) && WroteKey(s.base, s.writes, open, key)
    requires tx !in Open(s) && open in Open(s)
    ensures tx < open
  {
    hide Inv, TableOf, Open, PagesOk, IndexOk, SyncedOk, MemOk;
    var t, tab := WriteTable(s, tx);
    var t', tab' := WriteTable(s, open);
  }

  // ---------------------------------------------------------------------------------------
  // Lost marks

  /** The newest write of `key` that reached the log. */
  ghost predicate NewestLogged(s: State, key: string, n: nat) {
    && n < Written(s) && WroteKey(s.base, s.writes, n, key)
    && forall y | y < Written(s) && WroteKey(s.base, s.writes, y, key) :: y <= n
  }

  /**
   If a mark of `key` is lost, then its newest logged write is replayed too: it is open, or its mark
   is lost as well.
   */
  ghost predicate MarksFit(s: State, lost: set<nat>, key: string) {
    forall y, n | y in lost && WroteKey(s.base, s.writes, y, key) && NewestLogged(s, key, n) ::
        n in Open(s) || n in lost
  }

  lemma LostIsLogged(s: State, lost: set<nat>, y: nat)
    requires Inv(s) && Losable(s, lost) && y in lost
    ensures s.base <= y < Written(s) && y < s.NextTx() && y !in Open(s)
  {
    hide TabOk, Open;
  }

  /** With fitting marks the newest replayed write is the newest logged one; otherwise it is older than that. */
  lemma ReplayedIsNewest(s: State, disk: map<string, Pages>, lost: set<nat>, key: string, n: nat)
    requires Inv(s) && CrashImage(s, disk) && Losable(s, lost) && TableOf(key) in s.tables && NewestLogged(s, key, n)
    ensures var o := NewestReplayed(s, lost, key);
            if MarksFit(s, lost, key) then o == n || (o < 0 && n !in Open(s) && n !in lost) else 0 <= o < n
  {
    hide Inv, Open, TableOf, CrashImage, Losable, Written, NewestReplayed, RecoveredView, Seen, ScanRead;
    var o := NewestReplayed(s, lost, key);
    RecoveredKey(s, disk, lost, key);
    forall y | y in lost ensures s.base <= y < Written(s) && y !in Open(s) { LostIsLogged(s, lost, y); }
    if o >= 0 && o in Open(s) && n !in Open(s) {
      MarkedBeforeOpen(s, key, n, o);
    }
    assert ToReplay(s, lost, key, n) <==> n in Open(s) || n in lost;
    if !MarksFit(s, lost, key) {
      var y, m :| y in lost && WroteKey(s.base, s.writes, y, key) && NewestLogged(s, key, m) && m !in Open(s)
          && m !in lost;
      assert m == n && ToReplay(s, lost, key, y);
    }
  }

  /**
   Exactly which lost marks do harm. After a crash a key comes back with its newest logged write, or a newer one, if
   and only if no mark of the key is lost or the newest logged write is replayed as well. A lost mark of an older
   write, beside a kept mark of a newer one, brings the older value back.
   */
  lemma LostMarksExactly(s: State, disk: map<string, Pages>, lost: set<nat>, key: string, n: nat)
    requires Inv(s) && CrashImage(s, disk) && Losable(s, lost) && TableOf(key) in s.tables && NewestLogged(s, key, n)
    ensures RecoveredVersion(s, disk, lost, key) >= n <==> MarksFit(s, lost, key)
  {
    hide Inv, Open, TableOf, CrashImage, Losable, Written, NewestReplayed, MarksFit, LastRecord;
    ImageTables(s, disk);
    ReplayedIsNewest(s, disk, lost, key, n);
    if NewestReplayed(s, lost, key) < 0 && n !in Open(s) {
      LoggedIsWritten(s, n);
      CrashCovers(s, disk, n);
    }
  }

  lemma ImageTables(s: State, disk: map<string, Pages>)
    requires CrashImage(s, disk)
    ensures disk.Keys == s.tables.Keys
  {}

  lemma LoggedIsWritten(s: State, n: nat)
    requires Inv(s) && n < Written(s)
    ensures n < s.NextTx()
  {
    hide TabOk, Open;
  }

  /** What the recovered version is the version of. */
  lemma VersionIsView(s: State, disk: map<string, Pages>, lost: set<nat>, key: string)
    requires Inv(s) && CrashImage(s, disk) && Losable(s, lost) && TableOf(key) in s.tables
    ensures var v := RecoveredVersion(s, disk, lost, key);
            v >= 0 ==> WroteKey(s.base, s.writes, v, key)
                       && RecoveredView(s, disk, lost, key) == Seen(s.writes[v - s.base].text)
  {
    hide Inv, Open, TableOf, CrashImage, Losable, Written, NewestReplayed, LastRecord, RecoveredView, Seen;
    ImageTables(s, disk);
    RecoveredKey(s, disk, lost, key);
    SurvivorGenuine(s, disk, key);
  }

  // ---------------------------------------------------------------------------------------
  // What recovery promises

  /** After the crash `key` reads as write `tx` of it or as a later one. */
  ghost predicate ReadsAtLeast(s: State, disk: map<string, Pages>, lost: set<nat>, key: string, tx: nat) {
    exists j :: tx <= j && WroteKey(s.base, s.writes, j, key)
                && RecoveredView(s, disk, lost, key) == Seen(s.writes[j - s.base].text)
  }

  lemma {:induction false} NewestExists(s: State, key: string, tx: nat, above: nat) returns (n: nat)
    requires tx < Written(s) && WroteKey(s.base, s.writes, tx, key) && tx < above
    requires forall y | y < Written(s) && WroteKey(s.base, s.writes, y, key) :: y < above
    ensures tx <= n && NewestLogged(s, key, n)
    decreases above
  {
    hide Written;
    var y := above - 1;
    if y < Written(s) && WroteKey(s.base, s.writes, y, key) {
      n := y;
    } else {
      n := NewestExists(s, key, tx, y);
    }
  }

  /**
   Crash recovery never loses a logged write: a key whose write reached the log comes back with the
   value of that write or of a later one, whatever the crash left of unsynced pages.
   */
  lemma RecoveryIsRecent(s: State, disk: map<string, Pages>, lost: set<nat>, key: string, tx: nat)
    requires Inv(s) && CrashImage(s, disk) && Losable(s, lost) && MarksFit(s, lost, key)
    requires tx < Written(s) && WroteKey(s.base, s.writes, tx, key)
    ensures ReadsAtLeast(s, disk, lost, key, tx)
  {
    hide Inv, Open, TableOf, RecoveredView, CrashImage, LastRecord, Written, Seen, Losable, MarksFit, RecoveredVersion;
    LoggedIsWritten(s, tx);
    ImageTables(s, disk);
    var t, tab := WriteTable(s, tx);
    var n := NewestExists(s, key, tx, Written(s));
    LostMarksExactly(s, disk, lost, key, n);
    VersionIsView(s, disk, lost, key);
    assert RecoveredVersion(s, disk, lost, key) >= tx;
  }

  /** The newest write of a key is what readers see. */
  lemma ViewIsNewest(s: State, key: string, n: nat)
    requires Inv(s) && WroteKey(s.base, s.writes, n, key) && TableOf(key) in s.tables
    requires forall y | WroteKey(s.base, s.writes, y, key) :: y <= n
    ensures View(s, key) == Seen(s.writes[n - s.base].text)
  {
    hide Inv, TabOk, PagesOk, SyncedOk, IndexOk, Unmarked, Open, TableOf, Lookup, Seen, LastRecord;
    var t := TableOf(key);
    var tab := s.tables[t];
    InvTable(s, t);
    var t', tab' := WriteTable(s, n);
    if key in tab.active {
      NewestInMemory(s, key, tab.active[key].ver, n);
    } else if key in tab.imm && tab.flush != Marked {
      NewestInMemory(s, key, tab.imm[key].ver, n);
    } else {
      NoneOpen(s, key, n);
      SyncedImage(s);
      var disk := map t | t in s.tables :: s.tables[t].synced;
      CrashCovers(s, disk, n);
      SurvivorGenuine(s, disk, key);
      QuietKey(s, disk, key);
      assert WroteKey(s.base, s.writes, LastRecord(disk[t], key).value.ver, key);
      LastText(disk[t], key);
    }
  }

  lemma LastText(pages: Pages, key: string)
    ensures LastRecord(pages, key).Some? ==> ScanRead(pages, key) == Seen(LastRecord(pages, key).value.text)
  {}

  /** Nothing but the synced pages is one of the things a crash can leave. */
  lemma SyncedImage(s: State)
    requires Inv(s)
    ensures CrashImage(s, map t | t in s.tables :: s.tables[t].synced)
  {
    hide LogOk, Open, IndexOk, MemOk, TxOk, SyncedOk, LastRecord, Rebuild;
  }

  /** The version a memtable holds is the newest write of its key. */
  lemma NewestInMemory(s: State, key: string, ver: nat, n: nat)
    requires Inv(s) && TableOf(key) in s.tables && WroteKey(s.base, s.writes, n, key)
    requires var tab := s.tables[TableOf(key)];
             if key in tab.active then ver == tab.active[key].ver
             else key in tab.imm && tab.flush != Marked && ver == tab.imm[key].ver
    requires forall y | WroteKey(s.base, s.writes, y, key) :: y <= n
    ensures n == ver && View(s, key) == Seen(s.writes[n - s.base].text)
  {
    hide Inv, TabOk, PagesOk, SyncedOk, IndexOk, Unmarked, Open, TableOf, Lookup, Seen;
    InvTable(s, TableOf(key));
    TabNewest(s.base, s.writes, TableOf(key), s.tables[TableOf(key)], key, ver);
    var t, tab := WriteTable(s, ver);
    var t', tab' := WriteTable(s, n);
    if n !in Open(s) {
      MarkedBeforeOpen(s, key, n, ver);
    }
  }

  /** The version a memtable holds is the newest unmarked write of its key. */
  lemma TabNewest(base: nat, writes: seq<Write>, t: string, tab: Table, key: string, ver: nat)
    requires TabOk(base, writes, t, tab)
    requires if key in tab.active then ver == tab.active[key].ver
             else key in tab.imm && tab.flush != Marked && ver == tab.imm[key].ver
    ensures ver in Unmarked(tab) && WroteKey(base, writes, ver, key)
    ensures Lookup(tab, key) == Seen(writes[ver - base].text)
    ensures forall y | y in Unmarked(tab) && WroteKey(base, writes, y, key) :: y <= ver
  {
    hide PagesOk, IndexOk, SyncedOk, TableOf;
  }

  lemma NoneOpen(s: State, key: string, n: nat)
    requires Inv(s) && TableOf(key) in s.tables && WroteKey(s.base, s.writes, n, key)
    requires var tab := s.tables[TableOf(key)]; key !in tab.active && (key in tab.imm ==> tab.flush == Marked)
    ensures n !in Open(s)
  {
    hide Inv, Open, PagesOk, IndexOk, SyncedOk, TableOf;
    var t, tab := WriteTable(s, n);
  }

  /** A key with no open write reads from disk, and no crash disturbs its record there. */
  lemma QuietKey(s: State, disk: map<string, Pages>, key: string)
    requires Inv(s) && CrashImage(s, disk) && TableOf(key) in s.tables
    requires var tab := s.tables[TableOf(key)]; key !in tab.active && (key in tab.imm ==> tab.flush == Marked)
    ensures ScanRead(disk[TableOf(key)], key) == View(s, key)
  {
    var t := TableOf(key);
    var tab := s.tables[t];
    assert TabOk(s.base, s.writes, t, tab);
    if tab.flush == Marked {
      BetweenSame(tab.pages, disk[t]);
    } else {
      BetweenExtends(tab.synced, disk[t], tab.pages, Recs(tab.imm));
      LastExtends(tab.synced, disk[t], key, Recs(tab.imm));
      LastExtends(tab.synced, tab.pages, key, Recs(tab.imm));
    }
    SettledRead(tab, key);
    assert key in tab.imm ==> !InTodo(tab, key);
  }

  /** With every buffered record written to the log, recovery restores exactly what readers saw. */
  lemma RecoveryIsExact(s: State, disk: map<string, Pages>, lost: set<nat>, key: string)
    requires Inv(s) && CrashImage(s, disk) && Losable(s, lost) && MarksFit(s, lost, key) && s.wal.buffer == []
    ensures RecoveredView(s, disk, lost, key) == View(s, key)
  {
    hide Inv, Open, RecoveredView, CrashImage, View, Seen, ScanRead, Losable, MarksFit, TableOf, NewestReplayed;
    var t := TableOf(key);
    if t !in s.tables {
      UnknownTable(s, disk, lost, key);
    } else {
      var o := NewestReplayed(s, lost, key);
      RecoveredKey(s, disk, lost, key);
      if o >= 0 {
        var n := NewestExists(s, key, o, Written(s));
        ReplayedIsNewest(s, disk, lost, key, n);
        ViewIsNewest(s, key, n);
      } else {
        QuietUnlessOpen(s, disk, lost, key);
      }
    }
  }

  /** A key none of whose writes is replayed reads from disk. */
  lemma QuietUnlessOpen(s: State, disk: map<string, Pages>, lost: set<nat>, key: string)
    requires Inv(s) && CrashImage(s, disk) && TableOf(key) in s.tables && s.wal.buffer == []
    requires forall y | ToReplay(s, lost, key, y) :: y < 0
    ensures ScanRead(disk[TableOf(key)], key) == View(s, key)
  {
    hide Inv, TabOk, PagesOk, SyncedOk, IndexOk, Unmarked, Open, TableOf, CrashImage, ScanRead, View, Lookup, Seen;
    var t := TableOf(key);
    var tab := s.tables[t];
    InvTable(s, t);
    if key in tab.active {
      OpenVersion(s, lost, key, tab.active[key].ver);
    } else if key in tab.imm && tab.flush != Marked {
      OpenVersion(s, lost, key, tab.imm[key].ver);
    } else {
      QuietKey(s, disk, key);
    }
  }

  lemma OpenVersion(s: State, lost: set<nat>, key: string, ver: nat)
    requires Inv(s) && TableOf(key) in s.tables && s.wal.buffer == []
    requires var tab := s.tables[TableOf(key)];
             if key in tab.active then ver == tab.active[key].ver
             else key in tab.imm && tab.flush != Marked && ver == tab.imm[key].ver
    ensures ToReplay(s, lost, key, ver)
  {
    hide Inv, TabOk, PagesOk, SyncedOk, IndexOk, Unmarked, Open, TableOf, Lookup, Seen;
    InvTable(s, TableOf(key));
    TabNewest(s.base, s.writes, TableOf(key), s.tables[TableOf(key)], key, ver);
    var t, tab := WriteTable(s, ver);
  }

  /** Keys of tables never opened are nowhere. */
  lemma UnknownTable(s: State, disk: map<string, Pages>, lost: set<nat>, key: string)
    requires Inv(s) && CrashImage(s, disk) && Losable(s, lost) && TableOf(key) !in s.tables
    ensures RecoveredView(s, disk, lost, key) == View(s, key)
  {
    hide Open, Replayed, Losable, Replay, TabOk, LogOk, TableOf, CrashLog;
    var es := Replayed(s, lost);
    forall e | e in es ensures TableOf(e.1.key) in s.tables {
      ReplayedMember(s, lost, e);
      assert e.1 in s.writes;
    }
    ReplayTables(es, s.tables.Keys);
  }

  lemma {:induction false} ReplayTables(es: seq<(nat, Write)>, tables: set<string>)
    requires forall e | e in es :: TableOf(e.1.key) in tables
    ensures Replay(es).Keys <= tables
    decreases |es|
  {
    if es != [] { ReplayTables(es[..|es| - 1], tables); }
  }

  // ---------------------------------------------------------------------------------------
  // Whole runs

  /** Archiving removes nothing a reader of the log would see. */
  lemma ArchiveKeepsPending(wal: Wal, file: nat, capacity: nat, n: nat)
    requires capacity > 0
    requires forall tx: nat | tx in wal.log && tx / capacity == file :: wal.log[tx].done
    ensures Pending(Archive(wal, file, capacity).log, n) == Pending(wal.log, n)
  {
    PendingSame(Archive(wal, file, capacity).log, wal.log, n);
  }

  /** A table at rest has the index a restart would build. */
  lemma IndexAtRest(s: State, t: string)
    requires Inv(s) && t in s.tables && s.tables[t].flush == Idle
    ensures s.tables[t].index == Rebuild(s.tables[t].pages)
  {
    InvTable(s, t);
    hide Inv, TabOk, PagesOk, Rebuild;
    var index, want := s.tables[t].index, Rebuild(s.tables[t].pages);
    forall k ensures (k in index <==> k in want) && (k in index ==> index[k] == want[k]) {
      assert SameEntry(index, want, k);
    }
  }

  /**
   The whole story, over any run from a start with nothing to recover: readers see the last write of each key. The
   process can stop between any two steps, or after the writer has put any `m` of the buffered records into the files.
   After the crash each key whose write reached the log reads as that write or a later one, unless an older mark of
   the key is lost and a newer one kept; and if the whole buffer had been written, every key reads exactly as before.
   */
  lemma CrashSafety(s: State, steps: seq<Step>, m: nat, disk: map<string, Pages>, lost: set<nat>, key: string)
    requires Init(s) && CanRun(s, steps) && m <= |Run(s, steps).wal.buffer|
    requires var e := Run(s, steps); var c := e.(wal := WritePart(e.wal, m));
             CrashImage(c, disk) && Losable(c, lost) && MarksFit(c, lost, key)
    ensures var e := Run(s, steps); var c := e.(wal := WritePart(e.wal, m));
            && View(e, key) == (if LastSet(steps, key).Some? then Seen(LastSet(steps, key).value) else View(s, key))
            && (forall tx: nat | tx < Written(c) && WroteKey(c.base, c.writes, tx, key) ::
                  ReadsAtLeast(c, disk, lost, key, tx))
            && (m == |e.wal.buffer| ==> RecoveredView(c, disk, lost, key) == View(e, key))
  {
    InitInv(s);
    RunInv(s, steps);
    RunView(s, steps, key);
    var e := Run(s, steps);
    var c := e.(wal := WritePart(e.wal, m));
    PartInv(e, m);
    assert m == |e.wal.buffer| ==> c.wal.buffer == [];
    assert View(c, key) == View(e, key);
    hide Inv, Init, CrashImage, View, RecoveredView, Run, CanRun, LastSet, Seen, WroteKey, Written, ReadsAtLeast,
         Losable, MarksFit, WritePart;
    forall tx: nat | tx < Written(c) && WroteKey(c.base, c.writes, tx, key)
      ensures ReadsAtLeast(c, disk, lost, key, tx)
    {
      RecoveryIsRecent(c, disk, lost, key, tx);
    }
    if m == |e.wal.buffer| {
      RecoveryIsExact(c, disk, lost, key);
    }
  }
}
