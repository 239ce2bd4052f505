/**
 A run after which one lost completion mark brings an older value back.

 Two writes of one key are logged, flushed together and both marked complete. The marks are flushed but not
 synced; the crash keeps the newer one and loses the older.
 */
module LostMark {
  import opened Wrappers
  import opened Namespace
  import opened DiskPages
  import opened WalLog
  import opened Engine
  import opened Recovery

  const KEY := "k"
  const TABLE := "default"
  const OLDER := Write(KEY, "1")
  const NEWER := Write(KEY, "2")
  const PLACED := Rec(KEY, "2", 1)
  const MEM: Memtable := map[KEY := Cell("2", 1)]

  /** The one table while its memtable of both writes is flushed. */
  function Flushing(pages: Pages, synced: Pages, index: Index, flush: Flush): Table {
    Table(map[], {}, MEM, {0, 1}, pages, synced, index, flush)
  }

  function With(wal: Wal, tab: Table): State {
    State(0, [OLDER, NEWER], wal, map[TABLE := tab])
  }

  function Logged(done: bool): Log<Write> {
    map[0 := Entry(OLDER, done), 1 := Entry(NEWER, done)]
  }

  function Start(): State {
    State(0, [], Wal([], {}, map[]), map[TABLE := Table(map[], {}, map[], {}, [], [], map[], Idle)])
  }

  function Story(): seq<Step> {
    [Set(KEY, "1"), Set(KEY, "2"), Writer, Rotate(TABLE, [PLACED]), NewPage(TABLE), Place(TABLE), BeginIndexing(TABLE),
     Update(TABLE, KEY), Sync(TABLE), Mark(TABLE)]
  }

  const ONE_PAGE: Pages := [[Some(PLACED)]]
  const AT: Index := map[KEY := (0, 0)]

  /** The state before step `k`. */
  function StateAt(k: nat): State
    requires k <= 10
  {
    var written := Wal([], {}, Logged(false));
    if k == 0 then Start()
    else if k == 1 then
      State(0, [OLDER], Wal([(0, OLDER)], {}, map[]),
            map[TABLE := Table(map[KEY := Cell("1", 0)], {0}, map[], {}, [], [], map[], Idle)])
    else if k == 2 then
      With(Wal([(0, OLDER), (1, NEWER)], {}, map[]), Table(MEM, {0, 1}, map[], {}, [], [], map[], Idle))
    else if k == 3 then With(written, Table(MEM, {0, 1}, map[], {}, [], [], map[], Idle))
    else if k == 4 then With(written, Flushing([], [], map[], Filling([PLACED], {}, map[])))
    else if k == 5 then With(written, Flushing([[]], [], map[], Filling([PLACED], {}, map[])))
    else if k == 6 then With(written, Flushing(ONE_PAGE, [], map[], Filling([], {}, AT)))
    else if k == 7 then With(written, Flushing(ONE_PAGE, [], map[], Indexing({}, AT)))
    else if k == 8 then With(written, Flushing(ONE_PAGE, [], AT, Indexing({}, map[])))
    else if k == 9 then With(written, Flushing(ONE_PAGE, ONE_PAGE, AT, Synced))
    else With(Wal([], {0, 1}, Logged(true)), Flushing(ONE_PAGE, ONE_PAGE, AT, Marked))
  }

  lemma KeyTable()
    ensures TableOf(KEY) == TABLE
  {
    assert KEY[1..] == "";
  }

  lemma WriteSteps(k: nat)
    requires k <= 1
    ensures Enabled(StateAt(k), Story()[k]) && Apply(StateAt(k), Story()[k]) == StateAt(k + 1)
  {
    hide TableOf;
    KeyTable();
    var a, b: Memtable := map[KEY := Cell("1", 0)], map[];
    assert a[KEY := Cell("2", 1)] == MEM && b[KEY := Cell("1", 0)] == a;
    assert [OLDER] + [NEWER] == [OLDER, NEWER] && {0} + {1} == {0, 1};
    assert [(0, OLDER)] + [(1, NEWER)] == [(0, OLDER), (1, NEWER)];
    if k == 0 {
      var s, t := Apply(StateAt(0), Story()[0]), StateAt(1);
      assert s.writes == t.writes == [OLDER] && s.wal == t.wal;
      assert s.tables[TABLE].activeTx == {0};
      assert s.tables == t.tables;
    } else {
      assert Apply(StateAt(1), Story()[1]).tables == StateAt(2).tables;
      assert Apply(StateAt(1), Story()[1]) == StateAt(2);
    }
  }

  lemma LogStep()
    ensures Enabled(StateAt(2), Story()[2]) && Apply(StateAt(2), Story()[2]) == StateAt(3)
  {
    hide TableOf;
    assert Texts([(0, OLDER), (1, NEWER)]) == [OLDER, NEWER];
    assert Store(map[], 0, [OLDER, NEWER], {}) == Logged(false);
  }

  lemma RotateStep()
    ensures Enabled(StateAt(3), Story()[3]) && Apply(StateAt(3), Story()[3]) == StateAt(4)
  {
    hide TableOf;
    assert PLACED in [PLACED] && Lists([PLACED], MEM) by { assert KEY in MEM && PLACED in Recs(MEM); }
  }

  lemma NewPageStep()
    ensures Enabled(StateAt(4), Story()[4]) && Apply(StateAt(4), Story()[4]) == StateAt(5)
  {
    hide TableOf;
    var page: Pages := [[]];
    assert AddPage([]) == page;
  }

  lemma PlaceStep()
    ensures Enabled(StateAt(5), Story()[5]) && Apply(StateAt(5), Story()[5]) == StateAt(6)
  {
    hide TableOf;
    var page: Pages := [[]];
    assert page[0] + [Some(PLACED)] == [Some(PLACED)];
    assert Append(page, PLACED) == ONE_PAGE;
    assert "2"[0] != TOMBSTONE[0] && [PLACED][1..] == [];
  }

  lemma IndexSteps(k: nat)
    requires 6 <= k <= 8
    ensures Enabled(StateAt(k), Story()[k]) && Apply(StateAt(k), Story()[k]) == StateAt(k + 1)
  {
    hide TableOf;
    assert KEY in AT && AT - {KEY} == map[];
  }

  lemma MarkedLog()
    ensures MarkDone(Logged(false), {0, 1}) == Logged(true)
  {}

  lemma MarkedStep()
    ensures Enabled(StateAt(9), Story()[9]) && Apply(StateAt(9), Story()[9]) == StateAt(10)
  {
    hide TableOf, MarkDone, Logged;
    MarkedLog();
  }

  lemma OneStep(k: nat)
    requires k < 10
    ensures |Story()| == 10 && Enabled(StateAt(k), Story()[k]) && Apply(StateAt(k), Story()[k]) == StateAt(k + 1)
  {
    hide StateAt, Enabled, Apply;
    if k <= 1 { WriteSteps(k); }
    if k == 2 { LogStep(); }
    if k == 3 { RotateStep(); }
    if k == 4 { NewPageStep(); }
    if k == 5 { PlaceStep(); }
    if 6 <= k <= 8 { IndexSteps(k); }
    if k == 9 { MarkedStep(); }
  }

  /** The run from step `k` on. */
  lemma {:induction false} RunsFrom(k: nat)
    requires k <= 10
    ensures CanRun(StateAt(k), Story()[k..]) && Run(StateAt(k), Story()[k..]) == StateAt(10)
    decreases 10 - k
  {
    hide StateAt, Enabled, Apply, Story;
    StepCount();
    if k < 10 {
      OneStep(k);
      RunsFrom(k + 1);
      assert Story()[k..][0] == Story()[k] && Story()[k..][1..] == Story()[k + 1..];
    } else {
      assert Story()[10..] == [];
    }
  }

  lemma StepCount()
    ensures |Story()| == 10
  {}

  /**
   After this run the key reads as the newer write; a crash that loses the older mark alone brings
   the older one back.
   */
  lemma StaleAfterLostMark()
    ensures Init(Start()) && CanRun(Start(), Story())
    ensures var e, disk, lost := Run(Start(), Story()), map[TABLE := ONE_PAGE], {0};
            && CrashImage(e, disk) && Losable(e, lost) && !MarksFit(e, lost, KEY)
            && View(e, KEY) == Some("2") && RecoveredView(e, disk, lost, KEY) == Some("1")
  {
    hide Run, CanRun, Story, TableOf, MarksFit, RecoveredView, Inv, Init;
    StepCount();
    RunsFrom(0);
    assert Story()[0..] == Story();
    KeyTable();
    StartInit();
    InitInv(Start());
    RunInv(Start(), Story());
    var e, disk, lost := StateAt(10), map[TABLE := ONE_PAGE], {0};
    EndImage();
    NewestIsSecond();
    LostMarksExactly(e, disk, lost, KEY, 1);
    OlderReplayed();
  }

  lemma StartInit()
    ensures Init(Start())
  {}

  lemma EndImage()
    ensures CrashImage(StateAt(10), map[TABLE := ONE_PAGE]) && Losable(StateAt(10), {0})
    ensures View(StateAt(10), KEY) == Some("2")
  {
    hide TableOf;
    KeyTable();
  }

  lemma NewestIsSecond()
    ensures NewestLogged(StateAt(10), KEY, 1)
  {}

  /** The log that is left yields the older write, and nothing after it. */
  lemma OlderReplayed()
    ensures RecoveredVersion(StateAt(10), map[TABLE := ONE_PAGE], {0}, KEY) == 0
    ensures RecoveredView(StateAt(10), map[TABLE := ONE_PAGE], {0}, KEY) == Some("1")
  {
    hide TableOf, Replayed, Replay, LastOf, StateAt, LastRecord;
    KeyTable();
    OnlyOlder();
    ReplaysToOlder();
    assert "1"[0] != TOMBSTONE[0];
  }

  lemma OnlyOlder()
    ensures Replayed(StateAt(10), {0}) == [(0, OLDER)]
  {
    hide *;
    LogLeft();
    ReplayedIs(StateAt(10), {0});
    PendingLeft();
  }

  /** Without the lost mark the older write is open again; the newer one keeps its mark. */
  lemma LogLeft()
    ensures CrashLog(StateAt(10), {0}) == map[0 := Entry(OLDER, false), 1 := Entry(NEWER, true)]
    ensures Written(StateAt(10)) == 2
  {}

  lemma PendingLeft()
    ensures Pending(map[0 := Entry(OLDER, false), 1 := Entry(NEWER, true)], 2) == [(0, OLDER)]
  {
    var log := map[0 := Entry(OLDER, false), 1 := Entry(NEWER, true)];
    assert Pending(log, 0) == [];
    assert Pending(log, 1) == [(0, OLDER)];
  }

  lemma ReplaysToOlder()
    ensures Replay([(0, OLDER)]) == map[TABLE := map[KEY := "1"]] && LastOf([(0, OLDER)], KEY) == 0
  {
    hide TableOf;
    KeyTable();
    assert [(0, OLDER)][..0] == [];
    assert Replay([]) == map[];
  }
}
