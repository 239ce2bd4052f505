/** `flush_memtable_to_disk` from the memtable's entries to the new disk index, and what it does to reads. */
module MemtableFlush {
  import opened Wrappers
  import opened Bytes
  import opened Records
  import opened TableFile
  import opened TableFlush
  import opened CrashPages
  import BTree
  import BTreeSpec
  import StringOrder
  import D = DiskPages

  lemma {:induction false} LastInConcat(a: D.Page, b: D.Page, key: string)
    ensures D.LastInPage(a + b, key)
            == if D.LastInPage(b, key).Some? then D.LastInPage(b, key) else D.LastInPage(a, key)
    decreases |b|
  {
    if b == [] {
      assert a + b == a;
    } else {
      assert (a + b)[..|a + b| - 1] == a + b[..|b| - 1];
      LastInConcat(a, b[..|b| - 1], key);
    }
  }

  /** The backward scan finds the last record of the table as one list of slots. */
  lemma {:induction false} LastOfFlat(pages: D.Pages, key: string)
    ensures D.LastRecord(pages, key) == D.LastInPage(D.Flat(pages), key)
    decreases |pages|
  {
    if pages != [] {
      LastOfFlat(pages[..|pages| - 1], key);
      LastInConcat(D.Flat(pages[..|pages| - 1]), pages[|pages| - 1], key);
    }
  }

  ghost predicate HasKey(records: seq<(string, Data)>, key: string) {
    exists i :: 0 <= i < |records| && records[i].0 == key
  }

  /** The record of some entry of the key. */
  ghost predicate RecOf(utf8: Utf8, records: seq<(string, Data)>, key: string, rec: D.Rec)
    requires GoodEntries(utf8, records)
  {
    exists i :: 0 <= i < |records| && records[i].0 == key && rec == EntryRec(utf8, records[i])
  }

  lemma KeyInFront(utf8: Utf8, records: seq<(string, Data)>, n: nat, key: string)
    requires GoodEntries(utf8, records) && n + 1 == |records|
    ensures GoodEntries(utf8, records[..n])
    ensures records[n].0 != key ==> (HasKey(records, key) <==> HasKey(records[..n], key))
    ensures forall rec :: RecOf(utf8, records[..n], key, rec) ==> RecOf(utf8, records, key, rec)
  {
    hide GoodEntry, EntryRec;
    GoodPrefix(utf8, records, n);
    assert forall i | 0 <= i < n :: records[..n][i] == records[i];
    if records[n].0 != key && HasKey(records, key) {
      var i :| 0 <= i < |records| && records[i].0 == key;
      assert records[..n][i].0 == key;
    }
    forall rec | RecOf(utf8, records[..n], key, rec) ensures RecOf(utf8, records, key, rec) {
      var i :| 0 <= i < n && records[..n][i].0 == key && rec == EntryRec(utf8, records[..n][i]);
      assert records[i] == records[..n][i];
    }
  }

  lemma {:induction false} LastInEntries(utf8: Utf8, records: seq<(string, Data)>, key: string)
    requires GoodEntries(utf8, records)
    ensures var r := D.LastInPage(EntryRecs(utf8, records), key);
            if HasKey(records, key) then r.Some? && RecOf(utf8, records, key, r.value) else r == None
    decreases |records|
  {
    hide GoodEntry, EntryRec;
    if records != [] {
      var n := |records| - 1;
      GoodPrefix(utf8, records, n);
      KeyInFront(utf8, records, n, key);
      assert EntryRecs(utf8, records)[..n] == EntryRecs(utf8, records[..n]);
      EntryKey(utf8, records[n]);
      if records[n].0 == key {
        assert RecOf(utf8, records, key, EntryRec(utf8, records[n]));
      } else {
        hide HasKey, RecOf;
        LastInEntries(utf8, records[..n], key);
      }
    }
  }

  lemma EntryKey(utf8: Utf8, e: (string, Data))
    requires GoodEntry(utf8, e.0, e.1)
    ensures EntryRec(utf8, e).key == e.0
  {}

  /** After a flush a key reads as its flushed entry if it has one, else as before. */
  lemma FlushedReads(utf8: Utf8, before: D.Pages, now: D.Pages, records: seq<(string, Data)>, mem: map<string, Data>,
                     deletions: set<string>, updates: D.Index, key: string)
    requires GoodEntries(utf8, records) && Flushed(utf8, before, now, records, deletions, updates)
    requires forall k :: k in mem <==> exists i :: 0 <= i < |records| && records[i].0 == k
    requires forall i | 0 <= i < |records| :: mem[records[i].0] == records[i].1
    ensures key in mem ==> GoodEntry(utf8, key, mem[key])
    ensures D.ScanRead(now, key)
         == if key in mem then D.Seen(EntryText(utf8, key, mem[key])) else D.ScanRead(before, key)
  {
    hide GoodEntry, D.Rebuild;
    LastOfFlat(before, key);
    LastOfFlat(now, key);
    LastInConcat(D.Flat(before), EntryRecs(utf8, records), key);
    LastInEntries(utf8, records, key);
  }

  /**
   The table is what it was followed by one record for every entry of the memtable, by ascending key, each on the
   last page if it fits there and on a new page if not.
   */
  ghost predicate PlacedOnce(utf8: Utf8, before: D.Pages, start: Fill, now: D.Pages, m: map<string, Data>)
    requires start.pages != []
  {
    exists records :: PlacedAs(utf8, before, start, now, m, records)
  }

  ghost predicate PlacedAs(utf8: Utf8, before: D.Pages, start: Fill, now: D.Pages, m: map<string, Data>,
                           records: seq<(string, Data)>)
    requires start.pages != []
  {
    && BTreeSpec.Sorted(records) && BTreeSpec.ToMap(records) == m && |records| == |m| && GoodEntries(utf8, records)
    && (forall i, j | 0 <= i < j < |records| :: StringOrder.Below(records[i].0, records[j].0))
    && D.Flat(now) == D.Flat(before) + EntryRecs(utf8, records)
    && now == if records == [] then before else FillAll(start, Sized(utf8, records)).pages
  }

  ghost predicate ReadsThrough(utf8: Utf8, before: D.Pages, now: D.Pages, m: map<string, Data>)
    requires forall k | k in m :: GoodEntry(utf8, k, m[k])
  {
    forall k :: D.ScanRead(now, k) == if k in m then D.Seen(EntryText(utf8, k, m[k])) else D.ScanRead(before, k)
  }

  /** `flush_memtable_to_disk` for a non-empty or empty immutable memtable. */
  method FlushMemtable(mem: BTree.BTreeMemTable<Data>, h: TableHandler, utf8: Utf8, index: D.Index)
    returns (r: Result<D.Index, TableError>)
    requires LawfulUtf8(utf8) && mem.Valid()
    requires forall k | k in mem.Contents() :: GoodEntry(utf8, k, mem.Contents()[k])
    requires h.Valid() && SavedBut(h, -1) && |h.view| + mem.size + 1 < 0x1_0000_0000
    requires index == D.Rebuild(AbsPages(utf8, h.view))
    modifies h.Repr()
    ensures h.Valid() && SavedBut(h, -1)
    ensures r.Ok? <==> old(mem.size == 0 || h.view == [] || h.view[|h.view| - 1].Some?)
    ensures r.Err? ==> AbsPages(utf8, h.view) == old(AbsPages(utf8, h.view))
    // the maintained index is the one a restart would build
    ensures r.Ok? ==> r.value == D.Rebuild(AbsPages(utf8, h.view))
    // every entry is placed exactly once, behind what the table held
    ensures r.Ok? ==> PlacedOnce(utf8, old(AbsPages(utf8, h.view)), StartFill(utf8, old(h.view)),
                                 AbsPages(utf8, h.view), old(mem.Contents()))
    // and every key reads as the memtable has it, or as before if the memtable has nothing on it
    ensures r.Ok? ==> ReadsThrough(utf8, old(AbsPages(utf8, h.view)), AbsPages(utf8, h.view), old(mem.Contents()))
    // a crash before the next sync leaves, page by page, something between the old records and the new ones
    ensures r.Ok? ==> CrashShows(utf8, h.crc, old(h.file), h.file, old(AbsPages(utf8, h.view)), AbsPages(utf8, h.view))
  {
    hide AbsPages, SavedBut, TableHandler.Valid, LawfulUtf8, GoodEntry, GoodEntries, Flushed, PlacedOnce,
         D.ApplyPending, BTreeSpec.Sorted, EntryRecs, D.Rebuild, D.Flat, D.ScanRead, BTreeSpec.ToMap,
         BTree.BTreeMemTable.Valid, BTree.BTreeMemTable.Contents, AbsFile, CrashShows, Grown, ReadsThrough,
         StringOrder.Below, StringOrder.Less, StartFill, FillAll, Sized;
    ghost var start := StartFill(utf8, h.view);
    MemShape(mem);
    SavedShows(h, utf8);
    ghost var m := mem.Contents();
    ghost var before := AbsPages(utf8, h.view);
    var records := mem.InOrderTraversal();
    EntriesGood(utf8, records, m);
    if mem.size == 0 {
      FlushedStart(utf8, before);
      assert records == [];
      FlushedAll(utf8, before, start, before, records, m, {}, map[]);
      FilesShow(utf8, h.crc, h.file, h.file);
      return Ok(index);
    }
    var pending := FlushRecords(h, utf8, records);
    if pending.Err? {
      return Err(pending.error);
    }
    FlushedAll(utf8, before, start, AbsPages(utf8, h.view), records, m, pending.value.0, pending.value.1);
    SavedShows(h, utf8);
    FilesShow(utf8, h.crc, old(h.file), h.file);
    return Ok(D.ApplyPending(index, pending.value.0, pending.value.1));
  }

  /** What the flush of a memtable's listing makes of the table. */
  lemma FlushedAll(utf8: Utf8, before: D.Pages, start: Fill, now: D.Pages, records: seq<(string, Data)>,
                   m: map<string, Data>, deletions: set<string>, updates: D.Index)
    requires start.pages != []
    requires GoodEntries(utf8, records) && Flushed(utf8, before, now, records, deletions, updates)
    requires BTreeSpec.Sorted(records) && BTreeSpec.ToMap(records) == m
    requires forall k | k in m :: GoodEntry(utf8, k, m[k])
    requires now == if records == [] then before else FillAll(start, Sized(utf8, records)).pages
    ensures D.Rebuild(now) == D.ApplyPending(D.Rebuild(before), deletions, updates)
    ensures PlacedOnce(utf8, before, start, now, m) && ReadsThrough(utf8, before, now, m) && Grown(before, now)
  {
    hide GoodEntry, GoodEntries, Flushed, D.ApplyPending, BTreeSpec.Sorted, EntryRecs, D.Rebuild, D.Flat, D.ScanRead,
         BTreeSpec.ToMap, Grown, StringOrder.Below, StringOrder.Less, FillAll, Sized;
    EntriesGood(utf8, records, m);
    FlushedPlaces(utf8, before, now, records, deletions, updates);
    SortedBelow(records);
    PlacedFrom(utf8, before, start, now, m, records);
    forall k ensures D.ScanRead(now, k)
                  == if k in m then D.Seen(EntryText(utf8, k, m[k])) else D.ScanRead(before, k)
    {
      FlushedReads(utf8, before, now, records, m, deletions, updates, k);
    }
  }

  lemma SortedBelow(records: seq<(string, Data)>)
    requires BTreeSpec.Sorted(records)
    ensures forall i, j | 0 <= i < j < |records| :: StringOrder.Below(records[i].0, records[j].0)
  {
    hide StringOrder.Less, StringOrder.Below;
    forall i, j | 0 <= i < j < |records| ensures StringOrder.Below(records[i].0, records[j].0) {
      StringOrder.LessIsBelow(records[i].0, records[j].0);
    }
  }

  lemma MemShape(mem: BTree.BTreeMemTable<Data>)
    requires mem.Valid()
    ensures mem.root.Valid()
  {}

  lemma PlacedFrom(utf8: Utf8, before: D.Pages, start: Fill, now: D.Pages, m: map<string, Data>,
                   records: seq<(string, Data)>)
    requires start.pages != [] && PlacedAs(utf8, before, start, now, m, records)
    ensures PlacedOnce(utf8, before, start, now, m)
  {}

  lemma FlushedPlaces(utf8: Utf8, before: D.Pages, now: D.Pages, records: seq<(string, Data)>, deletions: set<string>,
                      updates: D.Index)
    requires GoodEntries(utf8, records) && Flushed(utf8, before, now, records, deletions, updates)
    ensures D.Flat(now) == D.Flat(before) + EntryRecs(utf8, records)
    ensures D.Rebuild(now) == D.ApplyPending(D.Rebuild(before), deletions, updates)
    ensures Grown(before, now)
  {}

  lemma EntriesGood(utf8: Utf8, records: seq<(string, Data)>, m: map<string, Data>)
    requires BTreeSpec.Sorted(records) && BTreeSpec.ToMap(records) == m && forall k | k in m :: GoodEntry(utf8, k, m[k])
    ensures GoodEntries(utf8, records) && |records| == |m|
    ensures forall k :: k in m <==> exists i :: 0 <= i < |records| && records[i].0 == k
    ensures forall i | 0 <= i < |records| :: m[records[i].0] == records[i].1
  {
    hide GoodEntry, BTreeSpec.ToMap, StringOrder.Less;
    BTreeSpec.ToMapSorted(records);
    assert forall i | 0 <= i < |records| :: records[i].0 in m;
    forall i, j | 0 <= i < j < |records| ensures records[i].0 != records[j].0 {
      StringOrder.Trichotomy(records[i].0, records[j].0);
    }
  }
}
