/**
 The router's disk side: building the index, reading through it, and flushing a memtable.

 `AbsPages` reads a handler's pages as `DiskPages` tables; the loops here are proved against the
 functions of that module.
 */
module TableFlush {
  import opened Wrappers
  import opened Bytes
  import opened PageFormat
  import opened PagerModel
  import opened TableFile
  import opened Records
  import D = DiskPages

  ghost function AbsSlot(utf8: Utf8, r: Option<Data>): D.Slot {
    if r == None then None else ReadRecord(utf8, r.value)
  }

  ghost function AbsSlots(utf8: Utf8, rs: seq<Option<Data>>): (page: D.Page)
    ensures |page| == |rs| && forall i | 0 <= i < |rs| :: page[i] == AbsSlot(utf8, rs[i])
  {
    seq(|rs|, i requires 0 <= i < |rs| => AbsSlot(utf8, rs[i]))
  }

  /** An unreadable page shows no records. */
  ghost function AbsPage(utf8: Utf8, v: Option<Page>): D.Page {
    if v == None || !Loaded(v.value) then [] else AbsSlots(utf8, PageFormat.Records(v.value))
  }

  ghost function AbsPages(utf8: Utf8, view: seq<Option<Page>>): (pages: D.Pages)
    ensures |pages| == |view| && forall i | 0 <= i < |view| :: pages[i] == AbsPage(utf8, view[i])
  {
    seq(|view|, i requires 0 <= i < |view| => AbsPage(utf8, view[i]))
  }

  lemma NullText(b: Data)
    ensures b == NULL <==> BytesText(b) == D.TOMBSTONE
  {
    var n := BytesText(NULL);
    assert n == D.TOMBSTONE;
    if BytesText(b) == n {
      forall i | 0 <= i < |b| ensures b[i] == NULL[i] {
        assert BytesText(b)[i] == n[i];
      }
    }
  }

  /** The body of `_init_disk_index`'s inner loop: one slot's payload updates the index. */
  method IndexPayload(utf8: Utf8, index: D.Index, payload: Data, at: D.Position) returns (index': D.Index)
    ensures index' == D.IndexRecord(index, ReadRecord(utf8, payload), at)
  {
    index' := index;
    if |payload| >= 2 {
      var end := KeyEnd(payload);
      var key := utf8.decode(payload[2..end]);
      NullText(payload[end..]);
      if key.Some? {
        if payload[end..] == NULL {
          index' := index - {key.value};
        } else {
          index' := index[key.value := at];
        }
      }
    }
  }

  /** `_init_disk_index`: one forward pass over every slot of every readable page. */
  method InitDiskIndex(h: TableHandler, utf8: Utf8) returns (index: D.Index)
    requires h.Valid()
    modifies h`pageCache
    ensures h.Valid()
    ensures index == D.Rebuild(AbsPages(utf8, h.view))
  {
    hide Loaded, D.IndexRecord, D.IndexPage, D.Rebuild, AbsPage, TableHandler.CacheOk, TableHandler.ViewOk,
         TableHandler.Valid;
    index := map[];
    ghost var abs := AbsPages(utf8, h.view);
    NoPages(utf8, abs);
    for pageId := 0 to h.TotalPages()
      invariant h.Valid()
      invariant index == D.Rebuild(abs[..pageId])
    {
      D.RebuildStep(abs, pageId);
      var page := h.ReadPage(pageId);
      if page.Ok? {
        index := IndexOnePage(page.value, utf8, index, pageId);
      } else {
        D.IndexNothing(index, pageId);
      }
    }
  }

  lemma NoPages(utf8: Utf8, pages: D.Pages)
    ensures D.Rebuild(pages[..0]) == map[] && pages[..|pages|] == pages && AbsPage(utf8, None) == []
  {}

  method IndexOnePage(page: Pager, utf8: Utf8, index0: D.Index, pageId: nat) returns (index: D.Index)
    requires page.Valid()
    ensures index == D.IndexPage(index0, AbsPage(utf8, Some(page.View())), pageId)
  {
    index := index0;
    ghost var slots := AbsPage(utf8, Some(page.View()));
    for slotId := 0 to |page.slots|
      invariant index == D.IndexPage(index0, slots[..slotId], pageId)
    {
      var payload := page.GetRecord(slotId);
      assert slots[..slotId + 1][..slotId] == slots[..slotId];
      if payload.value.Some? {
        index := IndexPayload(utf8, index, payload.value.value, (pageId, slotId));
      }
    }
    assert slots[..|slots|] == slots;
  }

  /**
   `_unpack_record` asks more of a record than the index does: a value that is JSON. Which texts are is a parameter;
   the empty text, which is what a truncated record leaves, is not.
   */
  type Parses = string -> bool

  function StrictSlot(json: Parses, slot: D.Slot): D.Slot {
    if slot.Some? && json(slot.value.text) then slot else None
  }

  ghost function StrictPage(json: Parses, page: D.Page): (strict: D.Page)
    ensures |strict| == |page| && forall i | 0 <= i < |page| :: strict[i] == StrictSlot(json, page[i])
  {
    seq(|page|, i requires 0 <= i < |page| => StrictSlot(json, page[i]))
  }

  /** The table as a scan sees it: only the records `_unpack_record` accepts. */
  ghost function StrictPages(json: Parses, pages: D.Pages): (strict: D.Pages)
    ensures |strict| == |pages| && forall p | 0 <= p < |pages| :: strict[p] == StrictPage(json, pages[p])
  {
    seq(|pages|, p requires 0 <= p < |pages| => StrictPage(json, pages[p]))
  }

  lemma {:induction false} StrictLastInPage(json: Parses, page: D.Page, key: string)
    ensures var r, s := D.LastInPage(page, key), D.LastInPage(StrictPage(json, page), key);
            && (r.None? ==> s.None?) && (r.Some? && json(r.value.text) ==> s == r)
    decreases |page|
  {
    if page != [] {
      StrictLastInPage(json, page[..|page| - 1], key);
      assert StrictPage(json, page)[..|page| - 1] == StrictPage(json, page[..|page| - 1]);
    }
  }

  /** If the last record of a key is one the scan accepts, then it is the one the scan finds. */
  lemma {:induction false} StrictLast(json: Parses, pages: D.Pages, key: string)
    ensures var r, s := D.LastRecord(pages, key), D.LastRecord(StrictPages(json, pages), key);
            && (r.None? ==> s.None?) && (r.Some? && json(r.value.text) ==> s == r)
    decreases |pages|
  {
    hide StrictPage;
    if pages != [] {
      var n := |pages| - 1;
      StrictLast(json, pages[..n], key);
      StrictLastInPage(json, pages[n], key);
      assert StrictPages(json, pages)[..n] == StrictPages(json, pages[..n]);
    }
  }

  /**
   A key that is not indexed has no live record; one that is, and whose record the scan accepts,
   reads as that record.
   */
  lemma IndexAgrees(json: Parses, pages: D.Pages, key: string)
    requires json(D.TOMBSTONE)
    ensures var index, strict := D.Rebuild(pages), StrictPages(json, pages);
            if key !in index then D.ScanRead(strict, key) == None
            else var at := index[key];
                 && at.0 < |pages| && at.1 < |pages[at.0]| && pages[at.0][at.1].Some?
                 && var text := pages[at.0][at.1].value.text;
                    json(text) ==> D.ScanRead(strict, key) == Some(text)
  {
    hide D.Rebuild, D.LastRecord;
    D.RebuildCorrect(pages, key);
    StrictLast(json, pages, key);
  }

  /**
   `_read_from_disk`: through the index if there is one, else a scan from the end. Whatever bytes the pages hold, the
   two agree: an indexed record that cannot be unpacked sends the reader to the scan.
   */
  method ReadFromDisk(h: TableHandler, utf8: Utf8, json: Parses, index: Option<D.Index>, key: string)
    returns (r: Option<string>)
    requires h.Valid() && json(D.TOMBSTONE) && !json("")
    requires index.Some? ==> index.value == D.Rebuild(AbsPages(utf8, h.view))
    modifies h`pageCache
    ensures h.Valid() && r == D.ScanRead(StrictPages(json, AbsPages(utf8, h.view)), key)
  {
    hide Loaded, D.LastRecord, D.Rebuild, D.ScanRead, ReadRecord, TableHandler.CacheOk, TableHandler.ViewOk, AbsPages,
         StrictPages, TableHandler.Valid;
    ghost var abs := AbsPages(utf8, h.view);
    if index.Some? {
      IndexAgrees(json, abs, key);
      if key !in index.value {
        return None;
      }
      r := ReadPosition(h, utf8, json, index.value[key]);
      if r.Some? {
        return r;
      }
    }
    r := ScanBackwards(h, utf8, json, key);
  }

  /** `_get_page_slot_record`: the record in a slot, if there is one that unpacks. */
  method SlotRecord(page: Pager, utf8: Utf8, json: Parses, slotId: nat) returns (r: D.Slot)
    requires page.Valid() && slotId < |page.slots| && !json("")
    ensures r == StrictSlot(json, AbsPage(utf8, Some(page.View()))[slotId])
  {
    var payload := page.GetRecord(slotId);
    if payload.value.None? || |payload.value.value| < 2 {
      return None;
    }
    var raw := payload.value.value;
    var end := 2 + Get16(raw[..2]);
    if |raw| < end + 1 {
      assert raw[KeyEnd(raw)..] == [] && BytesText([]) == "";
      return None;
    }
    var key, text := utf8.decode(raw[2..end]), BytesText(raw[end..]);
    return if key.Some? && json(text) then Some(D.Rec(key.value, text, -1)) else None;
  }

  /** The live text of the record in one slot, if the page and the record can be read. */
  method ReadPosition(h: TableHandler, utf8: Utf8, json: Parses, at: D.Position) returns (r: Option<string>)
    requires h.Valid() && !json("")
    modifies h`pageCache
    ensures h.Valid()
    ensures var abs := AbsPages(utf8, h.view);
            r == if at.0 < |abs| && at.1 < |abs[at.0]| && StrictSlot(json, abs[at.0][at.1]).Some?
                 then Some(abs[at.0][at.1].value.text) else None
  {
    hide Loaded, ReadRecord, TableHandler.CacheOk, TableHandler.ViewOk, TableHandler.Valid, PageFormat.Records;
    var page := h.ReadPage(at.0);
    if page.Ok? && at.1 < |page.value.slots| {
      SlotsShown(utf8, page.value);
      var record := SlotRecord(page.value, utf8, json, at.1);
      if record.Some? {
        return Some(record.value.text);
      }
    } else if page.Ok? {
      SlotsShown(utf8, page.value);
    }
    return None;
  }

  lemma SlotsShown(utf8: Utf8, page: Pager)
    requires page.Valid()
    ensures |AbsPage(utf8, Some(page.View()))| == |page.slots|
  {}

  /** The fallback: pages and slots from the end. */
  method ScanBackwards(h: TableHandler, utf8: Utf8, json: Parses, key: string) returns (r: Option<string>)
    requires h.Valid() && !json("")
    modifies h`pageCache
    ensures h.Valid() && r == D.ScanRead(StrictPages(json, AbsPages(utf8, h.view)), key)
  {
    hide Loaded, ReadRecord, AbsPage, D.Seen, D.LastInPage, D.LastRecord, TableHandler.CacheOk, TableHandler.ViewOk,
         TableHandler.Valid, StrictPage, StrictPages, AbsPages;
    ghost var strict := StrictPages(json, AbsPages(utf8, h.view));
    EmptyPageHasNothing(utf8, json, strict, key);
    StrictView(utf8, json, h.view);
    var pageId := h.TotalPages();
    while pageId > 0
      invariant h.Valid() && 0 <= pageId <= |strict| && h.view == old(h.view)
      invariant D.LastRecord(strict, key) == D.LastRecord(strict[..pageId], key)
    {
      pageId := pageId - 1;
      D.LastStep(strict, pageId, key);
      var found := ScanListed(h, utf8, json, pageId, key);
      if found.Some? {
        return D.Seen(found.value.text);
      }
    }
    return None;
  }

  /** One page of the scan; an unreadable page has nothing. */
  method ScanListed(h: TableHandler, utf8: Utf8, json: Parses, pageId: nat, key: string) returns (r: Option<D.Rec>)
    requires h.Valid() && pageId < |h.view| && !json("")
    modifies h`pageCache
    ensures h.Valid() && r == D.LastInPage(StrictPage(json, AbsPage(utf8, h.view[pageId])), key)
  {
    hide Loaded, AbsPage, D.LastInPage, TableHandler.CacheOk, TableHandler.ViewOk, TableHandler.Valid, StrictPage;
    EmptyPageHasNothing(utf8, json, [], key);
    var page := h.ReadPage(pageId);
    if page.Ok? {
      r := ScanPage(page.value, utf8, json, key);
    } else {
      r := None;
    }
  }

  lemma StrictView(utf8: Utf8, json: Parses, view: seq<Option<Page>>)
    ensures |StrictPages(json, AbsPages(utf8, view))| == |view|
    ensures forall p | 0 <= p < |view| ::
              StrictPages(json, AbsPages(utf8, view))[p] == StrictPage(json, AbsPage(utf8, view[p]))
  {
    hide AbsPage, StrictPage;
  }

  lemma EmptyPageHasNothing(utf8: Utf8, json: Parses, pages: D.Pages, key: string)
    ensures D.LastInPage(StrictPage(json, AbsPage(utf8, None)), key) == None
    ensures pages[..|pages|] == pages && D.LastRecord(pages[..0], key) == None
  {}

  method ScanPage(page: Pager, utf8: Utf8, json: Parses, key: string) returns (r: Option<D.Rec>)
    requires page.Valid() && !json("")
    ensures r == D.LastInPage(StrictPage(json, AbsPage(utf8, Some(page.View()))), key)
  {
    hide AbsPage, Loaded;
    SlotsShown(utf8, page);
    ghost var slots := StrictPage(json, AbsPage(utf8, Some(page.View())));
    var slotId := |page.slots|;
    assert slots[..slotId] == slots;
    while slotId > 0
      invariant slotId <= |page.slots|
      invariant D.LastInPage(slots, key) == D.LastInPage(slots[..slotId], key)
    {
      slotId := slotId - 1;
      assert slots[..slotId + 1][..slotId] == slots[..slotId];
      var record := SlotRecord(page, utf8, json, slotId);
      if record.Some? && record.value.key == key {
        return record;
      }
    }
    return None;
  }

  // ---------------------------------------------------------------------------------------
  // Flushing

  /** A memtable entry: the packed form of some text under its key, small enough for a page. */
  ghost predicate GoodEntry(utf8: Utf8, key: string, payload: Data) {
    && |payload| <= ROOM
    && |utf8.encode(key)| <= MAX_KEY_BYTES
    && exists text :: Ascii(text) && Pack(utf8, key, text) == Some(payload)
  }

  ghost function EntryText(utf8: Utf8, key: string, payload: Data): (text: string)
    requires GoodEntry(utf8, key, payload)
    ensures Ascii(text) && Pack(utf8, key, text) == Some(payload)
  {
    var text :| Ascii(text) && Pack(utf8, key, text) == Some(payload);
    text
  }

  ghost function EntryRec(utf8: Utf8, e: (string, Data)): D.Rec
    requires GoodEntry(utf8, e.0, e.1)
  {
    D.Rec(e.0, EntryText(utf8, e.0, e.1), -1)
  }

  lemma EntryReads(utf8: Utf8, key: string, payload: Data)
    requires LawfulUtf8(utf8) && GoodEntry(utf8, key, payload)
    ensures payload != [] && ReadRecord(utf8, payload) == Some(EntryRec(utf8, (key, payload)))
    ensures 2 + |utf8.encode(key)| <= |payload|
    ensures payload[2 + |utf8.encode(key)|..] == NULL <==> EntryRec(utf8, (key, payload)).text == D.TOMBSTONE
  {
    var text := EntryText(utf8, key, payload);
    PackReadsBack(utf8, key, text);
    NullIsTombstone(utf8, key, text);
  }

  /** Every readable page but `except` is in the file as it is in the cache. */
  ghost predicate SavedBut(h: TableHandler, except: int)
    reads h`view, h`file
  {
    forall k: nat | k < |h.view| && k != except && h.view[k].Some? :: h.Saved(k)
  }

  lemma SavedWeaken(h: TableHandler, except: int)
    ensures SavedBut(h, -1) ==> SavedBut(h, except)
  {}

  /** `page` is the cached last page of the table. */
  ghost predicate OnLast(h: TableHandler, page: Pager)
    reads h, h.Repr()
  {
    && h.Valid() && h.view != []
    && page.pageId == |h.view| - 1 && page.pageId in h.pageCache && h.pageCache[page.pageId] == page
  }

  lemma RootOwned(h: TableHandler)
    ensures h in h.Repr()
  {}

  lemma LastOwned(h: TableHandler, page: Pager)
    ensures OnLast(h, page) ==> page in h.Repr() && page.data in h.Repr() && h.Valid()
  {
    hide TableHandler.Valid;
  }

  lemma AbsSame(utf8: Utf8, view: seq<Option<Page>>, i: nat, q: Page)
    requires i < |view| && view[i].Some? && Loaded(view[i].value) && Loaded(q)
    requires PageFormat.Records(q) == PageFormat.Records(view[i].value)
    ensures AbsPages(utf8, view[i := Some(q)]) == AbsPages(utf8, view)
  {
    hide Loaded, PageFormat.Records;
    assert AbsPage(utf8, Some(q)) == AbsPage(utf8, view[i]);
  }

  lemma AbsAdd(utf8: Utf8, view: seq<Option<Page>>, p: Page)
    requires Loaded(p) && PageFormat.Records(p) == []
    ensures AbsPages(utf8, view + [Some(p)]) == D.AddPage(AbsPages(utf8, view))
  {
    hide Loaded, PageFormat.Records;
    assert AbsPage(utf8, Some(p)) == [];
  }

  lemma AbsAppend(utf8: Utf8, view: seq<Option<Page>>, q: Page, payload: Data, rec: D.Rec)
    requires view != [] && view[|view| - 1].Some? && Loaded(view[|view| - 1].value) && Loaded(q)
    requires PageFormat.Records(q) == PageFormat.Records(view[|view| - 1].value) + [Some(payload)]
    requires ReadRecord(utf8, payload) == Some(rec)
    ensures AbsPages(utf8, view[|view| - 1 := Some(q)]) == D.Append(AbsPages(utf8, view), rec)
    ensures |AbsPages(utf8, view)[|view| - 1]| == |PageFormat.Records(view[|view| - 1].value)|
  {
    hide Loaded, PageFormat.Records, ReadRecord;
    var n := |view| - 1;
    assert AbsPage(utf8, Some(q)) == AbsPage(utf8, view[n]) + [Some(rec)];
  }

  /** A changed page is written out. */
  method SaveIfDirty(h: TableHandler, utf8: Utf8, page: Pager, dirty: bool)
    requires OnLast(h, page) && SavedBut(h, if dirty then page.pageId else -1)
    modifies h, page.data
    ensures OnLast(h, page) && SavedBut(h, -1) && h.Repr() <= old(h.Repr()) && |h.view| == |old(h.view)|
    ensures AbsPages(utf8, h.view) == old(AbsPages(utf8, h.view))
  {
    hide Loaded, PageFormat.Records, AbsPages, AbsPage, TableHandler.ViewOk, TableHandler.Saved, TableHandler.CacheOk,
         TableHandler.Valid, Pager.Valid;
    if dirty {
      ghost var view0 := h.view;
      h.Cached(page.pageId);
      PageId(page);
      var w := h.WritePage(page);
      PageId(page);
      AbsSame(utf8, view0, page.pageId, page.View());
    }
  }

  /** An empty page is appended to the table and becomes the one to fill. */
  method FreshPage(h: TableHandler, utf8: Utf8) returns (next: Pager)
    requires h.Valid() && SavedBut(h, -1) && |h.view| + 1 < 0x1_0000_0000
    modifies h
    ensures OnLast(h, next) && SavedBut(h, -1) && fresh(h.Repr() - old(h.Repr())) && |h.view| == |old(h.view)| + 1
    ensures AbsPages(utf8, h.view) == D.AddPage(old(AbsPages(utf8, h.view)))
    ensures next.FreeSpace() == PAGE_SIZE - HEADER_SIZE
  {
    hide Loaded, PageFormat.Records, AbsPages, AbsPage, TableHandler.ViewOk, TableHandler.Saved, TableHandler.CacheOk,
         TableHandler.Valid, Pager.Valid;
    ghost var view0 := h.view;
    var id := h.AllocatePage();
    PageId(h.pageCache[id]);
    AbsAdd(utf8, view0, h.pageCache[id].View());
    h.Cached(id);
    var r := h.ReadPage(id);
    next := r.value;
  }

  /** `page.insert_record`, seen by every reader of the cached page at once. */
  method InsertOnLast(h: TableHandler, utf8: Utf8, page: Pager, key: string, payload: Data) returns (slotId: nat)
    requires LawfulUtf8(utf8) && GoodEntry(utf8, key, payload)
    requires OnLast(h, page) && SavedBut(h, page.pageId)
    requires page.FreeSpace() >= SLOT_SIZE + |payload|
    modifies page, page.data, h`view
    ensures OnLast(h, page) && SavedBut(h, page.pageId) && |h.view| == |old(h.view)|
    ensures slotId == |old(AbsPages(utf8, h.view))[page.pageId]|
    ensures AbsPages(utf8, h.view) == D.Append(old(AbsPages(utf8, h.view)), EntryRec(utf8, (key, payload)))
    ensures page.FreeSpace() == old(page.FreeSpace()) - SLOT_SIZE - |payload|
  {
    hide Loaded, PageFormat.Records, AbsPages, AbsPage, TableHandler.ViewOk, TableHandler.Saved, ReadRecord, GoodEntry,
         TableHandler.CacheOk, TableHandler.Valid;
    h.Cached(page.pageId);
    EntryReads(utf8, key, payload);
    ghost var view0 := h.view;
    var r := h.InsertCached(page, payload);
    AbsAppend(utf8, view0, page.View(), payload, EntryRec(utf8, (key, payload)));
    slotId := r.value;
  }

  ghost predicate GoodEntries(utf8: Utf8, records: seq<(string, Data)>) {
    && (forall i | 0 <= i < |records| :: GoodEntry(utf8, records[i].0, records[i].1))
    && (forall i, j | 0 <= i < j < |records| :: records[i].0 != records[j].0)
  }

  ghost function EntryRecs(utf8: Utf8, records: seq<(string, Data)>): (slots: seq<D.Slot>)
    requires GoodEntries(utf8, records)
    ensures |slots| == |records| && forall i | 0 <= i < |records| :: slots[i] == Some(EntryRec(utf8, records[i]))
  {
    seq(|records|, i requires 0 <= i < |records| => Some(EntryRec(utf8, records[i])))
  }

  lemma GoodPrefix(utf8: Utf8, records: seq<(string, Data)>, i: nat)
    requires GoodEntries(utf8, records) && i < |records|
    ensures GoodEntries(utf8, records[..i]) && GoodEntries(utf8, records[..i + 1])
    ensures records[..i + 1] == records[..i] + [records[i]]
  {}

  /** What placing `records` behind `before` has made of the table, and the index changes it left to be done. */
  ghost predicate Flushed(utf8: Utf8, before: D.Pages, now: D.Pages, records: seq<(string, Data)>,
                          deletions: set<string>, updates: D.Index)
    requires GoodEntries(utf8, records)
  {
    // every record is placed once, in order, behind what was there, and nothing that was there has moved
    && D.Flat(now) == D.Flat(before) + EntryRecs(utf8, records)
    && |before| <= |now| && (forall p | 0 <= p < |before| :: before[p] <= now[p])
    // applying the pending changes gives the index a restart would build
    && D.Rebuild(now) == D.ApplyPending(D.Rebuild(before), deletions, updates)
    && (forall k | k in deletions || k in updates :: exists i :: 0 <= i < |records| && records[i].0 == k)
  }

  lemma FlushedStart(utf8: Utf8, before: D.Pages)
    ensures GoodEntries(utf8, []) && Flushed(utf8, before, before, [], {}, map[])
  {
    assert D.ApplyPending(D.Rebuild(before), {}, map[]) == D.Rebuild(before);
  }

  lemma FlushedAddPage(utf8: Utf8, before: D.Pages, now: D.Pages, records: seq<(string, Data)>, deletions: set<string>,
                       updates: D.Index)
    requires GoodEntries(utf8, records) && Flushed(utf8, before, now, records, deletions, updates)
    ensures Flushed(utf8, before, D.AddPage(now), records, deletions, updates)
  {
    D.AddPageKeeps(now, "");
    D.FlatAddPage(now);
  }

  lemma FlushedAppend(utf8: Utf8, before: D.Pages, now: D.Pages, records: seq<(string, Data)>, e: (string, Data),
                      deletions: set<string>, updates: D.Index)
    requires GoodEntries(utf8, records) && GoodEntries(utf8, records + [e]) && now != []
    requires Flushed(utf8, before, now, records, deletions, updates)
    ensures var rec := (assert (records + [e])[|records|] == e; EntryRec(utf8, e));
            var at := (|now| - 1, |now[|now| - 1]|);
            if rec.text == D.TOMBSTONE
            then Flushed(utf8, before, D.Append(now, rec), records + [e], deletions + {e.0}, updates)
            else Flushed(utf8, before, D.Append(now, rec), records + [e], deletions, updates[e.0 := at])
  {
    hide D.Flat, D.Rebuild, GoodEntry, GoodEntries, EntryRec, EntryRecs, D.ApplyPending, D.Append;
    var all := records + [e];
    assert all[|records|] == e;
    RecsAppend(utf8, records, e);
    var rec, at := EntryRec(utf8, e), (|now| - 1, |now[|now| - 1]|);
    EntryKeyIs(utf8, e);
    D.AppendIndexes(now, rec, e.0);
    D.FlatAppend(now, rec);
    AppendGrows(before, now, rec);
    KeysFlushed(utf8, records, e, deletions, updates, at);
    D.PendingStep(D.Rebuild(before), deletions, updates, rec, at);
    assert D.Flat(before) + EntryRecs(utf8, all) == D.Flat(before) + EntryRecs(utf8, records) + [Some(rec)];
  }

  lemma EntryKeyIs(utf8: Utf8, e: (string, Data))
    requires GoodEntry(utf8, e.0, e.1)
    ensures EntryRec(utf8, e).key == e.0
  {}

  lemma RecsAppend(utf8: Utf8, records: seq<(string, Data)>, e: (string, Data))
    requires GoodEntries(utf8, records) && GoodEntries(utf8, records + [e])
    ensures GoodEntry(utf8, e.0, e.1)
            && EntryRecs(utf8, records + [e]) == EntryRecs(utf8, records) + [Some(EntryRec(utf8, e))]
  {
    hide GoodEntry, EntryRec;
    assert (records + [e])[|records|] == e;
  }

  lemma AppendGrows(before: D.Pages, now: D.Pages, rec: D.Rec)
    requires now != [] && |before| <= |now| && forall p | 0 <= p < |before| :: before[p] <= now[p]
    ensures |D.Append(now, rec)| == |now| && forall p | 0 <= p < |before| :: before[p] <= D.Append(now, rec)[p]
  {}

  /** The keys with a pending change are those of records placed so far, each once. */
  lemma KeysFlushed(utf8: Utf8, records: seq<(string, Data)>, e: (string, Data), deletions: set<string>,
                    updates: D.Index, at: D.Position)
    requires GoodEntries(utf8, records + [e])
    requires forall k | k in deletions || k in updates :: exists i :: 0 <= i < |records| && records[i].0 == k
    ensures e.0 !in deletions && e.0 !in updates
    ensures forall k | k in deletions + {e.0} || k in updates ::
              exists i :: 0 <= i < |records + [e]| && (records + [e])[i].0 == k
    ensures forall k | k in deletions || k in updates[e.0 := at] ::
              exists i :: 0 <= i < |records + [e]| && (records + [e])[i].0 == k
  {
    hide GoodEntry;
    var all := records + [e];
    assert all[|records|] == e;
    forall k | k in deletions || k in updates ensures k != e.0 && exists i :: 0 <= i < |all| && all[i].0 == k {
      var i :| 0 <= i < |records| && records[i].0 == k;
      assert all[i] == records[i];
    }
    forall k | k in deletions + {e.0} || k in updates[e.0 := at]
      ensures exists i :: 0 <= i < |all| && all[i].0 == k
    {
      if k == e.0 { assert all[|records|].0 == k; }
    }
  }

  // ---------------------------------------------------------------------------------------
  // Where the records go

  /** A table that is being filled: its pages, and the bytes left on the last one. */
  datatype Fill = Fill(pages: D.Pages, free: int)

  /** A record of `size` bytes goes on the last page if it and its slot fit there, else on a page of its own. */
  function FillOne(f: Fill, rec: D.Rec, size: nat): (f': Fill)
    requires f.pages != []
    ensures f'.pages != []
  {
    if f.free >= SLOT_SIZE + size then Fill(D.Append(f.pages, rec), f.free - SLOT_SIZE - size)
    else Fill(D.Append(D.AddPage(f.pages), rec), PAGE_SIZE - HEADER_SIZE - SLOT_SIZE - size)
  }

  function FillAll(f: Fill, recs: seq<(D.Rec, nat)>): (f': Fill)
    requires f.pages != []
    ensures f'.pages != []
  {
    if recs == [] then f else FillOne(FillAll(f, recs[..|recs| - 1]), recs[|recs| - 1].0, recs[|recs| - 1].1)
  }

  /** Bytes that records of these sizes take, slots included. */
  function Taken(recs: seq<(D.Rec, nat)>): nat {
    if recs == [] then 0 else Taken(recs[..|recs| - 1]) + SLOT_SIZE + recs[|recs| - 1].1
  }

  /**
   No page is opened while the one before has room, so any two neighbours hold more than one page's worth: a table
   filled from one empty page has at most one page more than twice what its records would fill.
   */
  lemma {:induction false} FillBound(recs: seq<(D.Rec, nat)>)
    requires forall i | 0 <= i < |recs| :: recs[i].1 <= ROOM
    ensures var f := FillAll(Fill([[]], 4076), recs);
            0 <= f.free <= 4076 && 4076 * (|f.pages| - 1) <= 2 * Taken(recs) - (4076 - f.free)
    decreases |recs|
  {
    if recs != [] {
      FillBound(recs[..|recs| - 1]);
    }
  }

  lemma FillStep(f: Fill, recs: seq<(D.Rec, nat)>, n: nat)
    requires f.pages != [] && n < |recs|
    ensures FillAll(f, recs[..n + 1]) == FillOne(FillAll(f, recs[..n]), recs[n].0, recs[n].1)
    ensures FillAll(f, recs[..0]) == f && recs[..|recs|] == recs
  {
    assert recs[..n + 1][..n] == recs[..n];
  }

  lemma FillNothing(f: Fill, recs: seq<(D.Rec, nat)>)
    requires f.pages != []
    ensures FillAll(f, recs[..0]) == f && recs[..|recs|] == recs
  {}

  /** What a flush finds to fill: the table as it is, or a first page. */
  ghost function StartFill(utf8: Utf8, view: seq<Option<Page>>): (f: Fill)
    ensures f.pages != []
  {
    if view == [] then Fill([[]], PAGE_SIZE - HEADER_SIZE)
    else
      var last := view[|view| - 1];
      Fill(AbsPages(utf8, view), if last.Some? then last.value.upper - last.value.lower else 0)
  }

  /** The records of a memtable's listing, with the bytes each takes. */
  ghost function Sized(utf8: Utf8, records: seq<(string, Data)>): (recs: seq<(D.Rec, nat)>)
    requires GoodEntries(utf8, records)
    ensures |recs| == |records|
    ensures forall i | 0 <= i < |recs| :: recs[i] == (EntryRec(utf8, records[i]), |records[i].1|)
  {
    seq(|records|, i requires 0 <= i < |records| => (EntryRec(utf8, records[i]), |records[i].1|))
  }

  /** The page to start filling: the last one, or a first one. */
  method StartPage(h: TableHandler, utf8: Utf8) returns (r: Result<Pager, TableError>)
    requires h.Valid() && SavedBut(h, -1) && |h.view| + 1 < 0x1_0000_0000
    modifies h
    ensures h.Valid() && SavedBut(h, -1) && fresh(h.Repr() - old(h.Repr())) && |h.view| <= |old(h.view)| + 1
    ensures r.Ok? <==> old(h.view) == [] || old(h.view)[|old(h.view)| - 1].Some?
    ensures r.Ok? ==> OnLast(h, r.value)
    ensures var abs := old(AbsPages(utf8, h.view));
            AbsPages(utf8, h.view) == if old(h.view) == [] then D.AddPage(abs) else abs
    ensures r.Ok? ==> Fill(AbsPages(utf8, h.view), r.value.FreeSpace()) == StartFill(utf8, old(h.view))
  {
    hide Loaded, PageFormat.Records, AbsPages, AbsPage, TableHandler.ViewOk, TableHandler.Saved, TableHandler.CacheOk,
         TableHandler.Valid, Pager.Valid;
    if h.TotalPages() == 0 {
      NoPages(utf8, AbsPages(utf8, h.view));
      var page := FreshPage(h, utf8);
      return Ok(page);
    }
    r := h.ReadPage(h.TotalPages() - 1);
    if r.Ok? {
      h.Cached(|h.view| - 1);
    }
  }

  /** Finds a page with room: the current one, or a fresh one once the current one is written out. */
  method MakeRoom(h: TableHandler, utf8: Utf8, page0: Pager, dirty0: bool, size: nat) returns (page: Pager)
    requires OnLast(h, page0) && SavedBut(h, if dirty0 then page0.pageId else -1)
    requires |h.view| + 1 < 0x1_0000_0000 && size <= ROOM
    modifies h.Repr()
    ensures OnLast(h, page) && SavedBut(h, page.pageId)
    ensures fresh(h.Repr() - old(h.Repr())) && |h.view| <= |old(h.view)| + 1
    ensures page.FreeSpace() >= SLOT_SIZE + size
    ensures var abs := old(AbsPages(utf8, h.view));
            AbsPages(utf8, h.view) == if old(page0.FreeSpace()) >= SLOT_SIZE + size then abs else D.AddPage(abs)
    ensures page.FreeSpace() == if old(page0.FreeSpace()) >= SLOT_SIZE + size then old(page0.FreeSpace())
                                else PAGE_SIZE - HEADER_SIZE
  {
    hide AbsPages, SavedBut, OnLast, D.AddPage, TableHandler.Valid, TableHandler.CacheOk, TableHandler.ViewOk,
         TableHandler.Repr;
    page := page0;
    RootOwned(h);
    LastOwned(h, page);
    if page.HasSpaceFor(size) != Ok(true) {
      SaveIfDirty(h, utf8, page, dirty0);
      LastOwned(h, page);
      label Saved:
      page := FreshPage(h, utf8);
      forall o | o in h.Repr() && o !in old(h.Repr()) ensures fresh(o) {
        assert o in h.Repr() - old@Saved(h.Repr()) && fresh@Saved(o);
      }
    }
    SavedWeaken(h, page.pageId);
  }

  /** One round of the loop: make room, insert, note the index change. */
  method FlushOne(h: TableHandler, utf8: Utf8, page0: Pager, dirty0: bool, ghost before: D.Pages,
                  ghost done: seq<(string, Data)>, entry: (string, Data), deletions0: set<string>, updates0: D.Index)
    returns (page: Pager, deletions: set<string>, updates: D.Index)
    requires LawfulUtf8(utf8) && GoodEntries(utf8, done) && GoodEntries(utf8, done + [entry])
    requires OnLast(h, page0) && SavedBut(h, if dirty0 then page0.pageId else -1)
    requires |h.view| + 1 < 0x1_0000_0000
    requires Flushed(utf8, before, AbsPages(utf8, h.view), done, deletions0, updates0)
    modifies h.Repr()
    ensures OnLast(h, page) && SavedBut(h, page.pageId)
    ensures fresh(h.Repr() - old(h.Repr())) && |h.view| <= |old(h.view)| + 1
    ensures Flushed(utf8, before, AbsPages(utf8, h.view), done + [entry], deletions, updates)
    ensures GoodEntry(utf8, entry.0, entry.1)
    ensures Fill(AbsPages(utf8, h.view), page.FreeSpace())
         == FillOne(old(Fill(AbsPages(utf8, h.view), page0.FreeSpace())), EntryRec(utf8, entry), |entry.1|)
  {
    hide AbsPages, SavedBut, TableHandler.Valid, LawfulUtf8, Flushed, EntryRec, ReadRecord;
    assert (done + [entry])[|done|] == entry;
    var (recKey, packedRecord) := entry;
    EntryReads(utf8, recKey, packedRecord);
    FlushedAddPage(utf8, before, AbsPages(utf8, h.view), done, deletions0, updates0);
    page := MakeRoom(h, utf8, page0, dirty0, |packedRecord|);
    FlushedAppend(utf8, before, AbsPages(utf8, h.view), done, entry, deletions0, updates0);
    var slotId := InsertOnLast(h, utf8, page, recKey, packedRecord);
    var keyLen := |utf8.encode(recKey)|;
    deletions, updates := deletions0, updates0;
    if packedRecord[2 + keyLen..] == NULL {
      deletions := deletions + {recKey};
    } else {
      updates := updates[recKey := (page.pageId, slotId)];
    }
  }

  /** The fill loop of `flush_memtable_to_disk`. */
  method FlushRecords(h: TableHandler, utf8: Utf8, records: seq<(string, Data)>)
    returns (r: Result<(set<string>, D.Index), TableError>)
    requires LawfulUtf8(utf8) && GoodEntries(utf8, records)
    requires h.Valid() && SavedBut(h, -1) && |h.view| + |records| + 1 < 0x1_0000_0000
    modifies h.Repr()
    ensures h.Valid() && SavedBut(h, -1)
    ensures r.Ok? <==> old(h.view) == [] || old(h.view)[|old(h.view)| - 1].Some?
    ensures r.Err? ==> AbsPages(utf8, h.view) == old(AbsPages(utf8, h.view))
    ensures r.Ok? ==> Flushed(utf8, old(AbsPages(utf8, h.view)), AbsPages(utf8, h.view), records, r.value.0, r.value.1)
    // page by page, each record on the last page that had room for it
    ensures r.Ok? ==> AbsPages(utf8, h.view) == FillAll(StartFill(utf8, old(h.view)), Sized(utf8, records)).pages
  {
    hide FillAll, FillOne, StartFill, Sized, Loaded, PageFormat.Records, AbsPages, AbsPage, TableHandler.ViewOk,
         TableHandler.Saved, TableHandler.CacheOk,
         TableHandler.Valid, Pager.Valid, LawfulUtf8, GoodEntries, Flushed, EntryRecs, SavedBut, GoodEntry, OnLast,
         TableHandler.Repr;
    ghost var before := AbsPages(utf8, h.view);
    FlushedStart(utf8, before);
    FlushedAddPage(utf8, before, before, [], {}, map[]);
    RootOwned(h);
    var start := StartPage(h, utf8);
    if start.Err? {
      return Err(start.error);
    }
    var page, dirty := start.value, false;
    var deletions: set<string>, updates: D.Index := {}, map[];
    assert records[..0] == [];
    ghost var start0, sized := StartFill(utf8, old(h.view)), Sized(utf8, records);
    FillNothing(start0, sized);
    for i := 0 to |records|
      invariant Fill(AbsPages(utf8, h.view), page.FreeSpace()) == FillAll(start0, sized[..i])
      invariant OnLast(h, page) && SavedBut(h, if dirty then page.pageId else -1)
      invariant fresh(h.Repr() - old(h.Repr()))
      invariant |h.view| <= |old(h.view)| + 1 + i
      invariant GoodEntries(utf8, records[..i])
      invariant Flushed(utf8, before, AbsPages(utf8, h.view), records[..i], deletions, updates)
    {
      GoodPrefix(utf8, records, i);
      FillStep(start0, sized, i);
      label Round: ghost var owned := h.Repr();
      assert forall o | o in owned && o !in old(h.Repr()) :: fresh(o);
      page, deletions, updates := FlushOne(h, utf8, page, dirty, before, records[..i], records[i], deletions, updates);
      dirty := true;
      forall o | o in h.Repr() && o !in old(h.Repr()) ensures fresh(o) {
        assert o in owned || (o in h.Repr() - owned && fresh@Round(o));
      }
    }
    LastOwned(h, page);
    SaveIfDirty(h, utf8, page, dirty);
    LastOwned(h, page);
    assert records[..|records|] == records;
    return Ok((deletions, updates));
  }
}
