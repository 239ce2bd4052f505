/** The record-rewriting loop of a compaction: the last version of every key, copied into a new table. */
module CompactorModel {
  import opened Wrappers
  import opened Bytes
  import opened PageFormat
  import opened PagerModel
  import opened TableFile
  import opened Records
  import opened Json
  import opened TableFlush
  import opened CrashPages
  import MemtableFlush
  import RouterModel
  import D = DiskPages

  /** A dictionary keeps its keys in order of first insertion. */
  datatype Active = Active(order: seq<string>, values: map<string, Json>)

  ghost predicate Ordered(a: Active) {
    && (forall i, j | 0 <= i < j < |a.order| :: a.order[i] != a.order[j])
    && (forall k :: k in a.order <==> k in a.values)
  }

  function Assigned(a: Active, key: string, v: Json): Active {
    Active(if key in a.values then a.order else a.order + [key], a.values[key := v])
  }

  // ---------------------------------------------------------------------------------------
  // What the old table holds

  /** A slot as `_unpack_record` reads it; a record it rejects is skipped as corrupted. */
  type Value = Option<(string, Json)>

  ghost function UnpackSlot(c: Codec, r: Option<Data>): Value {
    if r == None then None else RouterModel.Unpack(c, r.value)
  }

  ghost function UnpackPage(c: Codec, v: Option<Page>): (slots: seq<Value>)
    ensures v.Some? && Loaded(v.value) ==>
              |slots| == |PageFormat.Records(v.value)|
              && forall i | 0 <= i < |slots| :: slots[i] == UnpackSlot(c, PageFormat.Records(v.value)[i])
  {
    if v == None || !Loaded(v.value) then []
    else
      var rs := PageFormat.Records(v.value);
      seq(|rs|, i requires 0 <= i < |rs| => UnpackSlot(c, rs[i]))
  }

  /** Every slot of the table, oldest first. */
  ghost function UnpackAll(c: Codec, view: seq<Option<Page>>): seq<Value> {
    if view == [] then [] else UnpackAll(c, view[..|view| - 1]) + UnpackPage(c, view[|view| - 1])
  }

  /** The newest value of a key. */
  function LastValue(slots: seq<Value>, key: string): Option<Json> {
    if slots == [] then None
    else
      var last := slots[|slots| - 1];
      if last.Some? && last.value.0 == key then Some(last.value.1) else LastValue(slots[..|slots| - 1], key)
  }

  /** Where a key turns up first; behind the last slot if it never does. */
  function FirstAt(slots: seq<Value>, key: string): (i: nat)
    ensures i <= |slots| && forall j | 0 <= j < i :: slots[j].Some? ==> slots[j].value.0 != key
    ensures i < |slots| ==> slots[i].Some? && slots[i].value.0 == key
  {
    if slots == [] then 0
    else if slots[0].Some? && slots[0].value.0 == key then 0
    else 1 + FirstAt(slots[1..], key)
  }

  /** The dictionary holds the last value of every key among `slots`, in the order in which they first turn up. */
  ghost predicate Latest(a: Active, slots: seq<Value>) {
    Lasts(a, slots) && Ordered(a) && FirstOrder(a.order, slots)
  }

  ghost predicate Lasts(a: Active, slots: seq<Value>) {
    forall k :: LastValue(slots, k) == if k in a.values then Some(a.values[k]) else None
  }

  ghost predicate FirstOrder(order: seq<string>, slots: seq<Value>) {
    && |order| <= |slots|
    && (forall i | 0 <= i < |order| :: FirstAt(slots, order[i]) < |slots|)
    && (forall i, j | 0 <= i < j < |order| :: FirstAt(slots, order[i]) < FirstAt(slots, order[j]))
  }

  lemma LatestSlot(a: Active, slots: seq<Value>, slot: Value)
    requires Latest(a, slots)
    ensures Latest(if slot.Some? then Assigned(a, slot.value.0, slot.value.1) else a, slots + [slot])
  {
    hide FirstOrder, LastValue;
    LastsSlot(a, slots, slot);
    OrderStays(a.order, slots, slot);
    if slot.Some? && slot.value.0 !in a.values {
      LastIsFirst(slots, slot.value.0);
      OrderGrows(a.order, slots, slot);
    }
  }

  lemma LastsSlot(a: Active, slots: seq<Value>, slot: Value)
    requires Lasts(a, slots)
    ensures Lasts(if slot.Some? then Assigned(a, slot.value.0, slot.value.1) else a, slots + [slot])
  {
    assert (slots + [slot])[..|slots|] == slots;
  }

  lemma OrderStays(order: seq<string>, slots: seq<Value>, slot: Value)
    requires FirstOrder(order, slots)
    ensures FirstOrder(order, slots + [slot])
  {
    hide FirstAt;
    forall i | 0 <= i < |order| ensures FirstAt(slots + [slot], order[i]) == FirstAt(slots, order[i]) {
      FirstStays(slots, slot, order[i]);
    }
  }

  lemma OrderGrows(order: seq<string>, slots: seq<Value>, slot: Value)
    requires FirstOrder(order, slots) && slot.Some? && FirstAt(slots, slot.value.0) == |slots|
    ensures FirstOrder(order + [slot.value.0], slots + [slot])
  {
    hide FirstAt;
    FirstStays(slots, slot, slot.value.0);
    forall i | 0 <= i < |order| ensures FirstAt(slots + [slot], order[i]) == FirstAt(slots, order[i]) {
      FirstStays(slots, slot, order[i]);
    }
  }

  /** One more slot is the first of its key only if there was none before. */
  lemma FirstStays(slots: seq<Value>, slot: Value, key: string)
    ensures FirstAt(slots, key) < |slots| ==> FirstAt(slots + [slot], key) == FirstAt(slots, key)
    ensures FirstAt(slots, key) == |slots| && slot.Some? && slot.value.0 == key ==>
              FirstAt(slots + [slot], key) == |slots|
  {
    var all, i := slots + [slot], FirstAt(slots, key);
    assert forall j | 0 <= j < |slots| :: all[j] == slots[j];
    assert all[|slots|] == slot;
  }

  lemma {:induction false} LastIsFirst(slots: seq<Value>, key: string)
    requires LastValue(slots, key) == None
    ensures FirstAt(slots, key) == |slots|
    decreases |slots|
  {
    hide FirstAt;
    if slots != [] {
      var n := |slots| - 1;
      LastIsFirst(slots[..n], key);
      assert slots[..n] + [slots[n]] == slots;
      assert forall j | 0 <= j < n :: slots[j] == slots[..n][j];
    }
  }

  /** The slot loop over one page. */
  method CollectPage(page: Pager, codec: Codec, a0: Active, ghost before: seq<Value>) returns (a: Active)
    requires page.Valid() && Latest(a0, before)
    ensures Latest(a, before + UnpackPage(codec, Some(page.View())))
  {
    hide Latest, RouterModel.Unpack;
    a := a0;
    ghost var slots := UnpackPage(codec, Some(page.View()));
    assert before + slots[..0] == before;
    for slotId := 0 to |page.slots|
      invariant Latest(a, before + slots[..slotId])
    {
      var payload := page.GetRecord(slotId);
      assert before + slots[..slotId + 1] == (before + slots[..slotId]) + [slots[slotId]];
      LatestSlot(a, before + slots[..slotId], slots[slotId]);
      if payload.value.Some? {
        var record := RouterModel.Unpack(codec, payload.value.value);
        if record.Some? {
          a := Assigned(a, record.value.0, record.value.1);
        }
      }
    }
    assert slots[..|slots|] == slots;
  }

  lemma LatestNothing()
    ensures Latest(Active([], map[]), [])
  {}

  ghost predicate AllReadable(view: seq<Option<Page>>, n: nat) {
    forall id | 0 <= id < n && id < |view| :: view[id].Some?
  }

  lemma NoneRead(view: seq<Option<Page>>)
    ensures AllReadable(view, 0)
  {}

  lemma ReadableStep(view: seq<Option<Page>>, n: nat)
    requires n < |view| && AllReadable(view, n)
    ensures AllReadable(view, n + 1) <==> view[n].Some?
    ensures view[n].None? ==> !AllReadable(view, |view|)
  {}

  lemma UnpackStep(c: Codec, view: seq<Option<Page>>, n: nat)
    requires n < |view|
    ensures UnpackAll(c, view[..n + 1]) == UnpackAll(c, view[..n]) + UnpackPage(c, view[n])
    ensures UnpackAll(c, view[..0]) == [] && view[..|view|] == view
  {
    assert view[..n + 1][..n] == view[..n];
  }

  /** The page loop; an unreadable page aborts the compaction. */
  method CollectRecords(h: TableHandler, codec: Codec) returns (r: Result<Active, TableError>)
    requires h.Valid()
    modifies h`pageCache
    ensures h.Valid() && (r.Ok? <==> AllReadable(h.view, |h.view|))
    ensures r.Ok? ==> Latest(r.value, UnpackAll(codec, h.view))
  {
    hide Loaded, Latest, UnpackPage, UnpackAll, AllReadable, TableHandler.CacheOk, TableHandler.ViewOk,
         TableHandler.Valid;
    NoneRead(h.view);
    var a := Active([], map[]);
    LatestNothing();
    NothingUnpacked(codec, h.view);
    for pageId := 0 to h.TotalPages()
      invariant h.Valid() && Latest(a, UnpackAll(codec, h.view[..pageId]))
      invariant AllReadable(h.view, pageId)
    {
      ReadableStep(h.view, pageId);
      UnpackStep(codec, h.view, pageId);
      var page := h.ReadPage(pageId);
      if page.Err? {
        return Err(page.error);
      }
      a := CollectPage(page.value, codec, a, UnpackAll(codec, h.view[..pageId]));
    }
    return Ok(a);
  }

  lemma NothingUnpacked(c: Codec, view: seq<Option<Page>>)
    ensures UnpackAll(c, view[..0]) == [] && view[..|view|] == view
  {}

  /** The bytes of a packed record. */
  ghost function RecordSize(c: Codec, key: string, v: Json): nat {
    2 + |c.utf8.encode(key)| + |c.dumps(v)|
  }

  /** The packed record has a page to fit in. */
  ghost predicate Storable(c: Codec, key: string, v: Json) {
    |c.utf8.encode(key)| <= MAX_KEY_BYTES && RecordSize(c, key, v) <= ROOM
  }

  /** The dictionary's records in its order, with the bytes each takes. */
  ghost function Kept(c: Codec, a: Active): (recs: seq<(D.Rec, nat)>)
    requires Ordered(a)
    ensures |recs| == |a.order|
    ensures forall i | 0 <= i < |recs| ::
              var k, v := a.order[i], a.values[a.order[i]];
              recs[i] == (D.Rec(k, c.dumps(v), -1), RecordSize(c, k, v))
  {
    seq(|a.order|, i requires 0 <= i < |a.order| =>
      var k, v := a.order[i], a.values[a.order[i]]; (D.Rec(k, c.dumps(v), -1), RecordSize(c, k, v)))
  }

  lemma CodecUtf8(c: Codec)
    requires LawfulCodec(c)
    ensures LawfulUtf8(c.utf8)
  {}

  // ---------------------------------------------------------------------------------------
  // Writing the new table

  /** The table holds exactly the dictionary's records, in its order. */
  ghost predicate Rewritten(c: Codec, a: Active, slots: D.Page)
    requires Ordered(a)
  {
    && |slots| == |a.order|
    && forall i | 0 <= i < |slots| ::
         slots[i] == Some(D.Rec(a.order[i], c.dumps(a.values[a.order[i]]), -1))
  }

  /** A record that reads as the text of a value unpacks to that value. */
  lemma ReadUnpacks(c: Codec, payload: Data, key: string, v: Json)
    requires LawfulCodec(c) && ReadRecord(c.utf8, payload) == Some(D.Rec(key, c.dumps(v), -1))
    ensures RouterModel.Unpack(c, payload) == Some((key, v))
  {
    var text := c.dumps(v);
    var end := KeyEnd(payload);
    assert c.loads(text) == Some(v);
    assert text != "" && |payload[end..]| == |text|;
    var raw := payload[end..];
    assert Ascii(text) && raw == TextBytes(text) by {
      forall i | 0 <= i < |raw| ensures raw[i] == TextBytes(text)[i] { assert BytesText(raw)[i] == text[i]; }
    }
    assert c.utf8.encode(text) == raw;
    assert c.utf8.decode(c.utf8.encode(text)) == Some(text);
  }

  /** Slots that read as the texts of values unpack to those values. */
  ghost predicate Matches(c: Codec, values: seq<Value>, slots: D.Page) {
    |values| == |slots|
    && forall i, k, v | 0 <= i < |values| && slots[i] == Some(D.Rec(k, c.dumps(v), -1)) :: values[i] == Some((k, v))
  }

  lemma PageMatches(c: Codec, v: Option<Page>)
    requires LawfulCodec(c)
    ensures Matches(c, UnpackPage(c, v), AbsPage(c.utf8, v))
  {
    hide LawfulCodec, ReadRecord, RouterModel.Unpack, Loaded;
    if v.Some? && Loaded(v.value) {
      var values, slots, rs := UnpackPage(c, v), AbsPage(c.utf8, v), PageFormat.Records(v.value);
      forall i, key, w | 0 <= i < |values| && slots[i] == Some(D.Rec(key, c.dumps(w), -1))
        ensures values[i] == Some((key, w))
      {
        ReadUnpacks(c, rs[i].value, key, w);
      }
    }
  }

  lemma {:induction false} AllMatch(c: Codec, view: seq<Option<Page>>)
    requires LawfulCodec(c)
    ensures Matches(c, UnpackAll(c, view), D.Flat(AbsPages(c.utf8, view)))
    decreases |view|
  {
    hide LawfulCodec, UnpackPage, AbsPage;
    if view != [] {
      var n := |view| - 1;
      AllMatch(c, view[..n]);
      PageMatches(c, view[n]);
      assert AbsPages(c.utf8, view)[..n] == AbsPages(c.utf8, view[..n]);
    }
  }

  /** The new table holds, for every key, the value the old one did. */
  lemma SameValues(c: Codec, a: Active, before: seq<Value>, now: seq<Value>, slots: D.Page, key: string)
    requires Latest(a, before) && Rewritten(c, a, slots) && Matches(c, now, slots)
    ensures LastValue(now, key) == LastValue(before, key)
  {
    hide LastValue;
    forall i | 0 <= i < |now| ensures now[i] == Some((a.order[i], a.values[a.order[i]])) {
      assert slots[i] == Some(D.Rec(a.order[i], c.dumps(a.values[a.order[i]]), -1));
    }
    ValuesLast(a, now, |now|, key);
    assert now[..|now|] == now && a.order[..|now|] == a.order;
  }

  lemma {:induction false} ValuesLast(a: Active, now: seq<Value>, n: nat, key: string)
    requires Ordered(a) && n <= |now| == |a.order|
    requires forall i | 0 <= i < |now| :: now[i] == Some((a.order[i], a.values[a.order[i]]))
    ensures LastValue(now[..n], key) == if key in a.order[..n] then Some(a.values[key]) else None
  {
    if n > 0 {
      ValuesLast(a, now, n - 1, key);
      assert now[..n][..n - 1] == now[..n - 1] && a.order[..n] == a.order[..n - 1] + [a.order[n - 1]];
    }
  }

  /** The entry the loop writes for a key. */
  lemma EntryOf(c: Codec, key: string, v: Json)
    requires LawfulCodec(c) && Storable(c, key, v)
    ensures Ascii(c.dumps(v)) && Pack(c.utf8, key, c.dumps(v)).Some?
    ensures var payload := Pack(c.utf8, key, c.dumps(v)).value;
            GoodEntry(c.utf8, key, payload) && EntryRec(c.utf8, (key, payload)) == D.Rec(key, c.dumps(v), -1)
  {
    assert Ascii(c.dumps(v));
    var payload := Pack(c.utf8, key, c.dumps(v)).value;
    PackReadsBack(c.utf8, key, c.dumps(v));
    EntryReads(c.utf8, key, payload);
  }

  datatype CompactError = Unreadable(error: TableError) | TooLarge(key: string)

  /** The fill loop over the dictionary, into the first page of a new table and as many more as it takes. */
  method RewriteRecords(codec: Codec, a: Active, crc: Checksum) returns (r: Result<TableHandler, CompactError>)
    requires LawfulCodec(codec) && Ordered(a) && |a.order| + 2 < 0x1_0000_0000
    requires forall k | k in a.values :: |codec.utf8.encode(k)| <= MAX_KEY_BYTES
    ensures r.Ok? <==> forall k | k in a.values :: Storable(codec, k, a.values[k])
    ensures r.Ok? ==> fresh(r.value.Repr()) && r.value.Valid() && SavedBut(r.value, -1) && r.value.crc == crc
    ensures r.Ok? ==> Rewritten(codec, a, D.Flat(AbsPages(codec.utf8, r.value.view)))
    ensures r.Ok? ==> AbsPages(codec.utf8, r.value.view) == FillAll(Fill([[]], 4076), Kept(codec, a)).pages
    // and so do the bytes of its file, to whoever reads them with the same checksum
    ensures r.Ok? ==> Rewritten(codec, a, D.Flat(AbsFile(codec.utf8, crc, r.value.file)))
  {
    hide LawfulCodec, AbsPages, SavedBut, Storable, TableHandler.CacheOk, TableHandler.ViewOk, TableHandler.Valid,
         OnLast, D.Flat, Rewritten, AbsFile, FillAll, Kept, FilledTo, Pack, TableHandler.Repr;
    var temp := new TableHandler(crc, []);
    SavedAll(temp);
    label Made: ghost var made := temp.Repr();
    var page := FreshPage(temp, codec.utf8);
    forall o | o in temp.Repr() ensures fresh(o) {
      assert o in made || (o in temp.Repr() - made && fresh@Made(o));
    }
    var dirty := false;
    FilledNothing(codec, a);
    for i := 0 to |a.order|
      invariant OnLast(temp, page) && SavedBut(temp, if dirty then page.pageId else -1) && fresh(temp.Repr())
      invariant |temp.view| <= i + 1 && FilledTo(codec, a, AbsPages(codec.utf8, temp.view), page.FreeSpace(), i)
      invariant forall j | 0 <= j < i :: Storable(codec, a.order[j], a.values[a.order[j]])
    {
      var key := a.order[i];
      PackedSize(codec, key, a.values[key]);
      // No page has room for it: the insert into a fresh page raises, and the new file is removed.
      if |Pack(codec.utf8, key, codec.dumps(a.values[key])).value| > ROOM {
        return Err(TooLarge(key));
      }
      label Round: ghost var owned := temp.Repr();
      assert forall o | o in owned :: fresh(o);
      page := RewriteNext(temp, codec, page, dirty, a, i);
      forall o | o in temp.Repr() ensures fresh(o) {
        assert o in owned || (o in temp.Repr() - owned && fresh@Round(o));
      }
      dirty := true;
    }
    forall k | k in a.values ensures Storable(codec, k, a.values[k]) {
      assert k in a.order;
    }
    LastOwned(temp, page);
    WriteLast(temp, codec, page, dirty, a);
    return Ok(temp);
  }

  /** The last page is written out, and the table is complete. */
  method WriteLast(temp: TableHandler, codec: Codec, page: Pager, dirty: bool, ghost a: Active)
    requires Ordered(a) && OnLast(temp, page) && SavedBut(temp, if dirty then page.pageId else -1)
    requires FilledTo(codec, a, AbsPages(codec.utf8, temp.view), page.FreeSpace(), |a.order|)
    modifies temp, page.data
    ensures temp.Valid() && SavedBut(temp, -1) && temp.Repr() <= old(temp.Repr())
    ensures Rewritten(codec, a, D.Flat(AbsPages(codec.utf8, temp.view)))
    ensures AbsPages(codec.utf8, temp.view) == FillAll(Fill([[]], 4076), Kept(codec, a)).pages
    ensures Rewritten(codec, a, D.Flat(AbsFile(codec.utf8, temp.crc, temp.file)))
  {
    hide AbsPages, SavedBut, TableHandler.CacheOk, TableHandler.ViewOk, TableHandler.Valid, OnLast, D.Flat, Rewritten,
         AbsFile, FillAll, Kept, FilledTo;
    AllWritten(codec, a, AbsPages(codec.utf8, temp.view), page.FreeSpace());
    SaveIfDirty(temp, codec.utf8, page, dirty);
    LastOwned(temp, page);
    SavedShows(temp, codec.utf8);
  }

  /** The first `n` records of the dictionary fill these pages, with `free` bytes left on the last one. */
  ghost predicate FilledTo(c: Codec, a: Active, pages: D.Pages, free: int, n: nat)
    requires Ordered(a) && n <= |a.order|
  {
    WrittenUpTo(c, a, D.Flat(pages), n) && Fill(pages, free) == FillAll(Fill([[]], 4076), Kept(c, a)[..n])
  }

  lemma FilledNothing(c: Codec, a: Active)
    requires Ordered(a)
    ensures FilledTo(c, a, D.AddPage(AbsPages(c.utf8, [])), PAGE_SIZE - HEADER_SIZE, 0)
  {
    NewTable(c, a);
    FillNothing(Fill([[]], 4076), Kept(c, a));
  }

  lemma FilledStep(c: Codec, a: Active, before: Fill, now: Fill, n: nat)
    requires Ordered(a) && n < |a.order| && before.pages != [] && FilledTo(c, a, before.pages, before.free, n)
    requires var rec := D.Rec(a.order[n], c.dumps(a.values[a.order[n]]), -1);
             && D.Flat(now.pages) == D.Flat(before.pages) + [Some(rec)]
             && now == FillOne(before, rec, RecordSize(c, a.order[n], a.values[a.order[n]]))
    ensures FilledTo(c, a, now.pages, now.free, n + 1)
  {
    hide D.Flat, FillOne, FillAll, WrittenUpTo, RecordSize;
    WrittenStep(c, a, D.Flat(before.pages), n);
    FillStep(Fill([[]], 4076), Kept(c, a), n);
  }

  /** One round, for the dictionary's next key. */
  method RewriteNext(temp: TableHandler, codec: Codec, page0: Pager, dirty: bool, a: Active, i: nat)
    returns (page: Pager)
    requires LawfulCodec(codec) && Ordered(a) && i < |a.order| && Storable(codec, a.order[i], a.values[a.order[i]])
    requires OnLast(temp, page0) && SavedBut(temp, if dirty then page0.pageId else -1)
             && |temp.view| + 1 < 0x1_0000_0000
    requires FilledTo(codec, a, AbsPages(codec.utf8, temp.view), page0.FreeSpace(), i)
    modifies temp.Repr()
    ensures OnLast(temp, page) && SavedBut(temp, page.pageId)
    ensures fresh(temp.Repr() - old(temp.Repr())) && |temp.view| <= |old(temp.view)| + 1
    ensures FilledTo(codec, a, AbsPages(codec.utf8, temp.view), page.FreeSpace(), i + 1)
  {
    hide LawfulCodec, AbsPages, SavedBut, Storable, TableHandler.CacheOk, TableHandler.ViewOk, TableHandler.Valid,
         D.Flat, FilledTo, FillOne, RecordSize;
    ghost var before := Fill(AbsPages(codec.utf8, temp.view), page0.FreeSpace());
    PagesThere(codec, temp.view);
    page := RewriteOne(temp, codec, page0, dirty, a.order[i], a.values[a.order[i]]);
    FilledStep(codec, a, before, Fill(AbsPages(codec.utf8, temp.view), page.FreeSpace()), i);
  }

  lemma PagesThere(c: Codec, view: seq<Option<Page>>)
    ensures view != [] ==> AbsPages(c.utf8, view) != []
  {}

  lemma PackedSize(c: Codec, key: string, v: Json)
    requires LawfulCodec(c) && |c.utf8.encode(key)| <= MAX_KEY_BYTES
    ensures Ascii(c.dumps(v)) && Pack(c.utf8, key, c.dumps(v)).Some?
    ensures |Pack(c.utf8, key, c.dumps(v)).value| <= ROOM <==> Storable(c, key, v)
  {}

  lemma AllWritten(c: Codec, a: Active, pages: D.Pages, free: int)
    requires Ordered(a) && FilledTo(c, a, pages, free, |a.order|)
    ensures Rewritten(c, a, D.Flat(pages)) && pages == FillAll(Fill([[]], 4076), Kept(c, a)).pages
  {
    hide D.Flat, FillAll;
    assert Kept(c, a)[..|a.order|] == Kept(c, a);
  }

  lemma SavedAll(h: TableHandler)
    requires forall k: nat | k < |h.view| && h.view[k].Some? :: h.Saved(k)
    ensures SavedBut(h, -1)
  {}

  ghost predicate WrittenUpTo(c: Codec, a: Active, slots: D.Page, n: nat)
    requires Ordered(a) && n <= |a.order|
  {
    |slots| == n && forall i | 0 <= i < n :: slots[i] == Some(D.Rec(a.order[i], c.dumps(a.values[a.order[i]]), -1))
  }

  lemma WrittenStep(c: Codec, a: Active, slots: D.Page, n: nat)
    requires Ordered(a) && n < |a.order| && WrittenUpTo(c, a, slots, n)
    ensures WrittenUpTo(c, a, slots + [Some(D.Rec(a.order[n], c.dumps(a.values[a.order[n]]), -1))], n + 1)
  {}

  lemma NewTable(c: Codec, a: Active)
    requires Ordered(a)
    ensures WrittenUpTo(c, a, D.Flat(D.AddPage(AbsPages(c.utf8, []))), 0)
    ensures D.AddPage(AbsPages(c.utf8, [])) == [[]]
  {
    assert AbsPages(c.utf8, []) == [];
    D.FlatAddPage([]);
  }

  /** One round: make room, insert. Every record fits a fresh page, so the insert cannot fail. */
  method RewriteOne(temp: TableHandler, codec: Codec, page0: Pager, dirty: bool, key: string, value: Json)
    returns (page: Pager)
    requires LawfulCodec(codec) && Storable(codec, key, value)
    requires OnLast(temp, page0) && SavedBut(temp, if dirty then page0.pageId else -1)
             && |temp.view| + 1 < 0x1_0000_0000
    modifies temp.Repr()
    ensures OnLast(temp, page) && SavedBut(temp, page.pageId)
    ensures fresh(temp.Repr() - old(temp.Repr())) && |temp.view| <= |old(temp.view)| + 1
    ensures D.Flat(AbsPages(codec.utf8, temp.view))
         == D.Flat(old(AbsPages(codec.utf8, temp.view))) + [Some(D.Rec(key, codec.dumps(value), -1))]
    ensures Fill(AbsPages(codec.utf8, temp.view), page.FreeSpace())
         == FillOne(old(Fill(AbsPages(codec.utf8, temp.view), page0.FreeSpace())), D.Rec(key, codec.dumps(value), -1),
                    RecordSize(codec, key, value))
  {
    hide LawfulCodec, AbsPages, SavedBut, Storable, TableHandler.CacheOk, TableHandler.ViewOk, TableHandler.Valid,
         D.Flat, Pack, EntryRec, GoodEntry, D.Append, LawfulUtf8;
    EntryOf(codec, key, value);
    CodecUtf8(codec);
    var packed := Pack(codec.utf8, key, codec.dumps(value)).value;
    EntrySize(codec.utf8, key, packed);
    ghost var abs := AbsPages(codec.utf8, temp.view);
    D.FlatAddPage(abs);
    page := MakeRoom(temp, codec.utf8, page0, dirty, |packed|);
    D.FlatAppend(AbsPages(codec.utf8, temp.view), EntryRec(codec.utf8, (key, packed)));
    var slotId := InsertOnLast(temp, codec.utf8, page, key, packed);
  }

  lemma EntrySize(utf8: Utf8, key: string, payload: Data)
    requires GoodEntry(utf8, key, payload)
    ensures |payload| <= ROOM
  {}

  /** Every value that is kept fits a page once it is packed again. */
  ghost predicate AllStorable(c: Codec, slots: seq<Value>) {
    forall k :: var v := LastValue(slots, k); v.Some? ==> Storable(c, k, v.value)
  }

  /** A key that was unpacked from a record has its length in two bytes. */
  lemma {:induction false} KeysShort(c: Codec, view: seq<Option<Page>>, key: string)
    requires LawfulCodec(c) && LastValue(UnpackAll(c, view), key).Some?
    ensures |c.utf8.encode(key)| <= MAX_KEY_BYTES
  {
    hide LawfulCodec, UnpackPage, RouterModel.Unpack, LastValue;
    LastIsThere(UnpackAll(c, view), key);
    var i :| 0 <= i < |UnpackAll(c, view)| && UnpackAll(c, view)[i].Some? && UnpackAll(c, view)[i].value.0 == key;
    SlotKeyShort(c, view, i);
  }

  lemma {:induction false} LastIsThere(slots: seq<Value>, key: string)
    requires LastValue(slots, key).Some?
    ensures exists i :: 0 <= i < |slots| && slots[i].Some? && slots[i].value.0 == key
    decreases |slots|
  {
    var n := |slots| - 1;
    if !(slots[n].Some? && slots[n].value.0 == key) {
      LastIsThere(slots[..n], key);
      var i :| 0 <= i < n && slots[..n][i].Some? && slots[..n][i].value.0 == key;
      assert slots[i] == slots[..n][i];
    }
  }

  lemma {:induction false} SlotKeyShort(c: Codec, view: seq<Option<Page>>, i: nat)
    requires LawfulCodec(c) && i < |UnpackAll(c, view)| && UnpackAll(c, view)[i].Some?
    ensures |c.utf8.encode(UnpackAll(c, view)[i].value.0)| <= MAX_KEY_BYTES
    decreases |view|
  {
    hide LawfulCodec, RouterModel.Unpack;
    var n := |view| - 1;
    var front := UnpackAll(c, view[..n]);
    if i < |front| {
      SlotKeyShort(c, view[..n], i);
    } else {
      assert UnpackAll(c, view)[i] == UnpackPage(c, view[n])[i - |front|];
      UnpackedKey(c, PageFormat.Records(view[n].value)[i - |front|].value);
    }
  }

  lemma UnpackedKey(c: Codec, payload: Data)
    requires LawfulCodec(c) && RouterModel.Unpack(c, payload).Some?
    ensures |c.utf8.encode(RouterModel.Unpack(c, payload).value.0)| <= MAX_KEY_BYTES
  {}

  /**
   `compact_table` up to the file swap: a new table with one record per key, the last value of each, deletions
   included as null records. It fails exactly on an unreadable page, or if a value that is kept no longer fits a page.
   */
  method CompactTable(h: TableHandler, codec: Codec) returns (r: Result<Option<TableHandler>, CompactError>)
    requires LawfulCodec(codec) && h.Valid() && |UnpackAll(codec, h.view)| + 2 < 0x1_0000_0000
    modifies h`pageCache
    ensures h.Valid()
    ensures r.Ok? <==> AllReadable(h.view, |h.view|) && AllStorable(codec, UnpackAll(codec, h.view))
    ensures r == Ok(None) <==> h.view == []
    ensures r.Ok? && r.value.Some? ==>
              var before, now := UnpackAll(codec, h.view), UnpackAll(codec, r.value.value.view);
              && fresh(r.value.value.Repr()) && r.value.value.Valid() && SavedBut(r.value.value, -1)
              && (forall key :: LastValue(now, key) == LastValue(before, key))
              && OnePerKey(D.Flat(AbsPages(codec.utf8, r.value.value.view)))
              && AsPacked(codec, before, AbsPages(codec.utf8, r.value.value.view))
    // each record on the last page if it fits there, so that the new table takes no more than twice the pages it needs
    ensures r.Ok? && r.value.Some? ==> Tight(codec, UnpackAll(codec, h.view), AbsPages(codec.utf8, r.value.value.view))
    // whoever reopens the new file with the old checksum finds that in its bytes
    ensures r.Ok? && r.value.Some? ==> Reopens(codec, h.crc, UnpackAll(codec, h.view), r.value.value.file)
  {
    hide FillAll, Kept, Tight, Lasts, FirstOrder, LawfulCodec, AbsPages, AbsFile, FileView, Placed, SavedBut,
         TableHandler.CacheOk, TableHandler.ViewOk, TableHandler.Valid, Matches, AsPacked, D.Flat, LastValue, Rewritten,
         Latest, UnpackAll, AllReadable, AllStorable, Storable, OnePerKey;
    if h.TotalPages() == 0 {
      NoneRead(h.view);
      NoneStored(codec, h.view);
      return Ok(None);
    }
    var collected := CollectRecords(h, codec);
    if collected.Err? {
      return Err(Unreadable(collected.error));
    }
    var a := collected.value;
    ghost var before := UnpackAll(codec, h.view);
    LatestMeans(codec, a, before);
    forall k | k in a.values ensures |codec.utf8.encode(k)| <= MAX_KEY_BYTES {
      KeysShort(codec, h.view, k);
    }
    label Collected:
    var temp := RewriteRecords(codec, a, h.crc);
    assert h.Repr() == old@Collected(h.Repr());
    if temp.Err? {
      return Err(temp.error);
    }
    ghost var view := temp.value.view;
    ghost var slots := D.Flat(AbsPages(codec.utf8, view));
    AllMatch(codec, view);
    forall key ensures LastValue(UnpackAll(codec, view), key) == LastValue(before, key) {
      SameValues(codec, a, before, UnpackAll(codec, view), slots, key);
    }
    RewrittenOnce(codec, a, slots);
    RewrittenPacked(codec, a, before, AbsPages(codec.utf8, view));
    Reopened(codec, temp.value);
    SavedShows(temp.value, codec.utf8);
    TightFrom(codec, before, a, AbsPages(codec.utf8, view));
    return Ok(Some(temp.value));
  }

  /** The pages are those that the last values fill one after the other, in the order in which their keys first come. */
  ghost predicate Tight(c: Codec, before: seq<Value>, now: D.Pages) {
    exists a :: TightAs(c, before, a, now)
  }

  ghost predicate TightAs(c: Codec, before: seq<Value>, a: Active, now: D.Pages) {
    && Latest(a, before) && now == FillAll(Fill([[]], 4076), Kept(c, a)).pages
    && 4076 * (|now| - 1) <= 2 * Taken(Kept(c, a))
  }

  lemma TightFrom(c: Codec, before: seq<Value>, a: Active, now: D.Pages)
    requires Latest(a, before) && forall k | k in a.values :: Storable(c, k, a.values[k])
    requires now == FillAll(Fill([[]], 4076), Kept(c, a)).pages
    ensures Tight(c, before, now)
  {
    hide FillAll, FirstOrder, LastValue;
    FillBound(Kept(c, a));
    assert TightAs(c, before, a, now);
  }

  /** The file shows the last of `values` for every key, as values, as texts for the index, and under its page ids. */
  ghost predicate Reopens(c: Codec, crc: Checksum, values: seq<Value>, file: Data) {
    && Placed(FileView(file, crc))
    && (forall key :: LastValue(UnpackAll(c, FileView(file, crc)), key) == LastValue(values, key))
    && AsPacked(c, values, AbsFile(c.utf8, crc, file))
  }

  /** A file that is written out shows the values its handler shows. */
  lemma Reopened(c: Codec, h: TableHandler)
    requires h.Valid() && SavedBut(h, -1)
    ensures Placed(FileView(h.file, h.crc)) && UnpackAll(c, FileView(h.file, h.crc)) == UnpackAll(c, h.view)
  {
    hide TableHandler.Valid, SavedBut, UnpackPage, FileView, PageBytes;
    HandlerPages(h);
    var view := FileView(h.file, h.crc);
    forall id | 0 <= id < |view|
      ensures (view[id].Some? ==> view[id].value.id == id) && UnpackPage(c, view[id]) == UnpackPage(c, h.view[id])
    {
      ReopenedPage(c, h, id);
    }
    SameUnpacked(c, view, h.view);
  }

  lemma ReopenedPage(c: Codec, h: TableHandler, id: nat)
    requires h.Valid() && SavedBut(h, -1) && id < |h.view|
    ensures id < |h.file| / PAGE_SIZE
    ensures var page := FileView(h.file, h.crc)[id];
            (page.Some? ==> page.value.id == id) && UnpackPage(c, page) == UnpackPage(c, h.view[id])
  {
    hide FirstFault, Parsed, Image, Loaded, PageFormat.Records, TableHandler.CacheOk, PageBytes, UnpackSlot;
    if h.view[id].Some? {
      assert h.Saved(id);
      var p := h.view[id].value;
      ImageReadsBack(p, h.crc);
      ParsedLoaded(PageBytes(h.file, id), h.crc);
    } else {
      if id in h.pageCache { h.Cached(id); }
      h.Uncached(id);
    }
  }

  lemma {:induction false} SameUnpacked(c: Codec, a: seq<Option<Page>>, b: seq<Option<Page>>)
    requires |a| == |b| && forall i | 0 <= i < |a| :: UnpackPage(c, a[i]) == UnpackPage(c, b[i])
    ensures UnpackAll(c, a) == UnpackAll(c, b)
    decreases |a|
  {
    hide UnpackPage;
    if a != [] { SameUnpacked(c, a[..|a| - 1], b[..|b| - 1]); }
  }

  lemma NoneStored(c: Codec, view: seq<Option<Page>>)
    ensures view == [] ==> AllStorable(c, UnpackAll(c, view)) && AllReadable(view, 0)
  {}

  /** No slot is deleted and no key occurs twice. */
  ghost predicate OnePerKey(slots: D.Page) {
    && (forall i | 0 <= i < |slots| :: slots[i].Some?)
    && (forall i, j | 0 <= i < j < |slots| :: slots[i].value.key != slots[j].value.key)
  }

  lemma RewrittenOnce(c: Codec, a: Active, slots: D.Page)
    requires Ordered(a) && Rewritten(c, a, slots)
    ensures OnePerKey(slots)
  {}

  lemma LatestMeans(c: Codec, a: Active, slots: seq<Value>)
    requires Latest(a, slots)
    ensures Ordered(a) && |a.order| <= |slots|
    ensures forall k | k in a.values :: LastValue(slots, k) == Some(a.values[k])
    ensures AllStorable(c, slots) <==> forall k | k in a.values :: Storable(c, k, a.values[k])
  {
    hide LastValue, Storable;
  }

  /** The pages hold the text of the last value of every key, and nothing else. */
  ghost predicate AsPacked(c: Codec, values: seq<Value>, pages: D.Pages) {
    forall key :: var v := LastValue(values, key);
                  D.LastRecord(pages, key) == if v.Some? then Some(D.Rec(key, c.dumps(v.value), -1)) else None
  }

  lemma {:induction false} RewrittenLast(c: Codec, a: Active, slots: D.Page, n: nat, key: string)
    requires Ordered(a) && Rewritten(c, a, slots) && n <= |slots|
    ensures D.LastInPage(slots[..n], key)
         == if key in a.order[..n] then Some(D.Rec(key, c.dumps(a.values[key]), -1)) else None
  {
    if n > 0 {
      RewrittenLast(c, a, slots, n - 1, key);
      assert slots[..n][..n - 1] == slots[..n - 1] && a.order[..n] == a.order[..n - 1] + [a.order[n - 1]];
    }
  }

  lemma RewrittenPacked(c: Codec, a: Active, before: seq<Value>, now: D.Pages)
    requires Latest(a, before) && Rewritten(c, a, D.Flat(now))
    ensures AsPacked(c, before, now)
  {
    hide LastValue, D.LastRecord, D.LastInPage, D.Flat;
    var slots := D.Flat(now);
    forall key ensures var v := LastValue(before, key);
                       D.LastRecord(now, key) == if v.Some? then Some(D.Rec(key, c.dumps(v.value), -1)) else None
    {
      MemtableFlush.LastOfFlat(now, key);
      RewrittenLast(c, a, slots, |slots|, key);
      assert slots[..|slots|] == slots && a.order[..|slots|] == a.order;
    }
  }

  // ---------------------------------------------------------------------------------------
  // Tables the router wrote

  /** Every live record was packed by the router. */
  ghost predicate CleanPage(c: Codec, v: Option<Page>) {
    v.Some? && Loaded(v.value) ==>
      var rs := PageFormat.Records(v.value);
      forall i | 0 <= i < |rs| && rs[i].Some? :: exists key :: RouterModel.Packs(c, key, rs[i].value)
  }

  ghost predicate CleanView(c: Codec, view: seq<Option<Page>>) {
    forall i | 0 <= i < |view| :: CleanPage(c, view[i])
  }

  /** A record that is on a page fits an empty one. */
  lemma StoredFits(p: Page, i: nat)
    requires Loaded(p) && i < |p.slots|
    ensures PageFormat.Records(p)[i].Some? ==> |PageFormat.Records(p)[i].value| <= ROOM
  {
    assert SlotInside(p.slots[i], p.upper);
  }

  /** A router record reads the same through the index's reader and through `_unpack_record`. */
  lemma CleanReads(c: Codec, payload: Data)
    requires LawfulCodec(c) && |payload| <= ROOM && exists key :: RouterModel.Packs(c, key, payload)
    ensures RouterModel.Unpack(c, payload).Some?
    ensures var (key, v) := RouterModel.Unpack(c, payload).value;
            ReadRecord(c.utf8, payload) == Some(D.Rec(key, c.dumps(v), -1)) && Storable(c, key, v)
  {
    hide LawfulUtf8, LawfulCodec, ReadRecord, RouterModel.Unpack, Ascii;
    CodecUtf8(c);
    var key :| RouterModel.Packs(c, key, payload);
    var v :| Ascii(c.dumps(v)) && Pack(c.utf8, key, c.dumps(v)) == Some(payload);
    RouterModel.PackUnpacks(c, key, v);
    PackReadsBack(c.utf8, key, c.dumps(v));
  }

  /** Each live slot holds the text of the value it unpacks to, and that fits a page. */
  ghost predicate PackedSlots(c: Codec, values: seq<Value>, slots: D.Page) {
    |values| == |slots|
    && forall i | 0 <= i < |values| ::
         if values[i].Some?
         then var (k, v) := values[i].value; slots[i] == Some(D.Rec(k, c.dumps(v), -1)) && Storable(c, k, v)
         else slots[i] == None
  }

  lemma CleanSlots(c: Codec, v: Option<Page>)
    requires LawfulCodec(c) && CleanPage(c, v)
    ensures PackedSlots(c, UnpackPage(c, v), AbsPage(c.utf8, v))
  {
    hide LawfulCodec, ReadRecord, RouterModel.Unpack, RouterModel.Packs, Loaded, Storable;
    if v.Some? && Loaded(v.value) {
      var values, slots, rs := UnpackPage(c, v), AbsPage(c.utf8, v), PageFormat.Records(v.value);
      forall i | 0 <= i < |values|
        ensures if values[i].Some?
                then var (k, w) := values[i].value; slots[i] == Some(D.Rec(k, c.dumps(w), -1)) && Storable(c, k, w)
                else slots[i] == None
      {
        if rs[i].Some? {
          PageSlotCount(v.value);
          StoredFits(v.value, i);
          CleanReads(c, rs[i].value);
        }
      }
    }
  }

  lemma PageSlotCount(p: Page)
    requires Loaded(p)
    ensures |PageFormat.Records(p)| == |p.slots|
  {}

  lemma {:induction false} CleanAll(c: Codec, view: seq<Option<Page>>)
    requires LawfulCodec(c) && CleanView(c, view)
    ensures PackedSlots(c, UnpackAll(c, view), D.Flat(AbsPages(c.utf8, view)))
    decreases |view|
  {
    hide LawfulCodec, UnpackPage, AbsPage, CleanPage, Storable;
    if view != [] {
      var n := |view| - 1;
      CleanAll(c, view[..n]);
      CleanSlots(c, view[n]);
      assert AbsPages(c.utf8, view)[..n] == AbsPages(c.utf8, view[..n]);
    }
  }

  lemma {:induction false} PackedLast(c: Codec, values: seq<Value>, slots: D.Page, key: string)
    requires PackedSlots(c, values, slots)
    ensures var v := LastValue(values, key);
            && (v.Some? ==> Storable(c, key, v.value))
            && D.LastInPage(slots, key) == if v.Some? then Some(D.Rec(key, c.dumps(v.value), -1)) else None
    decreases |values|
  {
    hide Storable;
    if values != [] { PackedLast(c, values[..|values| - 1], slots[..|slots| - 1], key); }
  }

  /**
   A table the router wrote is never refused for want of room, and answers every key after a
   compaction as before it.
   */
  lemma CleanCompacts(c: Codec, view: seq<Option<Page>>, now: D.Pages)
    requires LawfulCodec(c) && CleanView(c, view)
    ensures AllStorable(c, UnpackAll(c, view))
    ensures AsPacked(c, UnpackAll(c, view), now) ==>
              forall key :: D.LastRecord(now, key) == D.LastRecord(AbsPages(c.utf8, view), key)
  {
    hide LawfulCodec, CleanView, UnpackAll, AbsPages, D.Flat, D.LastRecord, D.LastInPage, LastValue, PackedSlots,
         Storable;
    var values, pages := UnpackAll(c, view), AbsPages(c.utf8, view);
    CleanAll(c, view);
    forall key
      ensures var v := LastValue(values, key);
              && (v.Some? ==> Storable(c, key, v.value))
              && D.LastRecord(pages, key) == if v.Some? then Some(D.Rec(key, c.dumps(v.value), -1)) else None
    {
      MemtableFlush.LastOfFlat(pages, key);
      PackedLast(c, values, D.Flat(pages), key);
    }
  }

  /** On such a table every record is one a scan accepts. */
  lemma CleanStrict(c: Codec, view: seq<Option<Page>>)
    requires LawfulCodec(c) && CleanView(c, view)
    ensures StrictPages(text => c.loads(text).Some?, AbsPages(c.utf8, view)) == AbsPages(c.utf8, view)
  {
    hide LawfulCodec, UnpackPage, AbsPage, CleanPage, Storable;
    var pages := AbsPages(c.utf8, view);
    forall p | 0 <= p < |pages| ensures StrictPage(text => c.loads(text).Some?, pages[p]) == pages[p] {
      CleanSlots(c, view[p]);
      forall i | 0 <= i < |pages[p]| && pages[p][i].Some? ensures c.loads(pages[p][i].value.text).Some? {
        ValueReadsBack(c, UnpackPage(c, view[p])[i].value.1);
      }
    }
  }

  lemma ValueReadsBack(c: Codec, v: Json)
    requires LawfulCodec(c)
    ensures c.loads(c.dumps(v)) == Some(v)
  {}
}
