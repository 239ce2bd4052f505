/**
 A table file of fixed-size pages and the cache of page objects over it.

 `view` is what a reader of the handler sees of each page: the cached object if there is one, else
 the page parsed from the file, `None` if the file's bytes are not an acceptable page.
 */
module TableFile {
  import opened Wrappers
  import opened Bytes
  import opened PageFormat
  import opened PagerModel

  datatype TableError = NegativeId | OutOfRange | Corrupted(fault: Fault)

  /** Bytes of page `id` of a file. */
  function PageBytes(file: Data, id: nat): (b: Data)
    requires (id + 1) * PAGE_SIZE <= |file|
    ensures |b| == PAGE_SIZE
  {
    file[id * PAGE_SIZE..(id + 1) * PAGE_SIZE]
  }

  /** `seek` and `write`: the bytes replace what is there and extend the file if they reach past its end. */
  function WriteAt(file: Data, at: nat, b: Data): (r: Data)
    requires at <= |file|
    ensures |r| == if at + |b| > |file| then at + |b| else |file|
  {
    file[..at] + b + (if at + |b| < |file| then file[at + |b|..] else [])
  }

  lemma WriteOnePage(file: Data, id: nat, b: Data, other: nat)
    requires id * PAGE_SIZE <= |file| && |b| == PAGE_SIZE
    ensures PageBytes(WriteAt(file, id * PAGE_SIZE, b), id) == b
    ensures other != id && (other + 1) * PAGE_SIZE <= |file| ==>
              (other + 1) * PAGE_SIZE <= |WriteAt(file, id * PAGE_SIZE, b)|
              && PageBytes(WriteAt(file, id * PAGE_SIZE, b), other) == PageBytes(file, other)
  {}

  /** Writing one page at its place changes that page only, and the file grows by at most that page. */
  lemma OnlyOnePage(file: Data, id: nat, b: Data)
    requires id <= |file| / PAGE_SIZE && |b| == PAGE_SIZE
    ensures var f := WriteAt(file, id * PAGE_SIZE, b); var total := |file| / PAGE_SIZE;
            && |f| / PAGE_SIZE == (if id < total then total else total + 1)
            && (id + 1) * PAGE_SIZE <= |f| && PageBytes(f, id) == b
            && (forall k: nat | k != id && (k + 1) * PAGE_SIZE <= |file| ::
                  (k + 1) * PAGE_SIZE <= |f| && PageBytes(f, k) == PageBytes(file, k))
  {
    forall k: nat | k != id && (k + 1) * PAGE_SIZE <= |file|
      ensures (k + 1) * PAGE_SIZE <= |WriteAt(file, id * PAGE_SIZE, b)|
      ensures PageBytes(WriteAt(file, id * PAGE_SIZE, b), k) == PageBytes(file, k)
    {
      WriteOnePage(file, id, b, k);
    }
    WriteOnePage(file, id, b, id);
  }

  lemma EmptyPage(p: Page)
    requires p.slots == [] && Packed(p)
    ensures Loaded(p) && Records(p) == []
  {}

  lemma PageId(page: Pager)
    requires page.Valid()
    ensures page.View().id == page.pageId && Loaded(page.View())
  {}

  /** A page and its image agree: what reading the file back gives is what the page shows. */
  ghost predicate InFile(file: Data, id: nat, p: Page, crc: Checksum) {
    Loaded(p) && (id + 1) * PAGE_SIZE <= |file| && PageBytes(file, id) == Image(p, crc)
  }

  /** Serialising a page into its own buffer does not change its image. */
  lemma ImageStable(p: Page, crc: Checksum)
    requires Loaded(p)
    ensures var q := p.(data := Image(p, crc)); Loaded(q) && Image(q, crc) == Image(p, crc) && Records(q) == Records(p)
  {
    ImageReadsBack(p, crc);
    ImageOfParsed(Image(p, crc), crc);
  }

  /** The pages a fresh handler finds in a file. */
  ghost function FileView(file: Data, crc: Checksum): (view: seq<Option<Page>>)
    ensures |view| == |file| / PAGE_SIZE
    ensures forall id | 0 <= id < |view| ::
              var raw := PageBytes(file, id);
              view[id] == if FirstFault(raw, crc) == None then Some(Parsed(raw, crc)) else None
  {
    seq(|file| / PAGE_SIZE, id requires 0 <= id < |file| / PAGE_SIZE =>
      if FirstFault(PageBytes(file, id), crc) == None then Some(Parsed(PageBytes(file, id), crc)) else None)
  }

  /** Every readable page carries its own position as its id. */
  ghost predicate Placed(view: seq<Option<Page>>) {
    forall id | 0 <= id < |view| && view[id].Some? :: view[id].value.id == id
  }

  /** A view of a file's pages: the cached ones are loaded pages, the others are what the bytes parse to. */
  ghost predicate ViewMatches(file: Data, view: seq<Option<Page>>, cached: set<nat>, crc: Checksum) {
    && |view| == |file| / PAGE_SIZE && |view| < 0x1_0000_0000
    && (forall id | 0 <= id < |view| && view[id].Some? :: Loaded(view[id].value) && view[id].value.id == id)
    && (forall id | 0 <= id < |view| && id !in cached ::
          var raw := PageBytes(file, id);
          view[id] == if FirstFault(raw, crc) == None then Some(Parsed(raw, crc)) else None)
  }

  /** Writing a page over its old bytes, and caching it, changes the view at that page only. */
  lemma WriteMatches(file: Data, view: seq<Option<Page>>, cached: set<nat>, crc: Checksum, id: nat, p: Page)
    requires ViewMatches(file, view, cached, crc) && id < |view| && Loaded(p) && p.id == id
    ensures ViewMatches(WriteAt(file, id * PAGE_SIZE, Image(p, crc)), view[id := Some(p)], cached + {id}, crc)
  {
    hide Loaded, FirstFault, Parsed, Image, PageBytes, WriteAt;
    OnlyOnePage(file, id, Image(p, crc));
  }

  lemma MoreCached(file: Data, view: seq<Option<Page>>, cached: set<nat>, crc: Checksum, id: nat)
    requires ViewMatches(file, view, cached, crc)
    ensures ViewMatches(file, view, cached + {id}, crc)
  {
    hide Loaded, FirstFault, Parsed, PageBytes;
  }

  /** Appending a cached page adds it to the view. */
  lemma AppendMatches(file: Data, view: seq<Option<Page>>, cached: set<nat>, crc: Checksum, p: Page)
    requires ViewMatches(file, view, cached, crc) && Loaded(p) && p.id == |view| && |view| + 1 < 0x1_0000_0000
    ensures ViewMatches(WriteAt(file, |view| * PAGE_SIZE, Image(p, crc)), view + [Some(p)], cached + {|view|}, crc)
  {
    hide Loaded, FirstFault, Parsed, Image, PageBytes, WriteAt;
    OnlyOnePage(file, |view|, Image(p, crc));
  }

  class TableHandler {
    const crc: Checksum
    var file: Data
    var pageCache: map<nat, Pager>

    ghost var view: seq<Option<Page>>

    function TotalPages(): nat
      reads this
    {
      |file| / PAGE_SIZE
    }

    ghost function Repr(): set<object>
      reads this
    {
      {this} + (set id | id in pageCache :: pageCache[id]) + (set id | id in pageCache :: pageCache[id].data)
    }

    /** Cached pages, but for one, are distinct objects, each showing its own page. */
    ghost predicate CacheOkBut(except: int)
      reads this, Repr()
    {
      && (forall id | id in pageCache && id != except ::
            id < |view| && pageCache[id].pageId == id && view[id] == Some(pageCache[id].View()))
      && (forall i, j | i in pageCache && j in pageCache && i != j && i != except && j != except ::
            pageCache[i] != pageCache[j] && pageCache[i].data != pageCache[j].data)
    }

    ghost predicate CacheOk()
      reads this, Repr()
    {
      CacheOkBut(-1)
    }

    ghost predicate ViewOk()
      reads this
    {
      ViewMatches(file, view, pageCache.Keys, crc)
    }

    ghost predicate Valid()
      reads this, Repr()
      ensures Valid() ==> |view| == TotalPages()
    {
      CacheOk() && ViewOk()
    }

    /** The file holds the page's current state. */
    ghost predicate Saved(id: nat)
      reads this`view, this`file
    {
      id < |view| && view[id].Some? && InFile(file, id, view[id].value, crc)
    }

    lemma Cached(id: nat)
      requires Valid() && id in pageCache
      ensures id < |view| && pageCache[id].pageId == id && pageCache[id].Valid()
              && view[id] == Some(pageCache[id].View())
      ensures forall k | k in pageCache && k != id ::
                pageCache[k] != pageCache[id] && pageCache[k].data != pageCache[id].data
    {
      hide Loaded;
    }

    lemma Uncached(id: nat)
      requires Valid() && id < |view| && id !in pageCache
      ensures var raw := PageBytes(file, id);
              view[id] == if FirstFault(raw, crc) == None then Some(Parsed(raw, crc)) else None
      ensures view[id].Some? ==> view[id].value.id == id
    {
      hide Loaded;
    }

    /** A page object parsed from the file enters the cache. */
    method Remember(id: nat, page: Pager)
      requires Valid() && id !in pageCache && id < |view| && page.pageId == id
      requires page.Valid() && view[id] == Some(page.View()) && page !in Repr() && page.data !in Repr()
      modifies this`pageCache
      ensures Valid() && pageCache == old(pageCache)[id := page] && Repr() <= old(Repr()) + {page, page.data}
    {
      hide Loaded, ViewMatches;
      MoreCached(file, view, pageCache.Keys, crc, id);
      pageCache := pageCache[id := page];
      assert pageCache.Keys == old(pageCache.Keys) + {id};
    }

    /** `read_page`: the cached object, or one parsed from the file, which is then cached. */
    method ReadPage(pageId: int) returns (r: Result<Pager, TableError>)
      requires Valid()
      modifies this`pageCache
      ensures Valid() && fresh(Repr() - old(Repr()))
      ensures pageId < 0 ==> r == Err(NegativeId)
      ensures pageId >= |view| ==> r == Err(OutOfRange)
      ensures 0 <= pageId < |view| ==> (r.Ok? <==> view[pageId].Some?)
      ensures r.Ok? ==> pageId in pageCache && pageCache[pageId] == r.value
      ensures r.Ok? ==> r.value.Valid() && view[pageId] == Some(r.value.View())
      ensures forall id | id in old(pageCache) :: id in pageCache && pageCache[id] == old(pageCache[id])
      ensures pageId in old(pageCache) ==> pageCache == old(pageCache)
    {
      hide FirstFault, Parsed, Loaded, Image, PageBytes, CacheOk, ViewMatches;
      if pageId in pageCache { Cached(pageId); }
      if pageId < 0 {
        return Err(NegativeId);
      }
      if pageId in pageCache {
        return Ok(pageCache[pageId]);
      }
      if pageId >= TotalPages() {
        return Err(OutOfRange);
      }
      Uncached(pageId);
      var raw := PageBytes(file, pageId);
      var page := Pager.FromBytes(raw, crc);
      assert Repr() == old(Repr());
      if page.Err? {
        return Err(Corrupted(page.error));
      }
      Remember(pageId, page.value);
      return Ok(page.value);
    }

    constructor (crc: Checksum, file: Data)
      requires |file| / PAGE_SIZE < 0x1_0000_0000
      requires Placed(FileView(file, crc))
      ensures Valid() && fresh(Repr()) && this.crc == crc && this.file == file && pageCache == map[]
      ensures view == FileView(file, crc)
      ensures forall k: nat | k < |view| && view[k].Some? :: Saved(k)
    {
      hide FirstFault, Parsed, Loaded, Image, PageBytes;
      this.crc, this.file, pageCache := crc, file, map[];
      view := FileView(file, crc);
      new;
      forall id | 0 <= id < |view| && view[id].Some? ensures Loaded(view[id].value) {
        ParsedLoaded(PageBytes(file, id), crc);
      }
      forall k: nat | k < |view| && view[k].Some? ensures Saved(k) {
        ImageOfParsed(PageBytes(file, k), crc);
      }
    }

    /** Seeks to the page's place and writes its image there. */
    method Store(page: Pager)
      requires page.Valid() && page.pageId * PAGE_SIZE <= |file|
      modifies this`file, page.data
      ensures page.Valid() && Records(page.View()) == old(Records(page.View()))
      ensures page.View() == old(page.View()).(data := page.data[..])
      ensures file == WriteAt(old(file), page.pageId * PAGE_SIZE, Image(page.View(), crc))
    {
      hide Image, Records, Loaded;
      ImageStable(page.View(), crc);
      var raw := page.ToBytes(crc);
      file := WriteAt(file, page.pageId * PAGE_SIZE, raw);
    }

    /** A new page object enters the cache behind the last page. */
    method EnterPage(page: Pager)
      requires CacheOk() && page.Valid() && page.pageId == |view|
      requires page !in Repr() && page.data !in Repr()
      modifies this`pageCache, this`view
      ensures CacheOk() && Repr() <= old(Repr()) + {page, page.data}
      ensures pageCache == old(pageCache)[page.pageId := page] && view == old(view) + [Some(page.View())]
    {
      hide Loaded;
      pageCache := pageCache[page.pageId := page];
      view := view + [Some(page.View())];
    }

    /** `allocate_page`: an empty page appended to the file and entered into the cache. */
    method AllocatePage() returns (id: nat)
      requires Valid() && |view| + 1 < 0x1_0000_0000
      modifies this
      ensures Valid() && fresh(Repr() - old(Repr()))
      ensures id == |old(view)| && id in pageCache && pageCache[id].Valid() && fresh(pageCache[id])
              && fresh(pageCache[id].data)
      ensures view == old(view) + [Some(pageCache[id].View())]
      ensures Records(pageCache[id].View()) == [] && pageCache[id].FreeSpace() == PAGE_SIZE - HEADER_SIZE
      ensures var p := pageCache[id].View();
              p.id == id && p.flags == 0 && p.lower == 20 && p.upper == 4096 && p.slots == []
      ensures pageCache == old(pageCache)[id := pageCache[id]] && |view| == |old(view)| + 1
      ensures Saved(id) && forall k: nat | k < id && old(Saved(k)) :: Saved(k)
    {
      hide FirstFault, Parsed, Image, PageBytes, WriteAt, Loaded, Records, Packed, ViewMatches;
      id := TotalPages();
      var page := new Pager(id, 0);
      EmptyPage(page.View());
      Store(page);
      PageId(page);
      AppendMatches(old(file), view, pageCache.Keys, crc, page.View());
      OnlyOnePage(old(file), id, Image(page.View(), crc));
      EnterPage(page);
      assert pageCache.Keys == old(pageCache.Keys) + {id};
    }

    /** Storing a page disturbs no other cached page. */
    method StoreAside(page: Pager)
      requires CacheOk() && page.Valid() && page.pageId * PAGE_SIZE <= |file|
      requires forall id | id in pageCache && id != page.pageId ::
                 pageCache[id] != page && pageCache[id].data != page.data
      modifies this`file, page.data
      ensures CacheOkBut(page.pageId) && page.Valid() && Records(page.View()) == old(Records(page.View()))
      ensures page.View() == old(page.View()).(data := page.data[..])
      ensures file == WriteAt(old(file), page.pageId * PAGE_SIZE, Image(page.View(), crc))
    {
      hide Image, Records, Loaded, WriteAt;
      Store(page);
    }

    /** A page object takes its place in the cache, over any other of its id. */
    method Recache(page: Pager)
      requires CacheOkBut(page.pageId) && page.Valid() && page.pageId < |view|
      requires forall id | id in pageCache && id != page.pageId ::
                 pageCache[id] != page && pageCache[id].data != page.data
      modifies this`pageCache, this`view
      ensures CacheOk() && Repr() <= old(Repr()) + {page, page.data}
      ensures pageCache == old(pageCache)[page.pageId := page] && view == old(view)[page.pageId := Some(page.View())]
    {
      hide Loaded;
      pageCache := pageCache[page.pageId := page];
      view := view[page.pageId := Some(page.View())];
    }

    /** `write_page`: the page becomes the cached object of its id and its image goes to the file. */
    method WritePage(page: Pager) returns (r: Result<(), TableError>)
      requires Valid() && page.Valid()
      requires forall id | id in pageCache && id != page.pageId ::
                 pageCache[id] != page && pageCache[id].data != page.data
      modifies this, page.data
      ensures Valid()
      ensures r == if page.pageId < |old(view)| then Ok(()) else Err(OutOfRange)
      ensures r.Err? ==> file == old(file) && view == old(view) && pageCache == old(pageCache)
      ensures r.Ok? ==> pageCache == old(pageCache)[page.pageId := page]
      ensures page.Valid() && Repr() <= old(Repr()) + {page, page.data}
      ensures r.Ok? ==> view == old(view)[page.pageId := Some(page.View())]
      ensures r.Ok? ==> Records(page.View()) == old(Records(page.View()))
      ensures r.Ok? ==> page.View() == old(page.View()).(data := page.data[..])
      ensures r.Ok? ==> Saved(page.pageId)
      ensures forall k: nat | k != page.pageId && old(Saved(k)) :: Saved(k)
    {
      hide FirstFault, Parsed, Image, PageBytes, WriteAt, Loaded, Records, Packed, ViewMatches, CacheOkBut;
      if page.pageId >= TotalPages() {
        return Err(OutOfRange);
      }
      PageId(page);
      StoreAside(page);
      PageId(page);
      WriteMatches(old(file), view, pageCache.Keys, crc, page.pageId, page.View());
      OnlyOnePage(old(file), page.pageId, Image(page.View(), crc));
      Recache(page);
      assert pageCache.Keys == old(pageCache.Keys) + {page.pageId};
      return Ok(());
    }

    /** `insert_record` on a cached page: every reader of the handler sees the record at once, the file does not. */
    method InsertCached(page: Pager, payload: Data) returns (r: Result<nat, PageError>)
      requires Valid() && page.pageId in pageCache && pageCache[page.pageId] == page
      modifies page, page.data, this`view
      ensures Valid() && page.Valid() && view == old(view)[page.pageId := Some(page.View())]
      ensures r == if payload == [] then Err(EmptyPayload)
                   else if old(page.FreeSpace()) < SLOT_SIZE + |payload| then Err(PageOverflow)
                   else Ok(|old(page.slots)|)
      ensures r.Ok? ==> Records(page.View()) == old(Records(page.View())) + [Some(payload)]
      ensures r.Ok? ==> page.FreeSpace() == old(page.FreeSpace()) - SLOT_SIZE - |payload|
      ensures forall k: nat | k != page.pageId && old(Saved(k)) :: Saved(k)
    {
      hide FirstFault, Parsed, Image, PageBytes, Loaded, Records, Packed, Inserted;
      PageId(page);
      r := page.InsertRecord(payload);
      PageId(page);
      view := view[page.pageId := Some(page.View())];
    }
  }
}
