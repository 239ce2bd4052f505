/**
 What a crash can leave of a table file while a flush is being written, and what a restart reads from it.

 Page images reach the file one by one. Each page of the file is found as it was at the last sync or as the flush
 wrote it; a page the flush added can also be found empty, as it was allocated, or not at all.
 */
module CrashPages {
  import opened Wrappers
  import opened Bytes
  import opened PageFormat
  import opened TableFile
  import opened TableFlush
  import opened Records
  import D = DiskPages

  /** The records a restart finds in one page of a file. */
  ghost function AbsBytes(utf8: Utf8, crc: Checksum, raw: Data): D.Page {
    if FirstFault(raw, crc) == None then AbsPage(utf8, Some(Parsed(raw, crc))) else []
  }

  /** The records a restart finds in a file. */
  ghost function AbsFile(utf8: Utf8, crc: Checksum, file: Data): (pages: D.Pages)
    ensures |pages| == |file| / PAGE_SIZE
    ensures forall id | 0 <= id < |pages| :: pages[id] == AbsBytes(utf8, crc, PageBytes(file, id))
  {
    seq(|file| / PAGE_SIZE, id requires 0 <= id < |file| / PAGE_SIZE => AbsBytes(utf8, crc, PageBytes(file, id)))
  }

  /** `c` is a mixture of the synced file and the written one, page by page. */
  ghost predicate Mixture(utf8: Utf8, crc: Checksum, synced: Data, c: Data, written: Data) {
    && |synced| / PAGE_SIZE <= |c| / PAGE_SIZE <= |written| / PAGE_SIZE
    && forall id | 0 <= id < |c| / PAGE_SIZE :: PageMixed(utf8, crc, synced, c, written, id)
  }

  ghost predicate PageMixed(utf8: Utf8, crc: Checksum, synced: Data, c: Data, written: Data, id: nat)
    requires id < |c| / PAGE_SIZE <= |written| / PAGE_SIZE
  {
    || PageBytes(c, id) == PageBytes(written, id)
    || (if id < |synced| / PAGE_SIZE then PageBytes(c, id) == PageBytes(synced, id)
        else AbsBytes(utf8, crc, PageBytes(c, id)) == [])
  }

  /** A page that is in the file as the handler shows it reads back as shown. */
  lemma SavedReads(h: TableHandler, utf8: Utf8, id: nat)
    requires h.Valid() && SavedBut(h, -1) && id < |h.view|
    ensures AbsBytes(utf8, h.crc, PageBytes(h.file, id)) == AbsPage(utf8, h.view[id])
  {
    hide FirstFault, Parsed, Image, Loaded, PageFormat.Records, TableHandler.CacheOk, PageBytes;
    if h.view[id].Some? {
      assert h.Saved(id);
      var p := h.view[id].value;
      ImageReadsBack(p, h.crc);
      ParsedLoaded(PageBytes(h.file, id), h.crc);
    } else {
      if id in h.pageCache { h.Cached(id); }
      h.Uncached(id);
    }
  }

  lemma SavedShows(h: TableHandler, utf8: Utf8)
    requires h.Valid() && SavedBut(h, -1)
    ensures AbsPages(utf8, h.view) == AbsFile(utf8, h.crc, h.file)
  {
    hide TableHandler.Valid, SavedBut, AbsPage, AbsBytes, PageBytes;
    HandlerPages(h);
    forall id | 0 <= id < |h.view| ensures AbsBytes(utf8, h.crc, PageBytes(h.file, id)) == AbsPage(utf8, h.view[id]) {
      SavedReads(h, utf8, id);
    }
  }

  lemma HandlerPages(h: TableHandler)
    requires h.Valid()
    ensures |h.view| == |h.file| / PAGE_SIZE
  {
    hide TableHandler.CacheOk, TableHandler.ViewOk;
  }

  /** Nothing that was there has moved: each page only gained records. */
  ghost predicate Grown(before: D.Pages, now: D.Pages) {
    |before| <= |now| && forall p | 0 <= p < |before| :: before[p] <= now[p]
  }

  /** Whatever mixture a crash leaves, every page shows at least what was synced and at most what was written. */
  lemma MixtureBetween(utf8: Utf8, crc: Checksum, synced: Data, c: Data, written: Data)
    requires Grown(AbsFile(utf8, crc, synced), AbsFile(utf8, crc, written)) && Mixture(utf8, crc, synced, c, written)
    ensures D.Between(AbsFile(utf8, crc, synced), AbsFile(utf8, crc, c), AbsFile(utf8, crc, written))
  {
    hide AbsBytes, PageBytes;
    var a, m, b := AbsFile(utf8, crc, synced), AbsFile(utf8, crc, c), AbsFile(utf8, crc, written);
    forall p | 0 <= p < |m| ensures (p < |a| ==> a[p] <= m[p]) && m[p] <= b[p] {
      assert PageMixed(utf8, crc, synced, c, written, p);
    }
  }

  /** Every mixture of two files shows pages between those that `before` and `now` list. */
  ghost predicate CrashShows(utf8: Utf8, crc: Checksum, synced: Data, written: Data, before: D.Pages, now: D.Pages) {
    forall c | Mixture(utf8, crc, synced, c, written) :: D.Between(before, AbsFile(utf8, crc, c), now)
  }

  lemma FilesShow(utf8: Utf8, crc: Checksum, synced: Data, written: Data)
    requires Grown(AbsFile(utf8, crc, synced), AbsFile(utf8, crc, written))
    ensures CrashShows(utf8, crc, synced, written, AbsFile(utf8, crc, synced), AbsFile(utf8, crc, written))
  {
    hide Mixture, D.Between, AbsFile, Grown;
    forall c | Mixture(utf8, crc, synced, c, written)
      ensures D.Between(AbsFile(utf8, crc, synced), AbsFile(utf8, crc, c), AbsFile(utf8, crc, written))
    {
      MixtureBetween(utf8, crc, synced, c, written);
    }
  }
}
