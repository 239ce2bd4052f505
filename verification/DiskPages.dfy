/**
 A table on disk, as the sequence of records in each page slot, and the index over it.

 Later positions are newer: the last record of a key decides. `_init_disk_index` scans forwards
 and keeps a position per live key; `_read_from_disk` falls back to scanning backwards.
 */
module DiskPages {
  import opened Wrappers

  /** A stored record; `ver` is the write it came from (-1 for one that was there before). */
  datatype Rec = Rec(key: string, text: string, ver: int)

  /** One slot: `None` when it has been deleted or holds no readable record. */
  type Slot = Option<Rec>

  type Page = seq<Slot>
  type Pages = seq<Page>
  type Position = (nat, nat)
  type Index = map<string, Position>

  /** A deletion stores the JSON text `null`. */
  const TOMBSTONE := "null"

  // ---------------------------------------------------------------------------------------
  // Backward scan

  function LastInPage(page: Page, key: string): (r: Option<Rec>)
    ensures r.Some? ==> r in page && r.value.key == key
  {
    if page == [] then None
    else if page[|page| - 1].Some? && page[|page| - 1].value.key == key then page[|page| - 1]
    else LastInPage(page[..|page| - 1], key)
  }

  function LastRecord(pages: Pages, key: string): (r: Option<Rec>)
    ensures r.Some? ==> r.value.key == key && exists p :: 0 <= p < |pages| && r in pages[p]
  {
    if pages == [] then None
    else
      var r := LastInPage(pages[|pages| - 1], key);
      if r.Some? then r else LastRecord(pages[..|pages| - 1], key)
  }

  /** One page of the backward scan. */
  lemma LastStep(pages: Pages, n: nat, key: string)
    requires n < |pages|
    ensures LastRecord(pages[..n + 1], key)
         == if LastInPage(pages[n], key).Some? then LastInPage(pages[n], key) else LastRecord(pages[..n], key)
    ensures LastRecord(pages[..0], key) == None && pages[..|pages|] == pages
  {
    assert pages[..n + 1][..n] == pages[..n];
  }

  /** What a reader sees of a stored text: a tombstone is nothing. */
  function Seen(text: string): Option<string> {
    if text == TOMBSTONE then None else Some(text)
  }

  /** What the backward scan returns for a key. */
  function ScanRead(pages: Pages, key: string): Option<string> {
    var r := LastRecord(pages, key);
    if r.Some? then Seen(r.value.text) else None
  }

  // ---------------------------------------------------------------------------------------
  // Forward index

  function IndexRecord(index: Index, r: Slot, at: Position): Index {
    if r == None then index
    else if r.value.text == TOMBSTONE then index - {r.value.key}
    else index[r.value.key := at]
  }

  function IndexPage(index: Index, page: Page, pid: nat): Index
    decreases |page|
  {
    if page == [] then index
    else IndexRecord(IndexPage(index, page[..|page| - 1], pid), page[|page| - 1], (pid, |page| - 1))
  }

  /** `_init_disk_index`: every page, every slot, in order. */
  function Rebuild(pages: Pages): Index
    decreases |pages|
  {
    if pages == [] then map[]
    else IndexPage(Rebuild(pages[..|pages| - 1]), pages[|pages| - 1], |pages| - 1)
  }

  /** One page of the forward pass. */
  lemma RebuildStep(pages: Pages, n: nat)
    requires n < |pages|
    ensures Rebuild(pages[..n + 1]) == IndexPage(Rebuild(pages[..n]), pages[n], n)
    ensures Rebuild(pages[..0]) == map[] && pages[..|pages|] == pages
  {
    assert pages[..n + 1][..n] == pages[..n];
  }

  lemma IndexNothing(index: Index, pid: nat)
    ensures IndexPage(index, [], pid) == index
  {}

  /** An indexed read: one page, one slot. */
  function IndexedRead(pages: Pages, index: Index, key: string): Option<string> {
    if key in index && index[key].0 < |pages| && index[key].1 < |pages[index[key].0]|
    then
      var slot := pages[index[key].0][index[key].1];
      if slot.Some? then Seen(slot.value.text) else None
    else None
  }

  // ---------------------------------------------------------------------------------------
  // The index and the scan agree

  ghost predicate PointsAt(pages: Pages, at: Position, r: Rec) {
    at.0 < |pages| && at.1 < |pages[at.0]| && pages[at.0][at.1] == Some(r)
  }

  lemma {:induction false} IndexPageCorrect(index: Index, page: Page, pid: nat, key: string)
    ensures var i, r := IndexPage(index, page, pid), LastInPage(page, key);
            if r.None? then (key in i <==> key in index) && (key in i ==> i[key] == index[key])
            else (key in i <==> r.value.text != TOMBSTONE)
                 && (key in i ==> i[key].0 == pid && i[key].1 < |page| && page[i[key].1] == r)
    decreases |page|
  {
    if page != [] {
      IndexPageCorrect(index, page[..|page| - 1], pid, key);
    }
  }

  /** A key is indexed exactly when its last record is live, and its entry is that record's place. */
  lemma {:induction false} RebuildCorrect(pages: Pages, key: string)
    ensures var i, r := Rebuild(pages), LastRecord(pages, key);
            && (key in i <==> r.Some? && r.value.text != TOMBSTONE)
            && (key in i ==> PointsAt(pages, i[key], r.value))
    decreases |pages|
  {
    if pages != [] {
      RebuildCorrect(pages[..|pages| - 1], key);
      IndexPageCorrect(Rebuild(pages[..|pages| - 1]), pages[|pages| - 1], |pages| - 1, key);
    }
  }

  /** The indexed read returns what the full backward scan returns, tombstones included. */
  lemma IndexedReadIsScan(pages: Pages, key: string)
    ensures IndexedRead(pages, Rebuild(pages), key) == ScanRead(pages, key)
  {
    RebuildCorrect(pages, key);
  }

  // ---------------------------------------------------------------------------------------
  // Appending

  function AddPage(pages: Pages): Pages { pages + [[]] }

  function Append(pages: Pages, r: Rec): Pages
    requires pages != []
  {
    pages[|pages| - 1 := pages[|pages| - 1] + [Some(r)]]
  }

  lemma AddPageKeeps(pages: Pages, key: string)
    ensures Rebuild(AddPage(pages)) == Rebuild(pages)
    ensures LastRecord(AddPage(pages), key) == LastRecord(pages, key)
  {
    assert AddPage(pages)[..|pages|] == pages;
  }

  /** Placing a record changes the rebuilt index and the scan for its own key only. */
  lemma AppendIndexes(pages: Pages, r: Rec, key: string)
    requires pages != []
    ensures Rebuild(Append(pages, r)) == IndexRecord(Rebuild(pages), Some(r), (|pages| - 1, |pages[|pages| - 1]|))
    ensures LastRecord(Append(pages, r), key) == if key == r.key then Some(r) else LastRecord(pages, key)
  {
    var n := |pages| - 1;
    var page, page' := pages[n], pages[n] + [Some(r)];
    assert Append(pages, r)[..n] == pages[..n] && page'[..|page|] == page;
  }

  /** All slots of a table, oldest first. */
  function Flat(pages: Pages): seq<Slot> {
    if pages == [] then [] else Flat(pages[..|pages| - 1]) + pages[|pages| - 1]
  }

  lemma FlatAddPage(pages: Pages)
    ensures Flat(AddPage(pages)) == Flat(pages)
  {
    assert AddPage(pages)[..|pages|] == pages;
  }

  lemma FlatAppend(pages: Pages, r: Rec)
    requires pages != []
    ensures Flat(Append(pages, r)) == Flat(pages) + [Some(r)]
  {
    assert Append(pages, r)[..|pages| - 1] == pages[..|pages| - 1];
  }

  /** What the flush does at its end: pop the deleted keys, then update with the stored positions. */
  function ApplyPending(index: Index, deletions: set<string>, updates: Index): Index {
    (index - deletions) + updates
  }

  /** One more placed record is one more pending change, as long as its key has none yet. */
  lemma PendingStep(index: Index, deletions: set<string>, updates: Index, r: Rec, at: Position)
    requires r.key !in deletions && r.key !in updates
    ensures IndexRecord(ApplyPending(index, deletions, updates), Some(r), at)
         == if r.text == TOMBSTONE then ApplyPending(index, deletions + {r.key}, updates)
            else ApplyPending(index, deletions, updates[r.key := at])
  {}

  // ---------------------------------------------------------------------------------------
  // What a crash can leave of a table

  /** `c` holds, page by page, at least what `synced` holds and at most what `pages` holds. */
  ghost predicate Between(synced: Pages, c: Pages, pages: Pages) {
    && |synced| <= |c| <= |pages|
    && (forall p | 0 <= p < |synced| :: synced[p] <= c[p])
    && (forall p | 0 <= p < |c| :: c[p] <= pages[p])
  }

  ghost predicate AllIn(slots: Page, recent: set<Rec>) {
    forall r | r in slots :: r.Some? && r.value in recent
  }

  /** Everything in `c` that is not in `synced` is one of the `recent` records. */
  ghost predicate Extends(synced: Pages, c: Pages, recent: set<Rec>) {
    && |synced| <= |c|
    && (forall p | 0 <= p < |synced| :: synced[p] <= c[p] && AllIn(c[p][|synced[p]|..], recent))
    && (forall p | |synced| <= p < |c| :: AllIn(c[p], recent))
  }

  lemma AllInPrefix(a: Page, b: Page, from: nat, recent: set<Rec>)
    requires a <= b && from <= |a| && AllIn(b[from..], recent)
    ensures AllIn(a[from..], recent)
  {
    assert a[from..] <= b[from..];
    assert forall i | 0 <= i < |a[from..]| :: b[from..][i] == a[from..][i];
  }

  lemma BetweenExtends(synced: Pages, c: Pages, pages: Pages, recent: set<Rec>)
    requires Between(synced, c, pages) && Extends(synced, pages, recent)
    ensures Extends(synced, c, recent)
  {
    forall p | 0 <= p < |synced| ensures AllIn(c[p][|synced[p]|..], recent) {
      AllInPrefix(c[p], pages[p], |synced[p]|, recent);
    }
    forall p | |synced| <= p < |c| ensures AllIn(c[p], recent) {
      assert pages[p][0..] == pages[p] && c[p][0..] == c[p];
      AllInPrefix(c[p], pages[p], 0, recent);
    }
  }

  lemma {:induction false} LastInExtension(a: Page, b: Page, key: string, recent: set<Rec>)
    requires a <= b && AllIn(b[|a|..], recent)
    ensures var r := LastInPage(b, key); r == LastInPage(a, key) || (r.Some? && r.value in recent)
    decreases |b|
  {
    if |b| > |a| {
      var b' := b[..|b| - 1];
      assert b[|b| - 1] in b[|a|..];
      AllInPrefix(b', b, |a|, recent);
      LastInExtension(a, b', key, recent);
    } else {
      assert a == b;
    }
  }

  /** In an extension, a key's last record is the one it had, or a recent one. */
  lemma {:induction false} LastExtends(synced: Pages, c: Pages, key: string, recent: set<Rec>)
    requires Extends(synced, c, recent)
    ensures var r := LastRecord(c, key); r == LastRecord(synced, key) || (r.Some? && r.value in recent)
    decreases |c|
  {
    if c != [] {
      var n := |c| - 1;
      if |c| > |synced| {
        LastExtends(synced, c[..n], key, recent);
      } else {
        LastInExtension(synced[n], c[n], key, recent);
        LastExtends(synced[..n], c[..n], key, recent);
      }
    }
  }

  lemma ExtendsRefl(pages: Pages, recent: set<Rec>)
    ensures Extends(pages, pages, recent)
  {}

  lemma ExtendsAddPage(synced: Pages, pages: Pages, recent: set<Rec>)
    requires Extends(synced, pages, recent)
    ensures Extends(synced, AddPage(pages), recent)
  {}

  lemma ExtendsAppend(synced: Pages, pages: Pages, recent: set<Rec>, r: Rec)
    requires Extends(synced, pages, recent) && pages != [] && r in recent
    ensures Extends(synced, Append(pages, r), recent)
  {
    var n, pages' := |pages| - 1, Append(pages, r);
    if n < |synced| {
      assert pages'[n][|synced[n]|..] == pages[n][|synced[n]|..] + [Some(r)];
    }
  }
}
