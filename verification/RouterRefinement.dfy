/** The router's disk map is what its pages say: a flush of real pages is the map update the router model makes. */
module RouterRefinement {
  import opened Wrappers
  import opened Bytes
  import opened Records
  import opened Json
  import opened RouterModel
  import opened TableFlush
  import MemtableFlush
  import D = DiskPages

  /** The map lists the live texts a scan of the pages finds. */
  ghost predicate ShowsDisk(disk: map<string, string>, pages: D.Pages) {
    forall k :: D.ScanRead(pages, k) == if k in disk then Some(disk[k]) else None
  }

  /** A packed record has one text. */
  lemma OneText(c: Codec, key: string, payload: Data)
    requires LawfulCodec(c) && Packs(c, key, payload) && GoodEntry(c.utf8, key, payload)
    ensures EntryText(c.utf8, key, payload) == TextOf(c, key, payload)
  {
    hide LawfulUtf8;
    var v :| Ascii(c.dumps(v)) && Pack(c.utf8, key, c.dumps(v)) == Some(payload);
    PackUnpacks(c, key, v);
    PackReadsBack(c.utf8, key, c.dumps(v));
    PackReadsBack(c.utf8, key, EntryText(c.utf8, key, payload));
  }

  /** After the page-level flush of a memtable, the router's updated disk map shows the new pages. */
  lemma FlushShows(c: Codec, disk: map<string, string>, m: Memtable, before: D.Pages, now: D.Pages)
    requires LawfulCodec(c) && MemtableOk(c, m) && forall k | k in m :: GoodEntry(c.utf8, k, m[k])
    requires ShowsDisk(disk, before) && MemtableFlush.ReadsThrough(c.utf8, before, now, m)
    ensures ShowsDisk(DiskAfter(c, disk, m), now)
  {
    hide LawfulCodec, Packs, GoodEntry, D.ScanRead, TextOf;
    forall k ensures D.ScanRead(now, k) == if k in DiskAfter(c, disk, m) then Some(DiskAfter(c, disk, m)[k]) else None {
      if k in m {
        OneText(c, k, m[k]);
      }
    }
  }

  /** What `Set` keeps of its memtables is what a flush asks of them: no record overflows a fresh page. */
  lemma FlushableEntries(c: Codec, m: Memtable)
    requires MemtableOk(c, m) && FitsPages(m)
    ensures forall k | k in m :: GoodEntry(c.utf8, k, m[k])
  {
    forall k | k in m ensures GoodEntry(c.utf8, k, m[k]) {
      var v :| Ascii(c.dumps(v)) && Pack(c.utf8, k, c.dumps(v)) == Some(m[k]);
    }
  }

  /** The bytes of a text that shows each byte as one character. */
  function ShownBytes(text: string): Option<Data> {
    if forall i | 0 <= i < |text| :: text[i] as int < 256
    then Some(seq(|text|, i requires 0 <= i < |text| => text[i] as int as Byte)) else None
  }

  /** Behind these bytes there is a JSON value. */
  predicate HoldsJson(c: Codec, text: string) {
    var b := ShownBytes(text);
    b.Some? && c.utf8.decode(b.value).Some? && c.loads(c.utf8.decode(b.value).value).Some?
  }

  /** The records that a scan of the disk accepts are those that `_unpack_record` accepts, whatever their bytes are. */
  lemma StrictUnpacks(c: Codec, payload: Data)
    requires LawfulCodec(c)
    ensures var slot := StrictSlot(text => HoldsJson(c, text), ReadRecord(c.utf8, payload));
            && (slot.Some? <==> Unpack(c, payload).Some?)
            && (slot.Some? ==> slot.value.key == Unpack(c, payload).value.0)
    ensures !HoldsJson(c, "") && HoldsJson(c, D.TOMBSTONE)
  {
    NoText(c);
    if |payload| >= 2 {
      var end := KeyEnd(payload);
      ShownBack(payload[end..]);
      assert payload[end..] == [] ==> BytesText(payload[end..]) == "";
    }
  }

  lemma ShownBack(b: Data)
    ensures ShownBytes(BytesText(b)) == Some(b)
  {
    var text := BytesText(b);
    assert forall i | 0 <= i < |text| :: text[i] as int == b[i] as int < 256;
    assert ShownBytes(text).value == b;
  }

  lemma NoText(c: Codec)
    requires LawfulCodec(c)
    ensures !HoldsJson(c, "") && HoldsJson(c, D.TOMBSTONE)
  {
    assert ShownBytes("") == Some([]);
    assert "" + "" == "";
    assert c.utf8.encode("") == c.utf8.encode("") + c.utf8.encode("");
    assert c.utf8.decode(c.utf8.encode("")) == Some("");
    assert c.loads(c.dumps(Null)) == Some(Null);
    assert Ascii("null") && c.utf8.encode("null") == TextBytes("null");
    assert ShownBytes("null") == Some(TextBytes("null"));
    assert c.utf8.decode(c.utf8.encode("null")) == Some("null");
  }
}
