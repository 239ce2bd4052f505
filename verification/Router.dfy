/**
 The router's record operations on one table: memtables, disk and the cache in front of them.

 The memtables are the maps that `BTreeMemTable` is proved to be and the disk is the map of live texts
 that `MemtableFlush` is proved to keep; the cache is the `Cache` object itself. `Merged` is the store
 all three amount to, and callers see `Observe` of it.
 */
module RouterModel {
  import opened Wrappers
  import opened Bytes
  import opened Records
  import opened Json
  import opened ChunkStore
  import LfuCache
  import PageFormat

  datatype SetError = EmptyKey | KeyTooLong | NoRecords

  // ---------------------------------------------------------------------------------------
  // Packed records

  /** `_unpack_record`. */
  function Unpack(c: Codec, payload: Data): Option<(string, Json)> {
    if |payload| < 2 then None
    else
      var end := 2 + Get16(payload[..2]);
      if |payload| < end + 1 then None
      else
        var key, text := c.utf8.decode(payload[2..end]), c.utf8.decode(payload[end..]);
        if key.None? || text.None? then None
        else
          var v := c.loads(text.value);
          if v.None? then None else Some((key.value, v.value))
  }

  /** `payload` is the packed form of some value under `key`. */
  ghost predicate Packs(c: Codec, key: string, payload: Data) {
    exists v :: Ascii(c.dumps(v)) && Pack(c.utf8, key, c.dumps(v)) == Some(payload)
  }

  function Unpacked(c: Codec, payload: Data): Json {
    var r := Unpack(c, payload);
    if r.None? then Null else r.value.1
  }

  /** The value's text inside a packed record. */
  function TextOf(c: Codec, key: string, payload: Data): string {
    var end := 2 + |c.utf8.encode(key)|;
    BytesText(if end < |payload| then payload[end..] else [])
  }

  /** A packed value comes back, with its key, and its text sits behind the key. */
  lemma PackUnpacks(c: Codec, key: string, v: Json)
    requires LawfulCodec(c) && Ascii(c.dumps(v)) && Pack(c.utf8, key, c.dumps(v)).Some?
    ensures var payload := Pack(c.utf8, key, c.dumps(v)).value;
            Unpack(c, payload) == Some((key, v)) && TextOf(c, key, payload) == c.dumps(v)
  {
    var k, text := c.utf8.encode(key), c.dumps(v);
    var payload := Pack(c.utf8, key, text).value;
    assert payload[..2] == U16(|k|);
    Get16U16(|k|);
    assert payload[2..2 + |k|] == k && payload[2 + |k|..] == TextBytes(text);
    assert c.loads(text) == Some(v);
    assert text != "";
    assert c.utf8.decode(c.utf8.encode(text)) == Some(text);
    TextRoundTrip(text);
  }

  /** Which bytes unpack, and to what: at least one byte of text behind the key, and all of it JSON. */
  lemma UnpackLayout(c: Codec, payload: Data, key: string, v: Json)
    ensures Unpack(c, payload) == Some((key, v)) <==>
            && |payload| >= 3 && 2 + Number(payload[..2]) < |payload|
            && var end := 2 + Number(payload[..2]);
               && c.utf8.decode(payload[2..end]) == Some(key)
               && exists text :: c.utf8.decode(payload[end..]) == Some(text) && c.loads(text) == Some(v)
  {
    hide U16, Number, Get16;
    if |payload| >= 2 {
      BigEndian(Get16(payload[..2]));
      U16Get16(payload[..2]);
    }
  }

  type Memtable = map<string, Data>

  ghost predicate MemtableOk(c: Codec, m: Memtable) {
    forall k | k in m :: Packs(c, k, m[k])
  }

  /** Every record of the memtable has a page to go to when it is flushed. */
  ghost predicate FitsPages(m: Memtable) {
    forall k | k in m :: |m[k]| <= PageFormat.ROOM
  }

  /** The chunks a stored value counts. */
  function StoredChunks(v: Json): nat {
    if IsManifest(v) && ChunkCount(v).Some? then ChunkCount(v).value else 0
  }

  /** The chunk keys `0` to `n - 1` of a record leave room for a full chunk. */
  ghost predicate KeyFits(c: Codec, key: string, n: nat) {
    forall i: nat | i < n :: |c.utf8.encode(key)| + |Digits(i)| <= 1389
  }

  /** The chunk keys `0` to `n - 1` of a record can be packed at all. */
  ghost predicate ChunkKeysPack(c: Codec, key: string, n: nat) {
    forall i: nat | i < n :: |c.utf8.encode(ChunkKey(key, i))| <= MAX_KEY_BYTES
  }

  /** No chunk below `n` is left behind that the stored value does not count. */
  ghost predicate NoOrphans(s: Store, key: string, n: nat) {
    forall i: nat | StoredChunks(At(s, key)) <= i < n :: At(s, ChunkKey(key, i)) == Null
  }

  /** The disk holds texts of values that are not null. */
  ghost predicate DiskOk(c: Codec, disk: map<string, string>) {
    forall k | k in disk :: exists v :: v != Null && disk[k] == c.dumps(v)
  }

  function DiskValue(c: Codec, text: string): Json {
    var v := c.loads(text);
    if v.None? then Null else v.value
  }

  /** Active memtable, then the one being flushed, then disk. */
  function Value(c: Codec, active: Memtable, immutable: Option<Memtable>, disk: map<string, string>,
                 key: string): Json {
    if key in active then Unpacked(c, active[key])
    else if immutable.Some? && key in immutable.value then Unpacked(c, immutable.value[key])
    else if key in disk then DiskValue(c, disk[key])
    else Null
  }

  ghost function Merge(c: Codec, active: Memtable, immutable: Option<Memtable>, disk: map<string, string>): (s: Store)
    ensures forall k :: At(s, k) == Value(c, active, immutable, disk, k)
    ensures forall k | k in s :: s[k] != Null
  {
    var keys := active.Keys + (if immutable.Some? then immutable.value.Keys else {}) + disk.Keys;
    map k | k in keys && Value(c, active, immutable, disk, k) != Null :: Value(c, active, immutable, disk, k)
  }

  /** What a finished flush leaves on disk: the flushed texts over the old ones, deletions gone. */
  function DiskAfter(c: Codec, disk: map<string, string>, m: Memtable): map<string, string> {
    map k | k in disk.Keys + m.Keys && (if k in m then TextOf(c, k, m[k]) != "null" else true) ::
      if k in m then TextOf(c, k, m[k]) else disk[k]
  }

  /** The disk once a flush that may be under way has finished. */
  function DiskFlushed(c: Codec, disk: map<string, string>, immutable: Option<Memtable>): map<string, string> {
    if immutable.Some? then DiskAfter(c, disk, immutable.value) else disk
  }

  lemma PacksMeans(c: Codec, key: string, payload: Data)
    requires LawfulCodec(c) && Packs(c, key, payload)
    ensures exists v :: Unpacked(c, payload) == v && TextOf(c, key, payload) == c.dumps(v)
    ensures DiskValue(c, TextOf(c, key, payload)) == Unpacked(c, payload)
    ensures TextOf(c, key, payload) == "null" <==> Unpacked(c, payload) == Null
  {
    var v :| Ascii(c.dumps(v)) && Pack(c.utf8, key, c.dumps(v)) == Some(payload);
    PackUnpacks(c, key, v);
    assert c.loads(c.dumps(v)) == Some(v) && c.loads(c.dumps(Null)) == Some(Null);
  }

  /** A flush in the background changes no value. */
  lemma FlushKeeps(c: Codec, active: Memtable, m: Memtable, disk: map<string, string>)
    requires LawfulCodec(c) && MemtableOk(c, m) && DiskOk(c, disk)
    ensures DiskOk(c, DiskAfter(c, disk, m))
    ensures Merge(c, active, None, DiskAfter(c, disk, m)) == Merge(c, active, Some(m), disk)
  {
    hide LawfulCodec, Packs, Unpacked, TextOf, Merge, DiskValue;
    forall k | k in m ensures DiskValue(c, TextOf(c, k, m[k])) == Unpacked(c, m[k])
                      ensures TextOf(c, k, m[k]) == "null" <==> Unpacked(c, m[k]) == Null
                      ensures exists v :: Unpacked(c, m[k]) == v && TextOf(c, k, m[k]) == c.dumps(v)
    {
      PacksMeans(c, k, m[k]);
    }
    SameStore(Merge(c, active, None, DiskAfter(c, disk, m)), Merge(c, active, Some(m), disk));
  }

  lemma SameStore(a: Store, b: Store)
    requires forall k :: At(a, k) == At(b, k)
    requires (forall k | k in a :: a[k] != Null) && (forall k | k in b :: b[k] != Null)
    ensures a == b
  {
    forall k ensures k in a <==> k in b ensures k in a ==> a[k] == b[k] {
      assert At(a, k) == At(b, k);
    }
  }

  /** An insert into the active memtable assigns in the merged store. */
  lemma InsertMerges(c: Codec, active: Memtable, immutable: Option<Memtable>, disk: map<string, string>, key: string,
                     v: Json)
    requires LawfulCodec(c) && Ascii(c.dumps(v)) && Pack(c.utf8, key, c.dumps(v)).Some?
    ensures var payload := Pack(c.utf8, key, c.dumps(v)).value;
            && Packs(c, key, payload)
            && Merge(c, active[key := payload], immutable, disk) == Assign(Merge(c, active, immutable, disk), key, v)
  {
    hide LawfulCodec, Pack, Unpack, Packs, Merge, TextOf, Ascii;
    PackUnpacks(c, key, v);
    PackPacks(c, key, v);
    var payload := Pack(c.utf8, key, c.dumps(v)).value;
    var a, b := Merge(c, active[key := payload], immutable, disk), Assign(Merge(c, active, immutable, disk), key, v);
    assert At(a, key) == v;
    forall k ensures At(a, k) == At(b, k) {
      assert At(a, k) == Value(c, active[key := payload], immutable, disk, k);
      assert At(Merge(c, active, immutable, disk), k) == Value(c, active, immutable, disk, k);
    }
    SameStore(a, b);
  }

  lemma PackPacks(c: Codec, key: string, v: Json)
    requires Ascii(c.dumps(v)) && Pack(c.utf8, key, c.dumps(v)).Some?
    ensures Packs(c, key, Pack(c.utf8, key, c.dumps(v)).value)
  {
    hide Ascii, Pack;
  }

  /** Rotation moves the active memtable behind an empty one. */
  lemma RotateKeeps(c: Codec, active: Memtable, disk: map<string, string>)
    ensures Merge(c, map[], Some(active), disk) == Merge(c, active, None, disk)
  {
    SameStore(Merge(c, map[], Some(active), disk), Merge(c, active, None, disk));
  }

  ghost predicate DistinctKeys(records: seq<(string, Json)>) {
    forall i, j | 0 <= i < j < |records| :: records[i].0 != records[j].0
  }

  function KeysOf(records: seq<(string, Json)>): (keys: set<string>)
    ensures forall k :: k in keys <==> exists i :: 0 <= i < |records| && records[i].0 == k
  {
    set i | 0 <= i < |records| :: records[i].0
  }

  /** One assignment after the other. */
  function AssignAll(s: Store, records: seq<(string, Json)>): Store {
    if records == [] then s
    else Assign(AssignAll(s, records[..|records| - 1]), records[|records| - 1].0, records[|records| - 1].1)
  }

  lemma AssignNone(s: Store)
    ensures AssignAll(s, []) == s
  {}

  lemma AssignStep(s: Store, records: seq<(string, Json)>, n: nat)
    requires n < |records|
    ensures AssignAll(s, records[..n + 1]) == Assign(AssignAll(s, records[..n]), records[n].0, records[n].1)
  {
    assert records[..n + 1][..n] == records[..n];
  }

  /** A record written whole is what a caller then sees under its key, and all that changes. */
  lemma WriteWhole(c: Codec, s: Store, cache: map<string, Json>, cache': map<string, Json>, key: string, v: Json)
    requires Plain(c, s) && Coherent(c, s, cache, None) && Cached(cache, cache', key, v)
    requires !IsChunkKey(key) && !IsManifest(v)
    ensures var s' := Assign(s, key, v);
            && Plain(c, s') && Coherent(c, s', cache', None) && Observe(c, s', key) == v
            && (forall k | k != key && !IsChunkKey(k) :: Observe(c, s', k) == Observe(c, s, k))
            && (forall k | IsChunkKey(k) :: At(s', k) == At(s, k))
  {
    hide Observe, IsManifest, IsChunkKey, Coherent, Cached, OnlyRecord, ChunksPlain, Assign;
    Router.ExcusedCoherent(c, s, cache, key);
    RecordCoherent(c, s, cache, cache', key, v);
    Router.SameRecord(s, key);
    Router.RecordOnly(s, s, key, v);
    Router.AssignedSeen(c, s, key, v);
    WriteSeen(c, s, Assign(s, key, v), key, v);
    forall k | IsChunkKey(k) ensures At(Assign(s, key, v), k) == At(s, k) {
      AssignElsewhere(s, key, v, k);
    }
  }

  lemma AssignElsewhere(s: Store, key: string, v: Json, k: string)
    requires k != key
    ensures At(Assign(s, key, v), k) == At(s, k)
  {}

  /** The memtable once the records are in. */
  ghost predicate Inserted(m: Memtable, m': Memtable, records: seq<(string, Json)>, packed: seq<Data>) {
    && |packed| == |records|
    && (forall i | 0 <= i < |records| :: records[i].0 in m' && m'[records[i].0] == packed[i])
    && (forall k | k in m' && k !in KeysOf(records) :: k in m && m'[k] == m[k])
  }

  lemma InsertedFits(m: Memtable, m': Memtable, records: seq<(string, Json)>, packed: seq<Data>)
    requires Inserted(m, m', records, packed) && FitsPages(m)
    ensures FitsPages(m') <==> forall i | 0 <= i < |records| :: |packed[i]| <= PageFormat.ROOM
  {
    hide KeysOf;
    if forall i | 0 <= i < |records| :: |packed[i]| <= PageFormat.ROOM {
      forall k | k in m' ensures |m'[k]| <= PageFormat.ROOM {
        if k in KeysOf(records) {
          var i :| 0 <= i < |records| && records[i].0 == k;
        }
      }
    }
  }

  lemma InsertedStep(m: Memtable, m': Memtable, records: seq<(string, Json)>, packed: seq<Data>, n: nat)
    requires DistinctKeys(records) && n < |records| == |packed| && Inserted(m, m', records[..n], packed[..n])
    ensures Inserted(m, m'[records[n].0 := packed[n]], records[..n + 1], packed[..n + 1])
  {
    hide KeysOf;
    KeysGrow(records, n);
    assert forall i | 0 <= i < n :: records[..n][i] == records[i] && records[..n + 1][i] == records[i];
  }

  lemma KeysGrow(records: seq<(string, Json)>, n: nat)
    requires n < |records|
    ensures KeysOf(records[..n + 1]) == KeysOf(records[..n]) + {records[n].0}
  {
    var front, more := records[..n], records[..n + 1];
    assert more[n] == records[n] && forall i | 0 <= i < n :: more[i] == front[i];
    forall k | k in KeysOf(front) ensures k in KeysOf(more) {
      var i :| 0 <= i < n && front[i].0 == k;
      assert more[i].0 == k;
    }
    assert more[n].0 in KeysOf(more);
  }

  lemma InsertedNone(m: Memtable, trace: seq<LfuCache.Event<string>>)
    ensures Inserted(m, m, [], []) && Touches(trace, trace, [])
  {}

  /** The cache has seen one event for each record since. */
  ghost predicate Touches(trace: seq<LfuCache.Event<string>>, trace': seq<LfuCache.Event<string>>,
                          records: seq<(string, Json)>) {
    && |trace'| == |trace| + |records| && trace <= trace'
    && forall i | 0 <= i < |records| :: trace'[|trace| + i].key == records[i].0
  }

  lemma TouchesStep(t0: seq<LfuCache.Event<string>>, trace: seq<LfuCache.Event<string>>,
                    trace': seq<LfuCache.Event<string>>, records: seq<(string, Json)>, n: nat, capacity: int,
                    cache: map<string, Json>, cache': map<string, Json>, v: Json)
    requires n < |records| && Touches(t0, trace, records[..n])
    requires LfuCache.Puts(capacity, cache, trace, cache', trace', records[n].0, v)
    ensures Touches(t0, trace', records[..n + 1])
  {
    hide LfuCache.IsVictim;
    forall i | 0 <= i < n ensures trace'[|t0| + i].key == records[i].0 {
      assert trace[|t0| + i].key == records[..n][i].0;
    }
  }

  /** Every record packed before any is written. */
  method PackAll(c: Codec, records: seq<(string, Json)>) returns (r: Option<seq<Data>>)
    requires LawfulCodec(c)
    ensures r.Some? <==> forall i | 0 <= i < |records| :: |c.utf8.encode(records[i].0)| <= MAX_KEY_BYTES
    ensures r.Some? ==> |r.value| == |records| && forall i | 0 <= i < |records| ::
                          && Ascii(c.dumps(records[i].1))
                          && Pack(c.utf8, records[i].0, c.dumps(records[i].1)) == Some(r.value[i])
  {
    hide LawfulCodec, Ascii;
    var packed := [];
    for i := 0 to |records|
      invariant |packed| == i && forall j | 0 <= j < i ::
                  && |c.utf8.encode(records[j].0)| <= MAX_KEY_BYTES && Ascii(c.dumps(records[j].1))
                  && Pack(c.utf8, records[j].0, c.dumps(records[j].1)) == Some(packed[j])
    {
      Router.AsciiText(c, records[i].1);
      var p := Pack(c.utf8, records[i].0, c.dumps(records[i].1));
      if p.None? {
        return None;
      }
      packed := packed + [p.value];
    }
    return Some(packed);
  }

  class Router {
    const codec: Codec
    const maxMemtableSize: nat
    const cache: LfuCache.Cache<string, Json>
    var active: Memtable
    var immutable: Option<Memtable>
    var disk: map<string, string>

    /** Records are packed values; the cache is usable. */
    ghost predicate Sound()
      reads this, cache
    {
      && LawfulCodec(codec) && MemtableOk(codec, active) && (immutable.Some? ==> MemtableOk(codec, immutable.value))
      && DiskOk(codec, disk) && cache.Valid() && cache.capacity >= 1 && maxMemtableSize >= 1
    }

    ghost function Merged(): Store
      reads this
    {
      Merge(codec, active, immutable, disk)
    }

    /** Between operations: the cache tells nothing but the truth. */
    ghost predicate Valid()
      reads this, cache
    {
      Sound() && Plain(codec, Merged()) && Coherent(codec, Merged(), cache.cache, None)
    }

    /** Within a `set`: the record being written is excused. */
    ghost predicate Writing(key: string)
      reads this, cache
    {
      Sound() && ChunksPlain(Merged()) && !IsChunkKey(key) && Coherent(codec, Merged(), cache.cache, Some(key))
    }

    /** What a caller sees under a key. */
    ghost function Seen(key: string): Json
      reads this
    {
      Observe(codec, Merged(), key)
    }

    /** A flush of what is in memory cannot overflow a page. */
    ghost predicate Flushable()
      reads this
    {
      FitsPages(active) && (immutable.Some? ==> FitsPages(immutable.value))
    }

    constructor (codec: Codec, maxMemtableSize: nat, cacheCapacity: int, disk: map<string, string>)
      requires LawfulCodec(codec) && maxMemtableSize >= 1 && cacheCapacity >= 1 && DiskOk(codec, disk)
      requires Plain(codec, Merge(codec, map[], None, disk))
      ensures Valid() && fresh(cache) && active == map[] && immutable == None && this.disk == disk
              && this.codec == codec && this.maxMemtableSize == maxMemtableSize
      ensures cache.capacity == cacheCapacity && cache.cache == map[] && cache.trace == []
    {
      hide LawfulCodec, Plain, DiskOk, Merge, MemtableOk, Coherent, LfuCache.Cache.Valid;
      EmptyMemtable(codec);
      NothingCached(codec, Merge(codec, map[], None, disk));
      this.codec, this.maxMemtableSize, this.disk := codec, maxMemtableSize, disk;
      active, immutable := map[], None;
      cache := new LfuCache.Cache(cacheCapacity);
    }

    /** The background flush completing: the immutable memtable's records are on disk and it is dropped. */
    method BackgroundFlush()
      requires Sound()
      modifies this`immutable, this`disk
      ensures Sound() && immutable == None && Merged() == old(Merged())
      ensures (old(Valid()) ==> Valid()) && (old(Flushable()) ==> Flushable())
      ensures disk == DiskFlushed(codec, old(disk), old(immutable))
    {
      hide LawfulCodec, MemtableOk, DiskOk, Merge, DiskAfter, LfuCache.Cache.Valid;
      if immutable.Some? {
        FlushKeeps(codec, active, immutable.value, disk);
        disk := DiskAfter(codec, disk, immutable.value);
        immutable := None;
      }
    }

    /** From these memtables and this disk the present ones come by a rotation, if it was due, and by nothing else. */
    ghost predicate Rotates(active0: Memtable, immutable0: Option<Memtable>, disk0: map<string, string>)
      reads this
    {
      if |active0| < maxMemtableSize then active == active0 && immutable == immutable0 && disk == disk0
      else active == map[] && immutable == Some(active0) && disk == DiskFlushed(codec, disk0, immutable0)
    }

    /** A full memtable becomes immutable once the flush before it has finished. */
    method RotateIfFull()
      requires Sound()
      modifies this`active, this`immutable, this`disk
      ensures Sound() && |active| < maxMemtableSize && Merged() == old(Merged())
      ensures old(Flushable()) ==> Flushable()
      ensures Rotates(old(active), old(immutable), old(disk))
    {
      hide LawfulCodec, MemtableOk, DiskOk, Merge, DiskAfter, LfuCache.Cache.Valid;
      if |active| >= maxMemtableSize {
        BackgroundFlush();
        RotateKeeps(codec, active, disk);
        EmptyMemtable(codec);
        immutable := Some(active);
        active := map[];
      }
    }

    static lemma NothingCached(c: Codec, s: Store)
      ensures Coherent(c, s, map[], None)
    {}

    static lemma EmptyMemtable(c: Codec)
      ensures MemtableOk(c, map[])
    {}

    /** `_set_internal`: pack, insert, cache, rotate. */
    method SetInternal(key: string, value: Json) returns (r: Result<(), SetError>)
      requires Sound()
      modifies this`active, this`immutable, this`disk, cache
      ensures Sound()
      ensures r == if key == "" then Err(EmptyKey)
                   else if |codec.utf8.encode(key)| > MAX_KEY_BYTES then Err(KeyTooLong) else Ok(())
      ensures r.Err? ==> Merged() == old(Merged()) && cache.cache == old(cache.cache)
      ensures r.Ok? ==>
                Merged() == Assign(old(Merged()), key, value) && Cached(old(cache.cache), cache.cache, key, value)
      ensures old(Flushable()) && 2 + |codec.utf8.encode(key)| + |codec.dumps(value)| <= PageFormat.ROOM ==> Flushable()
      // the record enters the active memtable, which is rotated if that fills it, and the cache, where it counts once
      ensures r.Ok? ==> Ascii(codec.dumps(value)) && Pack(codec.utf8, key, codec.dumps(value)).Some?
      ensures r.Ok? ==> Rotates(old(active)[key := Pack(codec.utf8, key, codec.dumps(value)).value],
                                old(immutable), old(disk))
      ensures r.Ok? ==> LfuCache.Puts(cache.capacity, old(cache.cache), old(cache.trace), cache.cache, cache.trace, key,
                                      value)
      ensures r.Err? ==> active == old(active) && immutable == old(immutable) && disk == old(disk)
                         && cache.trace == old(cache.trace)
    {
      hide LawfulCodec, MemtableOk, DiskOk, Merge, Pack, Packs, Assign, Rotates, LfuCache.Puts, LfuCache.Cache.Valid;
      if key == "" {
        return Err(EmptyKey);
      }
      AsciiText(codec, value);
      var packed := Pack(codec.utf8, key, codec.dumps(value));
      if packed.None? {
        return Err(KeyTooLong);
      }
      InsertPacked(key, packed.value, value);
      RotateIfFull();
      return Ok(());
    }

    /** A packed record enters the active memtable and its value the cache. */
    method InsertPacked(key: string, payload: Data, value: Json)
      requires Sound() && Ascii(codec.dumps(value)) && Pack(codec.utf8, key, codec.dumps(value)) == Some(payload)
      modifies this`active, cache
      ensures Sound() && active == old(active)[key := payload]
      ensures Merged() == Assign(old(Merged()), key, value) && Cached(old(cache.cache), cache.cache, key, value)
      ensures LfuCache.Puts(cache.capacity, old(cache.cache), old(cache.trace), cache.cache, cache.trace, key, value)
    {
      hide LawfulCodec, MemtableOk, DiskOk, Merge, Pack, Packs, Assign, LfuCache.Puts, LfuCache.Cache.Valid, Ascii;
      InsertMerges(codec, active, immutable, disk, key, value);
      GrownMemtable(codec, active, key, payload);
      active := active[key := payload];
      ghost var evicted := cache.Put(key, value);
    }

    static lemma AsciiText(c: Codec, v: Json)
      requires LawfulCodec(c)
      ensures Ascii(c.dumps(v))
    {}

    static lemma GrownMemtable(c: Codec, m: Memtable, key: string, payload: Data)
      requires MemtableOk(c, m) && Packs(c, key, payload)
      ensures MemtableOk(c, m[key := payload])
    {}

    /** `_get_raw_manifest`: the stored value, past the cache. */
    method GetRawManifest(key: string) returns (v: Json)
      ensures v == At(Merged(), key)
    {
      hide Merge, Unpack;
      if key in active {
        return Unpacked(codec, active[key]);
      } else if immutable.Some? && key in immutable.value {
        return Unpacked(codec, immutable.value[key]);
      } else if key in disk {
        return DiskValue(codec, disk[key]);
      }
      return Null;
    }

    /** A key too long to pack fails before anything of its record is written. */
    ghost predicate TooLong(key: string) {
      |codec.utf8.encode(key)| > MAX_KEY_BYTES
    }

    /** Nulls over the chunks a stored manifest counts; an error ends it early. */
    method CleanUpChunks(key: string)
      requires Writing(key)
      modifies this`active, this`immutable, this`disk, cache
      ensures Writing(key) && OnlyRecord(old(Merged()), Merged(), key)
      ensures TooLong(key) ==> Merged() == old(Merged()) && cache.cache == old(cache.cache)
      ensures old(Flushable()) && KeyFits(codec, key, StoredChunks(At(old(Merged()), key))) ==> Flushable()
      ensures At(Merged(), key) == At(old(Merged()), key)
      ensures StoredChunks(At(old(Merged()), key)) == 0 ==>
                cache.cache == old(cache.cache) && cache.trace == old(cache.trace)
      ensures var n := StoredChunks(At(old(Merged()), key));
              && (ChunkKeysPack(codec, key, n) ==> forall i: nat | i < n :: At(Merged(), ChunkKey(key, i)) == Null)
              && forall i: nat | i >= n :: At(Merged(), ChunkKey(key, i)) == At(old(Merged()), ChunkKey(key, i))
    {
      hide LawfulCodec, MemtableOk, DiskOk, LfuCache.Cache.Valid, Coherent, Merge, ChunksPlain, OnlyRecord, Assign,
           ChunkKey, Cached, FitsPages, Digits;
      SameRecord(Merged(), key);
      NullText(codec);
      var oldVal := GetRawManifest(key);
      if !IsManifest(oldVal) || ChunkCount(oldVal) == None {
        return;
      }
      for i := 0 to ChunkCount(oldVal).value
        invariant Writing(key) && OnlyRecord(old(Merged()), Merged(), key)
        invariant TooLong(key) ==> Merged() == old(Merged()) && cache.cache == old(cache.cache)
        invariant old(Flushable()) && KeyFits(codec, key, ChunkCount(oldVal).value) ==> Flushable()
        invariant At(Merged(), key) == oldVal && forall j: nat | j < i :: At(Merged(), ChunkKey(key, j)) == Null
        invariant forall j: nat | j >= i :: At(Merged(), ChunkKey(key, j)) == At(old(Merged()), ChunkKey(key, j))
        invariant i == 0 ==> cache.cache == old(cache.cache) && cache.trace == old(cache.trace)
      {
        AssignedChunk(Merged(), key, i, Null);
        var r := SetChunk(key, i, Null);
        if r.Err? {
          return;
        }
      }
    }

    /** Writing one chunk leaves the record's own key and its other chunks alone. */
    static lemma AssignedChunk(s: Store, key: string, i: nat, v: Json)
      requires !IsChunkKey(key)
      ensures var s' := Assign(s, ChunkKey(key, i), v);
              && At(s', ChunkKey(key, i)) == v && At(s', key) == At(s, key)
              && forall j: nat | j != i :: At(s', ChunkKey(key, j)) == At(s, ChunkKey(key, j))
    {
      hide ChunkKey, IsChunkKey;
      forall j: nat | j != i ensures ChunkKey(key, j) != ChunkKey(key, i) {
        if ChunkKey(key, j) == ChunkKey(key, i) { ChunkKeyInjective(key, j, key, i); }
      }
    }

    static lemma NullText(c: Codec)
      requires LawfulCodec(c)
      ensures |c.dumps(Null)| == 4
    {}

    static lemma SameRecord(s: Store, key: string)
      ensures OnlyRecord(s, s, key)
    {}

    /** `_set_internal` on a chunk key. */
    method SetChunk(key: string, i: nat, v: Json) returns (r: Result<(), SetError>)
      requires Writing(key) && !IsManifest(v)
      modifies this`active, this`immutable, this`disk, cache
      ensures Writing(key)
      ensures r.Ok? ==> Merged() == Assign(old(Merged()), ChunkKey(key, i), v)
      ensures r.Err? ==> Merged() == old(Merged()) && cache.cache == old(cache.cache)
      ensures r.Ok? <==> |codec.utf8.encode(ChunkKey(key, i))| <= MAX_KEY_BYTES
      ensures TooLong(key) ==> r.Err?
      ensures |codec.utf8.encode(key)| + |Digits(i)| <= 1389 ==> r.Ok?
      ensures old(Flushable()) && |codec.utf8.encode(key)| + |Digits(i)| <= 1389 && |codec.dumps(v)| <= 2670 ==>
                Flushable()
      ensures forall s | OnlyRecord(s, old(Merged()), key) :: OnlyRecord(s, Merged(), key)
    {
      hide LawfulCodec, Coherent, Merge, ChunksPlain, OnlyRecord, Assign, ChunkKey, Cached, LfuCache.Cache.Valid,
           MemtableOk, DiskOk;
      ghost var s0, c0 := Merged(), cache.cache;
      ChunkKeyLonger(codec, key, i);
      r := SetInternal(ChunkKey(key, i), v);
      if r.Ok? {
        ChunkKeepsCoherent(codec, s0, c0, cache.cache, key, i, v);
        forall s | OnlyRecord(s, s0, key) ensures OnlyRecord(s, Merged(), key) {
          OnlyRecordStep(s, s0, key, i, v);
        }
      }
    }

    /** The chunk loop of `set`. */
    method WriteChunks(key: string, chunks: seq<Data>) returns (r: Result<(), SetError>)
      requires Writing(key) && forall chunk | chunk in chunks :: |chunk| <= CHUNK_SIZE
      modifies this`active, this`immutable, this`disk, cache
      ensures Writing(key) && OnlyRecord(old(Merged()), Merged(), key)
      ensures r.Ok? ==> ChunksAt(codec, Merged(), key, chunks)
      ensures TooLong(key) ==> Merged() == old(Merged()) && cache.cache == old(cache.cache)
      ensures KeyFits(codec, key, |chunks|) ==> r.Ok? && (old(Flushable()) ==> Flushable())
      ensures r.Ok? <==> ChunkKeysPack(codec, key, |chunks|)
      ensures forall j: nat | j >= |chunks| :: At(Merged(), ChunkKey(key, j)) == At(old(Merged()), ChunkKey(key, j))
    {
      hide LawfulCodec, MemtableOk, DiskOk, LfuCache.Cache.Valid, Coherent, Merge, ChunksPlain, OnlyRecord, Assign,
           ChunkKey, Cached, ChunksAt, FitsPages, Digits;
      SameRecord(Merged(), key);
      NoChunks(codec, Merged(), key);
      assert chunks[..0] == [];
      for i := 0 to |chunks|
        invariant Writing(key) && OnlyRecord(old(Merged()), Merged(), key)
        invariant ChunksAt(codec, Merged(), key, chunks[..i])
        invariant TooLong(key) ==> Merged() == old(Merged()) && cache.cache == old(cache.cache)
        invariant KeyFits(codec, key, |chunks|) && old(Flushable()) ==> Flushable()
        invariant forall j: nat | j >= |chunks| :: At(Merged(), ChunkKey(key, j)) == At(old(Merged()), ChunkKey(key, j))
        invariant ChunkKeysPack(codec, key, i)
      {
        ChunkText(codec, chunks[i]);
        AssignedChunk(Merged(), key, i, Str(codec.b64encode(chunks[i])));
        ChunksAtStep(codec, Merged(), key, chunks, i);
        var written := SetChunk(key, i, Str(codec.b64encode(chunks[i])));
        if written.Err? {
          return written;
        }
      }
      assert chunks[..|chunks|] == chunks;
      return Ok(());
    }

    static lemma ChunkText(c: Codec, chunk: Data)
      requires LawfulCodec(c) && |chunk| <= CHUNK_SIZE
      ensures |c.dumps(Str(c.b64encode(chunk)))| <= 2670
    {
      hide LawfulUtf8, LawfulText, LawfulJson, LawfulBytes, Manifest, Digits;
      assert |c.dumps(Str(c.b64encode(chunk)))| == B64Length(|chunk|) + 2;
    }

    static lemma ManifestText(c: Codec, n: nat, size: nat)
      requires LawfulCodec(c)
      ensures |c.dumps(Manifest(n, size))| == 83 + |Digits(n)| + |Digits(size)|
    {
      hide LawfulUtf8, LawfulText, LawfulJson, LawfulBytes, Manifest, Digits;
    }

    static lemma NoChunks(c: Codec, s: Store, key: string)
      ensures ChunksAt(c, s, key, [])
    {}

    /** A large value's chunks and its manifest all fit a page under this key. */
    ghost predicate LargeFits(key: string, value: Json) {
      var bytes := codec.utf8.encode(codec.dumps(value));
      var n := |Chunks(codec.compress(bytes))|;
      KeyFits(codec, key, n) && 2 + |codec.utf8.encode(key)| + 83 + |Digits(n)| + |Digits(|bytes|)| <= PageFormat.ROOM
    }

    /** How many chunks a value is stored in. */
    ghost function NewChunks(value: Json): nat {
      var bytes := codec.utf8.encode(codec.dumps(value));
      if |bytes| > 2000 then |Chunks(codec.compress(bytes))| else 0
    }

    /**
     Small values under keys of up to 2070 bytes, large ones with their chunks, and any old chunks,
     under shorter keys.
     */
    ghost predicate RecordFits(key: string, value: Json)
      reads this
    {
      && KeyFits(codec, key, StoredChunks(At(Merged(), key)))
      && if |codec.utf8.encode(codec.dumps(value))| > 2000 then LargeFits(key, value)
         else |codec.utf8.encode(key)| <= 2070
    }

    /**
     The branch of `set` for values over 2000 bytes; false if it failed on the way and nothing but
     chunks was written.
     */
    method SetLarge(key: string, value: Json) returns (done: bool)
      requires Writing(key) && !IsManifest(value) && key != ""
      modifies this`active, this`immutable, this`disk, cache
      ensures Writing(key) && OnlyRecord(old(Merged()), Merged(), key)
      ensures done ==> Observe(codec, Merged(), key) == value && Coherent(codec, Merged(), cache.cache, None)
      ensures TooLong(key) ==> !done && Merged() == old(Merged()) && cache.cache == old(cache.cache)
      ensures LargeFits(key, value) && KeyFits(codec, key, StoredChunks(At(old(Merged()), key))) ==>
                done && (old(Flushable()) ==> Flushable())
      ensures var n := |Chunks(codec.compress(codec.utf8.encode(codec.dumps(value))))|;
              done <==> ChunkKeysPack(codec, key, n) && !TooLong(key)
      ensures done ==> InChunks(codec, Merged(), key, value)
      ensures done ==> key in cache.cache && cache.cache[key] == value
      ensures var n := StoredChunks(At(old(Merged()), key));
              done && ChunkKeysPack(codec, key, n) ==> NoOrphans(Merged(), key, n)
    {
      hide LawfulCodec, MemtableOk, DiskOk, Coherent, Merge, ChunksPlain, OnlyRecord, Assign, ChunkKey, Cached,
           ChunksAt, Chunks, LfuCache.Cache.Valid, Observe, FitsPages, Digits, KeyFits, ChunkKeysPack, IsManifest,
           IsChunkKey, Manifest, InChunks, LfuCache.Puts, Rotates;
      CleanUpChunks(key);
      ghost var s0 := Merged();
      var valueBytes := codec.utf8.encode(codec.dumps(value));
      var chunks := Slices(codec.compress(valueBytes));
      var written := WriteChunks(key, chunks);
      OnlyRecordTrans(old(Merged()), s0, Merged(), key);
      if written.Err? {
        return false;
      }
      ghost var s1, c1 := Merged(), cache.cache;
      var manifest := Manifest(|chunks|, |valueBytes|);
      ManifestText(codec, |chunks|, |valueBytes|);
      var r := SetInternal(key, manifest);
      if r.Err? {
        return false;
      }
      RecordCoherent(codec, s1, c1, cache.cache, key, manifest);
      RecordOnly(old(Merged()), s1, key, manifest);
      ManifestPlaced(codec, s1, key, value);
      ManifestCounts(s1, key, |chunks|, |valueBytes|);
      ghost var c2 := cache.cache;
      ghost var evicted := cache.Put(key, value);
      PutCached(c2, cache.cache, key, value);
      RebuiltCoherent(codec, Merged(), c2, cache.cache, key, value);
      ExcusedCoherent(codec, Merged(), cache.cache, key);
      return true;
    }

    /**
     `set`: the value is what a caller then sees under the key, and every other record reads as before.
     It fails only for an empty key or one too long to pack, and then it changes nothing a caller sees.
     */
    method Set(key: string, value: Json) returns (r: Result<(), SetError>)
      requires Valid() && !IsChunkKey(key) && !IsManifest(value)
      modifies this`active, this`immutable, this`disk, cache
      ensures Valid()
      ensures r == if key == "" then Err(EmptyKey) else if TooLong(key) then Err(KeyTooLong) else Ok(())
      ensures Seen(key) == if r.Ok? then value else old(Seen(key))
      ensures forall k | k != key && !IsChunkKey(k) :: Seen(k) == old(Seen(k))
      ensures old(Flushable() && RecordFits(key, value)) ==> Flushable()
      ensures r.Ok? ==> key in cache.cache && cache.cache[key] == value
      // a text of more than 2000 bytes goes into chunks if all their keys can be packed, any other is stored as it is
      ensures r.Ok? ==> if |codec.utf8.encode(codec.dumps(value))| > 2000 && ChunkKeysPack(codec, key, NewChunks(value))
                        then InChunks(codec, Merged(), key, value) else At(Merged(), key) == value
      // where no old chunks are cleaned up that is one insert and one use of the cache
      ensures r.Ok? && |codec.utf8.encode(codec.dumps(value))| <= 2000 && StoredChunks(At(old(Merged()), key)) == 0 ==>
                LfuCache.Puts(cache.capacity, old(cache.cache), old(cache.trace), cache.cache, cache.trace, key, value)
      // nothing of the old value's chunks is left behind, as long as the chunk keys can be packed
      ensures var n := StoredChunks(At(old(Merged()), key));
              r.Ok? && ChunkKeysPack(codec, key, n) && ChunkKeysPack(codec, key, NewChunks(value)) ==>
                  NoOrphans(Merged(), key, n)
    {
      hide LawfulCodec, MemtableOk, DiskOk, Coherent, Merge, Plain, ChunksPlain, OnlyRecord, Assign, Cached,
           LfuCache.Cache.Valid, Observe, IsManifest, IsChunkKey, FitsPages, Digits, Chunks, NoOrphans, ChunkKeysPack,
           StoredChunks, InChunks, LfuCache.Puts, Rotates;
      ValueText(codec, value);
      if key == "" {
        return Err(EmptyKey);
      }
      ghost var s := Merged();
      PlainChunks(codec, s);
      ExcusedCoherent(codec, s, cache.cache, key);
      SameRecord(s, key);
      var isLarge := false;
      if value != Null {
        var valueBytes := codec.utf8.encode(codec.dumps(value));
        if |valueBytes| > 2000 {
          isLarge := true;
          var done := SetLarge(key, value);
          if done {
            WriteSeen(codec, s, Merged(), key, value);
            return Ok(());
          }
        }
      }
      if !isLarge {
        CleanUpChunks(key);
      }
      ghost var s1, c1 := Merged(), cache.cache;
      r := SetInternal(key, value);
      if r.Ok? {
        RecordCoherent(codec, s1, c1, cache.cache, key, value);
        RecordOnly(s, s1, key, value);
        CachedKey(c1, cache.cache, key, value);
        PlainLeavesNone(s1, key, value, StoredChunks(At(s, key)));
        AssignedSeen(codec, s1, key, value);
        WriteSeen(codec, s, Merged(), key, value);
      }
    }

    /** The bytes a record takes on a page, its slot aside. */
    ghost function RecordBytes(key: string, value: Json): nat {
      2 + |codec.utf8.encode(key)| + |codec.dumps(value)|
    }

    ghost predicate AnyTooLong(records: seq<(string, Json)>) {
      exists i :: 0 <= i < |records| && TooLong(records[i].0)
    }

    /**
     `set_many`: the records go in one after the other, each whole, and then the memtable is rotated if it is full.
     Nothing is written if a key is too long; an empty key stops the loop. Old chunks are left where they are, and a
     flush of what is in memory cannot overflow a page if and only if each new record fits one.
     */
    method SetMany(records: seq<(string, Json)>) returns (r: Result<(), SetError>)
      requires Valid() && DistinctKeys(records)
      requires forall i | 0 <= i < |records| :: !IsChunkKey(records[i].0) && !IsManifest(records[i].1)
      modifies this`active, this`immutable, this`disk, cache
      ensures Valid()
      ensures r == if records == [] then Err(NoRecords) else if AnyTooLong(records) then Err(KeyTooLong)
                   else if "" in KeysOf(records) then Err(EmptyKey) else Ok(())
      ensures r in {Err(NoRecords), Err(KeyTooLong)} ==>
                Merged() == old(Merged()) && cache.cache == old(cache.cache) && cache.trace == old(cache.trace)
      ensures r == Err(EmptyKey) ==>
                exists n :: && 0 <= n < |records| && records[n].0 == ""
                            && Merged() == AssignAll(old(Merged()), records[..n])
      ensures r.Ok? ==> Merged() == AssignAll(old(Merged()), records)
      ensures r.Ok? ==> forall i | 0 <= i < |records| :: Seen(records[i].0) == records[i].1
      ensures forall k | !IsChunkKey(k) && k !in KeysOf(records) :: Seen(k) == old(Seen(k))
      ensures forall k | IsChunkKey(k) :: At(Merged(), k) == At(old(Merged()), k)
      ensures r.Ok? && old(Flushable()) ==>
                (Flushable() <==>
                   forall i | 0 <= i < |records| :: RecordBytes(records[i].0, records[i].1) <= PageFormat.ROOM)
      // one rotation at most, at the end; one insert or use of the cache for each record
      ensures r.Ok? ==>
                exists m, packed :: Inserted(old(active), m, records, packed) && Rotates(m, old(immutable), old(disk))
      ensures r.Ok? ==> Touches(old(cache.trace), cache.trace, records)
    {
      hide LawfulCodec, MemtableOk, DiskOk, Coherent, Merge, Plain, ChunksPlain, OnlyRecord, Assign, Cached, Pack,
           Ascii, LfuCache.Cache.Valid, Observe, IsManifest, IsChunkKey, LfuCache.Puts, Rotates, FitsPages, AssignAll,
           Inserted, KeysOf, Touches;
      if records == [] {
        return Err(NoRecords);
      }
      var packs := PackAll(codec, records);
      if packs.None? {
        return Err(KeyTooLong);
      }
      var packed := packs.value;
      ghost var s0, m0 := Merged(), active;
      assert records[..0] == [] && packed[..0] == [];
      AssignNone(s0);
      InsertedNone(m0, cache.trace);
      for i := 0 to |records|
        invariant Valid() && Merged() == AssignAll(s0, records[..i]) && immutable == old(immutable) && disk == old(disk)
        invariant forall j | 0 <= j < i :: Seen(records[j].0) == records[j].1 && records[j].0 != ""
        invariant forall k | !IsChunkKey(k) && k !in KeysOf(records) :: Seen(k) == old(Seen(k))
        invariant forall k | IsChunkKey(k) :: At(Merged(), k) == At(s0, k)
        invariant Inserted(m0, active, records[..i], packed[..i])
        invariant Touches(old(cache.trace), cache.trace, records[..i])
      {
        var (key, value) := records[i];
        if key == "" {
          return Err(EmptyKey);
        }
        ghost var s, c, m, trace := Merged(), cache.cache, active, cache.trace;
        InsertPacked(key, packed[i], value);
        TouchesStep(old(cache.trace), trace, cache.trace, records, i, cache.capacity, c, cache.cache, value);
        WriteWhole(codec, s, c, cache.cache, key, value);
        AssignStep(s0, records, i);
        InsertedStep(m0, m, records, packed, i);
      }
      assert records[..|records|] == records && packed[..|records|] == packed;
      if FitsPages(m0) { InsertedFits(m0, active, records, packed); }
      ghost var m1 := active;
      RotateIfFull();
      if old(Flushable()) { RotatedFits(m1, old(immutable), old(disk)); }
      return Ok(());
    }

    lemma RotatedFits(active0: Memtable, immutable0: Option<Memtable>, disk0: map<string, string>)
      requires Rotates(active0, immutable0, disk0) && (immutable0.Some? ==> FitsPages(immutable0.value))
      ensures Flushable() <==> FitsPages(active0)
    {}

    static lemma CachedKey(c0: map<string, Json>, c1: map<string, Json>, key: string, v: Json)
      requires Cached(c0, c1, key, v)
      ensures key in c1 && c1[key] == v
    {}

    static lemma PlainLeavesNone(s: Store, key: string, v: Json, n: nat)
      requires !IsChunkKey(key) && !IsManifest(v)
      ensures (forall i: nat | i < n :: At(s, ChunkKey(key, i)) == Null) ==> NoOrphans(Assign(s, key, v), key, n)
    {
      hide ChunkKey;
    }

    static lemma ValueText(c: Codec, v: Json)
      requires LawfulCodec(c)
      ensures |c.utf8.encode(c.dumps(v))| == |c.dumps(v)| && |c.dumps(Null)| == 4
    {}

    static lemma PlainChunks(c: Codec, s: Store)
      requires Plain(c, s)
      ensures ChunksPlain(s)
    {}

    static lemma AssignedSeen(c: Codec, s: Store, key: string, v: Json)
      requires !IsManifest(v)
      ensures At(Assign(s, key, v), key) == v && Observe(c, Assign(s, key, v), key) == v
    {}

    /**
     What looking a key up does to the cache: one use if it is cached, and unless that answers with a value, an entry
     for what memtables and disk hold, though for a null only if the active memtable holds it.
     */
    ghost predicate LookedUp(cache0: map<string, Json>, trace0: seq<LfuCache.Event<string>>, key: string, v: Json)
      reads this, cache
    {
      var touched := trace0 + if key in cache0 then [LfuCache.Use(key)] else [];
      if (key in cache0 && cache0[key] != Null) || (key !in active && v == Null)
      then cache.cache == cache0 && cache.trace == touched
      else LfuCache.Puts(cache.capacity, cache0, touched, cache.cache, cache.trace, key, v)
    }

    /** `_get_internal`: a cached value that is not null wins; else the store is asked and the answer cached. */
    method GetInternal(key: string) returns (v: Json)
      requires Sound()
      modifies cache
      ensures Sound()
      ensures v == if key in old(cache.cache) && old(cache.cache)[key] != Null
                   then old(cache.cache)[key] else At(Merged(), key)
      ensures cache.cache == old(cache.cache) || Cached(old(cache.cache), cache.cache, key, At(Merged(), key))
      ensures v != Null ==> key in cache.cache && cache.cache[key] == v
      ensures LookedUp(old(cache.cache), old(cache.trace), key, v)
    {
      hide LawfulCodec, MemtableOk, DiskOk, Merge, LfuCache.Cache.Valid, LfuCache.Puts, Unpack;
      var cached := cache.Get(key);
      if cached.Some? && cached.value != Null {
        return cached.value;
      }
      ghost var c0 := cache.cache;
      if key in active {
        v := Unpacked(codec, active[key]);
        ghost var e := cache.Put(key, v);
        PutCached(c0, cache.cache, key, v);
        return v;
      }
      if immutable.Some? && key in immutable.value {
        v := Unpacked(codec, immutable.value[key]);
      } else {
        v := if key in disk then DiskValue(codec, disk[key]) else Null;
      }
      if v != Null {
        ghost var e := cache.Put(key, v);
        PutCached(c0, cache.cache, key, v);
      }
    }

    /** A read through the cache keeps it right, and gives the stored value or what its manifest stands for. */
    method GetCoherent(key: string) returns (v: Json)
      requires Valid()
      modifies cache
      ensures Valid()
      ensures v == At(Merged(), key) || (IsManifest(At(Merged(), key)) && v == Observe(codec, Merged(), key))
      ensures v == if key in old(cache.cache) && old(cache.cache)[key] != Null
                   then old(cache.cache)[key] else At(Merged(), key)
      ensures LookedUp(old(cache.cache), old(cache.trace), key, v)
    {
      hide LawfulCodec, MemtableOk, DiskOk, Merge, Plain, Cached, LfuCache.Cache.Valid, Observe, IsManifest, LookedUp;
      ghost var c0 := cache.cache;
      v := GetInternal(key);
      if cache.cache != c0 {
        RebuiltCoherent(codec, Merged(), c0, cache.cache, key, At(Merged(), key));
      }
    }

    /** `get`: what the store holds for a caller, whatever the cache has kept or dropped. */
    method Get(key: string) returns (r: Result<Json, SetError>)
      requires Valid() && !IsChunkKey(key)
      modifies cache
      ensures Valid()
      ensures r == if key == "" then Err(EmptyKey) else Ok(Seen(key))
      // a value that is stored as it is; a value that the chunks spell; null if they spell none
      ensures key != "" && !IsManifest(At(Merged(), key)) ==> r == Ok(At(Merged(), key))
      ensures key != "" ==> forall w | Spelled(codec, Merged(), key, w) :: r == Ok(w)
      ensures key != "" && IsManifest(At(Merged(), key)) && (forall w :: !Spelled(codec, Merged(), key, w)) ==>
                r == Ok(Null)
      // unless chunks have to be fetched, that is one look at the cache
      ensures r.Ok? && (!IsManifest(At(Merged(), key))
                        || (key in old(cache.cache) && old(cache.cache)[key] == r.value != Null)) ==>
                LookedUp(old(cache.cache), old(cache.trace), key, r.value)
    {
      hide LawfulCodec, MemtableOk, DiskOk, Merge, Plain, Cached, Coherent, LfuCache.Cache.Valid, Observe, IsManifest,
           IsChunkKey, LookedUp, Spelled;
      if key == "" {
        return Err(EmptyKey);
      }
      NeverManifest(codec, Merged(), key);
      SeenAs(codec, Merged(), key);
      var val := GetCoherent(key);
      if !IsManifest(val) {
        return Ok(val);
      }
      var original := Reconstruct(key, val);
      return Ok(original);
    }

    static lemma SeenAs(c: Codec, s: Store, key: string)
      ensures !IsManifest(At(s, key)) ==> Observe(c, s, key) == At(s, key) && forall w :: !Spelled(c, s, key, w)
      ensures forall w | Spelled(c, s, key, w) :: Observe(c, s, key) == w
      ensures IsManifest(At(s, key)) && (forall w :: !Spelled(c, s, key, w)) ==> Observe(c, s, key) == Null
    {
      hide PartsAt, IsCompressed;
      if IsManifest(At(s, key)) { ManifestStandsFor(c, s, key); }
    }

    /** No record reads as a manifest, so what does must be one that is stored. */
    static lemma NeverManifest(c: Codec, s: Store, key: string)
      requires Plain(c, s) && !IsChunkKey(key)
      ensures !IsManifest(Observe(c, s, key))
      ensures !IsManifest(At(s, key)) ==> Observe(c, s, key) == At(s, key)
    {}

    /** The chunked branch of `get`; any failure on the way gives null. */
    method Reconstruct(key: string, manifest: Json) returns (v: Json)
      requires Valid() && IsManifest(manifest) && manifest == At(Merged(), key)
      modifies cache
      ensures Valid() && v == Observe(codec, Merged(), key)
      ensures v != Null ==> key in cache.cache && cache.cache[key] == v
      ensures forall w | Spelled(codec, Merged(), key, w) :: v == w
      ensures (forall w :: !Spelled(codec, Merged(), key, w)) ==> v == Null
    {
      SeenAs(codec, Merged(), key);
      hide Spelled, LawfulCodec, MemtableOk, DiskOk, Merge, Plain, Cached, Coherent, LfuCache.Cache.Valid, Observe,
           IsManifest;
      ObservedManifest(codec, Merged(), key);
      var n := ChunkCount(manifest);
      if n.None? {
        return Null;
      }
      var bytes := GatherChunks(key, n.value);
      if bytes.None? {
        return Null;
      }
      var original := if IsCompressed(manifest) then codec.decompress(bytes.value) else bytes;
      if original.None? {
        return Null;
      }
      var text := codec.utf8.decode(original.value);
      if text.None? {
        return Null;
      }
      var value := codec.loads(text.value);
      if value.None? {
        return Null;
      }
      ghost var c0 := cache.cache;
      ghost var e := cache.Put(key, value.value);
      PutCached(c0, cache.cache, key, value.value);
      CachedKey(c0, cache.cache, key, value.value);
      RebuiltCoherent(codec, Merged(), c0, cache.cache, key, value.value);
      return value.value;
    }

    static lemma ObservedManifest(c: Codec, s: Store, key: string)
      requires IsManifest(At(s, key))
      ensures At(s, key).Dict? && Observe(c, s, key) == Rebuilt(c, s, key, At(s, key))
    {}

    static lemma ChunkNotManifest(c: Codec, s: Store, key: string, i: nat)
      requires Plain(c, s)
      ensures !IsManifest(At(s, ChunkKey(key, i)))
    {}

    /** The chunk loop of `get`. */
    method GatherChunks(key: string, n: nat) returns (bytes: Option<Data>)
      requires Valid()
      modifies cache
      ensures Valid() && bytes == Gathered(codec, Merged(), key, n)
    {
      hide LawfulCodec, MemtableOk, DiskOk, Merge, Cached, Plain, Coherent, LfuCache.Cache.Valid, Observe, IsManifest,
           ChunkKey, IsChunkKey, Gathered, ChunkData;
      GatheredNone(codec, Merged(), key);
      var chunksData: Data := [];
      for i := 0 to n
        invariant Valid() && Gathered(codec, Merged(), key, i) == Some(chunksData)
      {
        ChunkNotManifest(codec, Merged(), key, i);
        GatheredStep(codec, Merged(), key, i);
        var chunkVal := GetCoherent(ChunkKey(key, i));
        var data := ChunkData(codec, chunkVal);
        if data.None? {
          GatheredFails(codec, Merged(), key, i + 1, n);
          return None;
        }
        chunksData := chunksData + data.value;
      }
      return Some(chunksData);
    }

    static lemma OnlyRecordTrans(a: Store, b: Store, c: Store, key: string)
      requires OnlyRecord(a, b, key) && OnlyRecord(b, c, key)
      ensures OnlyRecord(a, c, key)
    {
      hide At, ChunkKey;
    }

    static lemma RecordOnly(s: Store, s': Store, key: string, v: Json)
      requires OnlyRecord(s, s', key)
      ensures OnlyRecord(s, Assign(s', key, v), key)
    {
      OnlyRecordStep(s, s', key, 0, v);
    }

    static lemma ManifestPlaced(c: Codec, s: Store, key: string, value: Json)
      requires LawfulCodec(c) && !IsChunkKey(key)
      requires ChunksAt(c, s, key, Chunks(c.compress(c.utf8.encode(c.dumps(value)))))
      ensures var bytes := c.utf8.encode(c.dumps(value));
              var s' := Assign(s, key, Manifest(|Chunks(c.compress(bytes))|, |bytes|));
              IsManifest(At(s', key)) && Observe(c, s', key) == value && InChunks(c, s', key, value)
    {
      hide LawfulCodec, Observe, ChunkKey, Chunks;
      var bytes := c.utf8.encode(c.dumps(value));
      var s' := Assign(s, key, Manifest(|Chunks(c.compress(bytes))|, |bytes|));
      forall i: nat ensures At(s', ChunkKey(key, i)) == At(s, ChunkKey(key, i)) {}
      ManifestReadsBack(c, s', key, value);
    }

    static lemma ManifestCounts(s: Store, key: string, n: nat, size: nat)
      requires !IsChunkKey(key)
      ensures var s' := Assign(s, key, Manifest(n, size));
              && StoredChunks(At(s', key)) == n
              && forall i: nat :: At(s', ChunkKey(key, i)) == At(s, ChunkKey(key, i))
    {
      hide ChunkKey;
    }

    static lemma PutCached(c0: map<string, Json>, c1: map<string, Json>, key: string, v: Json)
      requires exists gone: set<string> :: c1 == (c0 - gone)[key := v]
      ensures Cached(c0, c1, key, v)
    {}

    static lemma ExcusedCoherent(c: Codec, s: Store, cache: map<string, Json>, key: string)
      requires Coherent(c, s, cache, None)
      ensures Coherent(c, s, cache, Some(key))
    {
      hide Observe, IsManifest;
    }
  }

  lemma NoSlices()
    ensures Chunks([]) == []
  {}

  /** The slicing of the compressed bytes in `set`. */
  method Slices(b: Data) returns (chunks: seq<Data>)
    ensures chunks == Chunks(b)
  {
    hide Chunks;
    chunks := [];
    var i := 0;
    assert b[0..] == b && chunks + Chunks(b) == Chunks(b);
    while i < |b|
      invariant i <= |b| && chunks + Chunks(b[i..]) == Chunks(b)
      decreases |b| - i
    {
      var end := if i + CHUNK_SIZE < |b| then i + CHUNK_SIZE else |b|;
      ghost var rest := b[i..];
      assert rest[..end - i] == b[i..end] && rest[end - i..] == b[end..];
      ChunksStep(rest, end - i);
      assert chunks + Chunks(rest) == (chunks + [b[i..end]]) + Chunks(b[end..]);
      chunks := chunks + [b[i..end]];
      i := end;
    }
    NoSlices();
    assert b[i..] == [] && chunks + [] == chunks;
  }
}
