/**
 Chunked records over a plain map.

 `Store` is what the router's internal operations read and write; `Observe` is what a caller is meant
 to see in it: a manifest stands for the value its chunks spell out.
 */
module ChunkStore {
  import opened Wrappers
  import opened Bytes
  import opened Records
  import opened Json

  /** Values that are not null; an absent key reads as null. */
  type Store = map<string, Json>

  function At(s: Store, key: string): Json {
    if key in s then s[key] else Null
  }

  function Assign(s: Store, key: string, v: Json): Store {
    if v == Null then s - {key} else s[key := v]
  }

  const CHUNK_SIZE: nat := 2000

  /** The slices of the compressed bytes. */
  function Chunks(b: Data): (cs: seq<Data>)
    ensures forall c | c in cs :: 0 < |c| <= CHUNK_SIZE
  {
    if b == [] then [] else if |b| <= CHUNK_SIZE then [b] else [b[..CHUNK_SIZE]] + Chunks(b[CHUNK_SIZE..])
  }

  lemma ChunksStep(b: Data, n: nat)
    requires b != [] && n == if |b| <= CHUNK_SIZE then |b| else CHUNK_SIZE
    ensures Chunks(b) == [b[..n]] + Chunks(b[n..])
  {
    assert b[..|b|] == b;
  }

  function Joined(cs: seq<Data>): Data {
    if cs == [] then [] else Joined(cs[..|cs| - 1]) + cs[|cs| - 1]
  }

  lemma {:induction false} JoinedFront(c: Data, cs: seq<Data>)
    ensures Joined([c] + cs) == c + Joined(cs)
    decreases |cs|
  {
    if cs == [] {
      assert [c] + cs == [c] && [c][..0] == [];
    } else {
      var all, front, last := [c] + cs, cs[..|cs| - 1], cs[|cs| - 1];
      JoinedFront(c, front);
      assert all[..|all| - 1] == [c] + front && all[|all| - 1] == last;
      assert Joined(all) == Joined([c] + front) + last;
      assert c + Joined(front) + last == c + (Joined(front) + last);
    }
  }

  /** Nothing is lost or reordered by slicing. */
  lemma {:induction false} ChunksJoin(b: Data)
    ensures Joined(Chunks(b)) == b
    decreases |b|
  {
    if |b| > CHUNK_SIZE {
      ChunksJoin(b[CHUNK_SIZE..]);
      JoinedFront(b[..CHUNK_SIZE], Chunks(b[CHUNK_SIZE..]));
    } else if b != [] {
      assert [b][..0] == [];
    }
  }

  /** As many chunks as it takes: all but the last are full, and the last is not empty. */
  lemma {:induction false} ChunkCountIs(b: Data)
    ensures var n := |Chunks(b)|; 2000 * n >= |b| && (n > 0 ==> 2000 * (n - 1) < |b|)
    decreases |b|
  {
    if |b| > 2000 {
      assert Chunks(b) == [b[..2000]] + Chunks(b[2000..]);
      ChunkCountIs(b[2000..]);
    }
  }

  /** The chunks are the slices of 2000 bytes, the last one what is left. */
  lemma {:induction false} ChunksAre(b: Data, i: nat)
    requires i < |Chunks(b)|
    ensures Chunks(b)[i] == SliceAt(b, 2000 * i)
    decreases i
  {
    hide Chunks, SliceAt;
    if i == 0 {
      FirstChunk(b);
    } else {
      LaterChunk(b, i);
      ChunksAre(b[2000..], i - 1);
      SliceFurther(b, 2000 * (i - 1));
      assert 2000 * (i - 1) + 2000 == 2000 * i;
    }
  }

  lemma FirstChunk(b: Data)
    requires Chunks(b) != []
    ensures Chunks(b)[0] == SliceAt(b, 0)
  {
    assert b[0..] == b;
  }

  lemma LaterChunk(b: Data, i: nat)
    requires 0 < i < |Chunks(b)|
    ensures |b| > 2000 && i - 1 < |Chunks(b[2000..])| && Chunks(b)[i] == Chunks(b[2000..])[i - 1]
  {
    assert |b| > 2000;
    assert Chunks(b) == [b[..2000]] + Chunks(b[2000..]);
  }

  /** Up to 2000 bytes from `at` on. */
  function SliceAt(b: Data, at: nat): (s: Data)
    ensures |s| == if |b| <= at then 0 else if |b| < at + 2000 then |b| - at else 2000
    ensures forall j | 0 <= j < |s| :: s[j] == b[at + j]
  {
    if |b| <= at then [] else if |b| < at + 2000 then b[at..] else b[at..at + 2000]
  }

  lemma SliceFurther(b: Data, at: nat)
    requires |b| > 2000
    ensures SliceAt(b[2000..], at) == SliceAt(b, at + 2000)
  {
    var s, r := SliceAt(b[2000..], at), SliceAt(b, at + 2000);
    forall j | 0 <= j < |s| ensures s[j] == r[j] {
      assert s[j] == b[2000..][at + j] == b[at + 2000 + j];
    }
  }

  // ---------------------------------------------------------------------------------------
  // What a caller sees

  /** One chunk's bytes; a missing chunk or one that is not base64 text has none. */
  function ChunkData(c: Codec, v: Json): Option<Data> {
    if v.Str? then c.b64decode(v.s) else None
  }

  function Gathered(c: Codec, s: Store, key: string, n: nat): Option<Data> {
    if n == 0 then Some([])
    else
      var front, last := Gathered(c, s, key, n - 1), ChunkData(c, At(s, ChunkKey(key, n - 1)));
      if front.Some? && last.Some? then Some(front.value + last.value) else None
  }

  lemma GatheredNone(c: Codec, s: Store, key: string)
    ensures Gathered(c, s, key, 0) == Some([])
  {}

  lemma GatheredStep(c: Codec, s: Store, key: string, n: nat)
    ensures var front, last := Gathered(c, s, key, n), ChunkData(c, At(s, ChunkKey(key, n)));
            Gathered(c, s, key, n + 1) == if front.Some? && last.Some? then Some(front.value + last.value) else None
  {}

  function Decoded(c: Codec, bytes: Data): Json {
    var text := c.utf8.decode(bytes);
    if text.None? then Null
    else
      var v := c.loads(text.value);
      if v.None? then Null else v.value
  }

  /** The value a manifest stands for, null if any part of it cannot be had. */
  function Rebuilt(c: Codec, s: Store, key: string, manifest: Json): Json
    requires IsManifest(manifest)
  {
    var n := ChunkCount(manifest);
    if n.None? then Null
    else
      var bytes := Gathered(c, s, key, n.value);
      if bytes.None? then Null
      else if !IsCompressed(manifest) then Decoded(c, bytes.value)
      else
        var original := c.decompress(bytes.value);
        if original.None? then Null else Decoded(c, original.value)
  }

  function Observe(c: Codec, s: Store, key: string): Json {
    if IsManifest(At(s, key)) then Rebuilt(c, s, key, At(s, key)) else At(s, key)
  }

  // ---------------------------------------------------------------------------------------
  // What it means for a manifest to stand for a value

  /** Every counted chunk is there and is base64 text; `parts` are their bytes. */
  ghost predicate PartsAt(c: Codec, s: Store, key: string, n: nat, parts: seq<Data>) {
    |parts| == n
    && forall i | 0 <= i < n ::
         At(s, ChunkKey(key, i)).Str? && c.b64decode(At(s, ChunkKey(key, i)).s) == Some(parts[i])
  }

  /** The chunks, joined, decompressed if they are marked so, and decoded, are the JSON text of `w`. */
  ghost predicate Spells(c: Codec, s: Store, key: string, parts: seq<Data>, raw: Data, text: string, w: Json) {
    var m := At(s, key);
    && IsManifest(m) && ChunkCount(m) == Some(|parts|) && PartsAt(c, s, key, |parts|, parts)
    && (if IsCompressed(m) then c.decompress(Joined(parts)) == Some(raw) else raw == Joined(parts))
    && c.utf8.decode(raw) == Some(text) && c.loads(text) == Some(w)
  }

  ghost predicate Spelled(c: Codec, s: Store, key: string, w: Json) {
    exists parts, raw, text :: Spells(c, s, key, parts, raw, text, w)
  }

  lemma PartsMore(c: Codec, s: Store, key: string, n: nat, parts: seq<Data>, part: Data)
    requires PartsAt(c, s, key, n, parts)
    ensures PartsAt(c, s, key, n + 1, parts + [part]) <==> ChunkData(c, At(s, ChunkKey(key, n))) == Some(part)
  {
    hide ChunkKey;
    var more := parts + [part];
    assert more[n] == part && forall i | 0 <= i < n :: more[i] == parts[i];
  }

  lemma PartsLess(c: Codec, s: Store, key: string, n: nat, parts: seq<Data>)
    requires PartsAt(c, s, key, n + 1, parts)
    ensures |parts| == n + 1 && PartsAt(c, s, key, n, parts[..n]) && parts[..n] + [parts[n]] == parts
  {
    hide ChunkKey;
  }

  lemma JoinedMore(parts: seq<Data>, part: Data)
    ensures Joined(parts + [part]) == Joined(parts) + part
  {
    assert (parts + [part])[..|parts|] == parts;
  }

  /** The chunks gather exactly if every one of them can be had, and then to their join. */
  lemma {:induction false} GatheredParts(c: Codec, s: Store, key: string, n: nat) returns (parts: seq<Data>)
    ensures Gathered(c, s, key, n).Some? ==>
              PartsAt(c, s, key, n, parts) && Gathered(c, s, key, n) == Some(Joined(parts))
    decreases n
  {
    parts := [];
    if n > 0 {
      hide ChunkKey, ChunkData, Gathered, Joined, PartsAt;
      GatheredStep(c, s, key, n - 1);
      parts := GatheredParts(c, s, key, n - 1);
      var part := ChunkData(c, At(s, ChunkKey(key, n - 1)));
      if Gathered(c, s, key, n).Some? {
        PartsMore(c, s, key, n - 1, parts, part.value);
        JoinedMore(parts, part.value);
        parts := parts + [part.value];
      }
    }
  }

  lemma {:induction false} PartsGather(c: Codec, s: Store, key: string, n: nat, parts: seq<Data>)
    requires PartsAt(c, s, key, n, parts)
    ensures Gathered(c, s, key, n) == Some(Joined(parts))
  {
    if n > 0 {
      hide ChunkKey, ChunkData, Gathered, Joined, PartsAt;
      PartsLess(c, s, key, n - 1, parts);
      PartsMore(c, s, key, n - 1, parts[..n - 1], parts[n - 1]);
      JoinedMore(parts[..n - 1], parts[n - 1]);
      GatheredStep(c, s, key, n - 1);
      PartsGather(c, s, key, n - 1, parts[..n - 1]);
    }
  }

  /** A manifest stands for the value its chunks spell, and for null if they spell none. */
  lemma ManifestStandsFor(c: Codec, s: Store, key: string)
    requires IsManifest(At(s, key))
    ensures forall w | Spelled(c, s, key, w) :: Observe(c, s, key) == w
    ensures (forall w :: !Spelled(c, s, key, w)) ==> Observe(c, s, key) == Null
  {
    hide Gathered, Joined, PartsAt, ChunkKey, IsCompressed, ChunkCount;
    var m := At(s, key);
    forall w | Spelled(c, s, key, w) ensures Observe(c, s, key) == w {
      var parts, raw, text :| Spells(c, s, key, parts, raw, text, w);
      PartsGather(c, s, key, |parts|, parts);
    }
    if Observe(c, s, key) != Null {
      var n := ChunkCount(m).value;
      var parts := GatheredParts(c, s, key, n);
      PartsLength(c, s, key, n, parts);
      var raw := if IsCompressed(m) then c.decompress(Joined(parts)).value else Joined(parts);
      assert Spells(c, s, key, parts, raw, c.utf8.decode(raw).value, Observe(c, s, key));
      assert Spelled(c, s, key, Observe(c, s, key));
    }
  }

  lemma PartsLength(c: Codec, s: Store, key: string, n: nat, parts: seq<Data>)
    requires PartsAt(c, s, key, n, parts)
    ensures |parts| == n
  {}

  /** A record with a chunk that is missing, or is not base64 text, reads as null. */
  lemma MissingChunk(c: Codec, s: Store, key: string, n: nat, i: nat)
    requires IsManifest(At(s, key)) && ChunkCount(At(s, key)) == Some(n) && i < n
    requires var v := At(s, ChunkKey(key, i)); !v.Str? || c.b64decode(v.s) == None
    ensures Observe(c, s, key) == Null
  {
    hide Observe, ChunkKey, Joined, IsCompressed;
    ManifestStandsFor(c, s, key);
    forall w ensures !Spelled(c, s, key, w) {
      if parts, raw, text :| Spells(c, s, key, parts, raw, text, w) {
        assert PartsAt(c, s, key, |parts|, parts);
      }
    }
  }

  /** So does one whose count is missing or no number. */
  lemma MissingCount(c: Codec, s: Store, key: string)
    requires IsManifest(At(s, key)) && ChunkCount(At(s, key)) == None
    ensures Observe(c, s, key) == Null
  {
    hide Observe, ChunkKey, Joined, IsCompressed, PartsAt;
    ManifestStandsFor(c, s, key);
  }

  /** And one whose chunks do not decompress, are not UTF-8 or not JSON. */
  lemma ForeignChunks(c: Codec, s: Store, key: string, parts: seq<Data>)
    requires IsManifest(At(s, key)) && ChunkCount(At(s, key)) == Some(|parts|) && PartsAt(c, s, key, |parts|, parts)
    requires var raw := if IsCompressed(At(s, key)) then c.decompress(Joined(parts)) else Some(Joined(parts));
             raw == None || c.utf8.decode(raw.value) == None || c.loads(c.utf8.decode(raw.value).value) == None
    ensures Observe(c, s, key) == Null
  {
    PartsGather(c, s, key, |parts|, parts);
  }

  // ---------------------------------------------------------------------------------------
  // A write is seen at its key and nowhere else

  /** The stores agree except at `key` and at keys of its chunks. */
  ghost predicate OnlyRecord(s: Store, s': Store, key: string) {
    forall k | k != key && !(exists i :: k == ChunkKey(key, i)) :: At(s', k) == At(s, k)
  }

  lemma {:induction false} GatheredSame(c: Codec, s: Store, s': Store, key: string, n: nat)
    requires forall i: nat | i < n :: At(s', ChunkKey(key, i)) == At(s, ChunkKey(key, i))
    ensures Gathered(c, s', key, n) == Gathered(c, s, key, n)
  {
    if n > 0 { GatheredSame(c, s, s', key, n - 1); }
  }

  lemma OnlyRecordStep(s: Store, s': Store, key: string, i: nat, v: Json)
    requires OnlyRecord(s, s', key)
    ensures OnlyRecord(s, Assign(s', ChunkKey(key, i), v), key) && OnlyRecord(s, Assign(s', key, v), key)
  {}

  /** A chunk key is longer than the key it is made from. */
  lemma ChunkKeyLonger(c: Codec, key: string, i: nat)
    requires LawfulCodec(c)
    ensures |c.utf8.encode(ChunkKey(key, i))| == |CHUNK_PREFIX| + |c.utf8.encode(key)| + 1 + |Digits(i)|
  {
    hide LawfulCodec;
    EncodeConcat(c, CHUNK_PREFIX + key + ":", Digits(i));
    EncodeConcat(c, CHUNK_PREFIX + key, ":");
    EncodeConcat(c, CHUNK_PREFIX, key);
    EncodeAscii(c, CHUNK_PREFIX);
    EncodeAscii(c, ":");
    EncodeAscii(c, Digits(i));
  }

  lemma EncodeConcat(c: Codec, a: string, b: string)
    requires LawfulCodec(c)
    ensures c.utf8.encode(a + b) == c.utf8.encode(a) + c.utf8.encode(b)
  {}

  lemma EncodeAscii(c: Codec, text: string)
    requires LawfulCodec(c) && Ascii(text)
    ensures |c.utf8.encode(text)| == |text|
  {}

  /** Whatever happens to one record's key and chunks, any other record reads as before. */
  lemma OthersUnchanged(c: Codec, s: Store, s': Store, key: string, other: string)
    requires OnlyRecord(s, s', key) && !IsChunkKey(key)
    requires other != key && !(exists i :: other == ChunkKey(key, i))
    ensures At(s', other) == At(s, other) && Observe(c, s', other) == Observe(c, s, other)
  {
    forall i: nat ensures At(s', ChunkKey(other, i)) == At(s, ChunkKey(other, i)) {
      if j :| ChunkKey(other, i) == ChunkKey(key, j) {
        ChunkKeyInjective(other, i, key, j);
      }
    }
    if IsManifest(At(s, other)) {
      var n := ChunkCount(At(s, other));
      if n.Some? { GatheredSame(c, s, s', other, n.value); }
    }
  }

  /** The chunks `from` to `|cs|` of a value are in place under their keys. */
  ghost predicate ChunksAt(c: Codec, s: Store, key: string, cs: seq<Data>) {
    forall i | 0 <= i < |cs| :: At(s, ChunkKey(key, i)) == Str(c.b64encode(cs[i]))
  }

  /** The record is a manifest that counts the chunks of the value's compressed text, and these are in place. */
  ghost predicate InChunks(c: Codec, s: Store, key: string, v: Json) {
    var bytes := c.utf8.encode(c.dumps(v));
    var cs := Chunks(c.compress(bytes));
    At(s, key) == Manifest(|cs|, |bytes|) && ChunksAt(c, s, key, cs)
  }

  lemma ChunksAtStep(c: Codec, s: Store, key: string, cs: seq<Data>, i: nat)
    requires i < |cs| && ChunksAt(c, s, key, cs[..i])
    ensures ChunksAt(c, Assign(s, ChunkKey(key, i), Str(c.b64encode(cs[i]))), key, cs[..i + 1])
  {
    hide ChunkKey;
    forall j | 0 <= j < i ensures ChunkKey(key, j) != ChunkKey(key, i) && cs[..i + 1][j] == cs[..i][j] {
      if ChunkKey(key, j) == ChunkKey(key, i) { ChunkKeyInjective(key, j, key, i); }
    }
  }

  lemma {:induction false} GatheredFails(c: Codec, s: Store, key: string, i: nat, n: nat)
    requires i <= n && Gathered(c, s, key, i) == None
    ensures Gathered(c, s, key, n) == None
    decreases n
  {
    if i < n { GatheredFails(c, s, key, i, n - 1); }
  }

  lemma B64Back(c: Codec, b: Data)
    requires LawfulCodec(c)
    ensures ChunkData(c, Str(c.b64encode(b))) == Some(b)
  {}

  lemma {:induction false} GatheredJoins(c: Codec, s: Store, key: string, cs: seq<Data>, n: nat)
    requires LawfulCodec(c) && ChunksAt(c, s, key, cs) && n <= |cs|
    ensures Gathered(c, s, key, n) == Some(Joined(cs[..n]))
  {
    hide LawfulCodec, Gathered, ChunkKey;
    if n > 0 {
      GatheredJoins(c, s, key, cs, n - 1);
      GatheredStep(c, s, key, n - 1);
      B64Back(c, cs[n - 1]);
      assert cs[..n][..n - 1] == cs[..n - 1];
    } else {
      GatheredNone(c, s, key);
      assert cs[..0] == [];
    }
  }

  /** A large value, once its chunks and its manifest are written, is read back. */
  lemma ManifestReadsBack(c: Codec, s: Store, key: string, v: Json)
    requires LawfulCodec(c) && InChunks(c, s, key, v)
    ensures Observe(c, s, key) == v
  {
    hide Chunks, ChunksAt, Gathered, Joined, ChunkKey, Ascii, TextBytes;
    var bytes := c.utf8.encode(c.dumps(v));
    var cs := Chunks(c.compress(bytes));
    GatheredJoins(c, s, key, cs, |cs|);
    assert cs[..|cs|] == cs;
    ChunksJoin(c.compress(bytes));
    assert Gathered(c, s, key, |cs|) == Some(c.compress(bytes));
    assert c.decompress(c.compress(bytes)) == Some(bytes);
    assert Decoded(c, bytes) == v;
  }

  // ---------------------------------------------------------------------------------------
  // The cache

  /**
   Every cached value that is not null is the stored one, or the value its stored manifest stands for.
   While a record is being written its own entry is excused.
   */
  ghost predicate Coherent(c: Codec, s: Store, cache: map<string, Json>, excused: Option<string>) {
    forall k | k in cache && cache[k] != Null && excused != Some(k) ::
      cache[k] == At(s, k) || (IsManifest(At(s, k)) && cache[k] == Observe(c, s, k))
  }

  /** `put`: the entry is in the cache, the others are there as they were unless evicted. */
  ghost predicate Cached(cache: map<string, Json>, cache': map<string, Json>, key: string, v: Json) {
    key in cache' && cache'[key] == v && forall k | k in cache' && k != key :: k in cache && cache'[k] == cache[k]
  }

  /** Stored chunks are never manifests. */
  ghost predicate ChunksPlain(s: Store) {
    forall k | IsChunkKey(k) :: !IsManifest(At(s, k))
  }

  /** Nor does any record read as one. */
  ghost predicate Plain(c: Codec, s: Store) {
    ChunksPlain(s) && forall k | !IsChunkKey(k) :: !IsManifest(Observe(c, s, k))
  }

  /** Writing a chunk of the excused record leaves every other cached value right. */
  lemma ChunkKeepsCoherent(c: Codec, s: Store, cache: map<string, Json>, cache': map<string, Json>, owner: string,
                           i: nat, v: Json)
    requires Coherent(c, s, cache, Some(owner)) && ChunksPlain(s) && !IsChunkKey(owner) && !IsManifest(v)
    requires Cached(cache, cache', ChunkKey(owner, i), v)
    ensures Coherent(c, Assign(s, ChunkKey(owner, i), v), cache', Some(owner))
            && ChunksPlain(Assign(s, ChunkKey(owner, i), v))
  {
    hide Observe, IsManifest, ChunkKey, IsChunkKey;
    var s', ck := Assign(s, ChunkKey(owner, i), v), ChunkKey(owner, i);
    forall k | k in cache' && cache'[k] != Null && k != owner
      ensures cache'[k] == At(s', k) || (IsManifest(At(s', k)) && cache'[k] == Observe(c, s', k))
    {
      if k != ck && IsManifest(At(s, k)) {
        OthersUnchanged(c, s, s', owner, k);
      }
    }
  }

  /** Writing the record itself makes the whole cache right again. */
  lemma RecordCoherent(c: Codec, s: Store, cache: map<string, Json>, cache': map<string, Json>, owner: string, v: Json)
    requires Coherent(c, s, cache, Some(owner)) && ChunksPlain(s) && !IsChunkKey(owner)
    requires Cached(cache, cache', owner, v)
    ensures Coherent(c, Assign(s, owner, v), cache', None) && ChunksPlain(Assign(s, owner, v))
  {
    hide Observe, IsManifest, ChunkKey, IsChunkKey;
    var s' := Assign(s, owner, v);
    forall k | k in cache' && cache'[k] != Null
      ensures cache'[k] == At(s', k) || (IsManifest(At(s', k)) && cache'[k] == Observe(c, s', k))
    {
      if k != owner && IsManifest(At(s, k)) {
        OthersUnchanged(c, s, s', owner, k);
      }
    }
  }

  /** Caching what a manifest stands for is right. */
  lemma RebuiltCoherent(c: Codec, s: Store, cache: map<string, Json>, cache': map<string, Json>, key: string, v: Json)
    requires Coherent(c, s, cache, None) && Cached(cache, cache', key, v)
    requires v == At(s, key) || (IsManifest(At(s, key)) && v == Observe(c, s, key))
    ensures Coherent(c, s, cache', None)
  {}

  /** The effect of a whole `set` on what callers see, and that the store stays plain. */
  lemma WriteSeen(c: Codec, s: Store, s': Store, key: string, v: Json)
    requires Plain(c, s) && OnlyRecord(s, s', key) && ChunksPlain(s') && !IsChunkKey(key)
    requires Observe(c, s', key) == v && !IsManifest(v)
    ensures Plain(c, s')
    ensures forall k | k != key && !IsChunkKey(k) :: Observe(c, s', k) == Observe(c, s, k)
  {
    hide Observe, IsManifest, ChunkKey, IsChunkKey, ChunksPlain;
    forall k | k != key && !IsChunkKey(k) ensures Observe(c, s', k) == Observe(c, s, k) {
      OthersUnchanged(c, s, s', key, k);
    }
  }
}
