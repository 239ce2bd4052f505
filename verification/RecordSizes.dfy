/** Which records `set` writes fit a page: the sizes behind "a flush never overflows". */
module RecordSizes {
  import opened Wrappers
  import opened Bytes
  import opened Records
  import opened Json
  import opened ChunkStore
  import opened TableFlush
  import PageFormat

  /** A value written whole, its JSON text at most 2000 bytes, fits under every key of up to 2070 bytes. */
  lemma SmallFits(c: Codec, key: string, v: Json)
    requires LawfulCodec(c) && |c.dumps(v)| <= 2000 && |c.utf8.encode(key)| <= 2070
    ensures Ascii(c.dumps(v)) && Pack(c.utf8, key, c.dumps(v)).Some?
    ensures GoodEntry(c.utf8, key, Pack(c.utf8, key, c.dumps(v)).value)
  {
    var text := c.dumps(v);
    assert Ascii(text);
  }

  /** 2070 is exact: a text of 2000 bytes under a longer key does not fit. */
  lemma SmallLimit(c: Codec, key: string, v: Json)
    requires LawfulCodec(c) && |c.dumps(v)| == 2000
    ensures Ascii(c.dumps(v))
    ensures Pack(c.utf8, key, c.dumps(v)).Some? && |Pack(c.utf8, key, c.dumps(v)).value| <= PageFormat.ROOM
            <==> |c.utf8.encode(key)| <= 2070
  {
    assert Ascii(c.dumps(v));
  }

  /** A chunk fits when key bytes and index digits together are at most 1389. */
  lemma ChunkFits(c: Codec, key: string, i: nat, chunk: Data)
    requires LawfulCodec(c) && |chunk| <= CHUNK_SIZE && |c.utf8.encode(key)| + |Digits(i)| <= 1389
    ensures var text := c.dumps(Str(c.b64encode(chunk)));
            && Ascii(text) && Pack(c.utf8, ChunkKey(key, i), text).Some?
            && GoodEntry(c.utf8, ChunkKey(key, i), Pack(c.utf8, ChunkKey(key, i), text).value)
  {
    hide LawfulCodec, ChunkKey, Digits;
    ChunkKeyLonger(c, key, i);
    ChunkText(c, chunk);
  }

  /** For a full chunk of 2000 bytes that bound is exact. */
  lemma ChunkLimit(c: Codec, key: string, i: nat, chunk: Data)
    requires LawfulCodec(c) && |chunk| == CHUNK_SIZE
    ensures var text := c.dumps(Str(c.b64encode(chunk)));
            && Ascii(text)
            && var packed := Pack(c.utf8, ChunkKey(key, i), text);
               packed.Some? && |packed.value| <= PageFormat.ROOM <==> |c.utf8.encode(key)| + |Digits(i)| <= 1389
  {
    hide LawfulCodec, ChunkKey, Digits;
    ChunkKeyLonger(c, key, i);
    ChunkText(c, chunk);
  }

  lemma ChunkText(c: Codec, chunk: Data)
    requires LawfulCodec(c)
    ensures Ascii(c.dumps(Str(c.b64encode(chunk)))) && |c.dumps(Str(c.b64encode(chunk)))| == B64Length(|chunk|) + 2
  {}

  /** The null over an old chunk fits with room to spare. */
  lemma ChunkDeletionFits(c: Codec, key: string, i: nat)
    requires LawfulCodec(c) && |c.utf8.encode(key)| + |Digits(i)| <= 4055
    ensures Pack(c.utf8, ChunkKey(key, i), "null").Some?
    ensures GoodEntry(c.utf8, ChunkKey(key, i), Pack(c.utf8, ChunkKey(key, i), "null").value)
  {
    hide LawfulCodec, ChunkKey, Digits;
    ChunkKeyLonger(c, key, i);
    assert Ascii("null");
  }

  lemma ManifestLength(c: Codec, n: nat, size: nat)
    requires LawfulCodec(c)
    ensures Ascii(c.dumps(Manifest(n, size))) && |c.dumps(Manifest(n, size))| == 83 + |Digits(n)| + |Digits(size)|
  {
    hide Digits, Manifest;
  }

  /** A manifest under such a key fits as well: 83 characters and its two numbers. */
  lemma ManifestFits(c: Codec, key: string, n: nat, size: nat)
    requires LawfulCodec(c)
    requires |c.utf8.encode(key)| <= 1389 && |Digits(n)| + |Digits(size)| <= 2598
    ensures Ascii(c.dumps(Manifest(n, size))) && Pack(c.utf8, key, c.dumps(Manifest(n, size))).Some?
    ensures GoodEntry(c.utf8, key, Pack(c.utf8, key, c.dumps(Manifest(n, size))).value)
  {
    hide Digits, Manifest;
    ManifestLength(c, n, size);
  }
}
