/**
 What a restart gives back of a chunked record.

 Recovery puts each record into the table named before the first colon of its key. A chunk's key starts with
 `__chunk__:`, so its record goes to a table of that name, where no reader of the record's own table looks.
 */
module LargeRecovery {
  import opened Wrappers
  import opened Bytes
  import opened Namespace
  import opened Json
  import opened ChunkStore
  import opened Engine
  import opened Recovery
  import RouterModel

  const CHUNK_TABLE := "__chunk__"

  /** Every chunk of every record is recovered into one and the same table. */
  lemma ChunkTable(key: string, i: nat)
    ensures TableOf(ChunkKey(key, i)) == CHUNK_TABLE
  {
    hide TableOf, ChunkKey, Digits;
    var k := ChunkKey(key, i);
    ChunkKeyText(key, i);
    assert k[9] == k[..10][9] == ':';
    assert k[..9] == k[..10][..9] == CHUNK_TABLE;
    TableOfRead(k, 9);
  }

  /** The memtable of a table once the log has been replayed. */
  function RecoveredMemtable(es: seq<(nat, Write)>, t: string): map<string, string> {
    if t in Replay(es) then Replay(es)[t] else map[]
  }

  /** What a key of one table reads as: the memtable's text, else the live text on disk. */
  function TextValue(c: Codec, mem: map<string, string>, disk: map<string, string>, key: string): Json {
    if key in mem then RouterModel.DiskValue(c, mem[key])
    else if key in disk then RouterModel.DiskValue(c, disk[key]) else Null
  }

  ghost predicate ShowsTexts(c: Codec, s: Store, mem: map<string, string>, disk: map<string, string>) {
    forall k :: At(s, k) == TextValue(c, mem, disk, k)
  }

  /** No record of another table gets into a recovered memtable. */
  lemma {:induction false} OwnKeys(es: seq<(nat, Write)>, t: string, key: string)
    requires key in RecoveredMemtable(es, t)
    ensures TableOf(key) == t
    decreases |es|
  {
    hide TableOf;
    var front, w := es[..|es| - 1], es[|es| - 1].1;
    if !(TableOf(w.key) == t && w.key == key) {
      OwnKeys(front, t, key);
    }
  }

  /** Whatever the log held, the chunks a reader finds after a restart are those on disk. */
  lemma ChunksFromDisk(c: Codec, s: Store, es: seq<(nat, Write)>, t: string, disk: map<string, string>, key: string,
                       i: nat)
    requires t != CHUNK_TABLE && ShowsTexts(c, s, RecoveredMemtable(es, t), disk)
    ensures At(s, ChunkKey(key, i)) == TextValue(c, map[], disk, ChunkKey(key, i))
  {
    hide TableOf, ChunkKey, RecoveredMemtable, RouterModel.DiskValue;
    var k := ChunkKey(key, i);
    ChunkTable(key, i);
    if k in RecoveredMemtable(es, t) { OwnKeys(es, t, k); }
  }

  /**
   A large record whose manifest is there after a restart reads as its value if all its chunks had reached the disk,
   and as null if one of them had not, even though the log held them all.
   */
  lemma LargeAfterRestart(c: Codec, s: Store, es: seq<(nat, Write)>, t: string, disk: map<string, string>, key: string,
                          v: Json)
    requires LawfulCodec(c) && t != CHUNK_TABLE && ShowsTexts(c, s, RecoveredMemtable(es, t), disk)
    requires var bytes := c.utf8.encode(c.dumps(v)); At(s, key) == Manifest(|Chunks(c.compress(bytes))|, |bytes|)
    ensures var cs := Chunks(c.compress(c.utf8.encode(c.dumps(v))));
            && ((forall i | 0 <= i < |cs| ::
                   ChunkKey(key, i) in disk && disk[ChunkKey(key, i)] == c.dumps(Str(c.b64encode(cs[i])))) ==>
                  Observe(c, s, key) == v)
            && ((exists i :: 0 <= i < |cs| && ChunkKey(key, i) !in disk) ==> Observe(c, s, key) == Null)
  {
    hide LawfulCodec, RecoveredMemtable, ShowsTexts, Observe, ChunkKey, Chunks, Manifest, IsManifest, ChunkCount;
    var bytes := c.utf8.encode(c.dumps(v));
    var cs := Chunks(c.compress(bytes));
    forall i: nat | i < |cs| ensures At(s, ChunkKey(key, i)) == TextValue(c, map[], disk, ChunkKey(key, i)) {
      ChunksFromDisk(c, s, es, t, disk, key, i);
    }
    if forall i | 0 <= i < |cs| ::
         ChunkKey(key, i) in disk && disk[ChunkKey(key, i)] == c.dumps(Str(c.b64encode(cs[i])))
    {
      forall i | 0 <= i < |cs| ensures At(s, ChunkKey(key, i)) == Str(c.b64encode(cs[i])) {
        TextBack(c, Str(c.b64encode(cs[i])));
      }
      assert InChunks(c, s, key, v);
      ManifestReadsBack(c, s, key, v);
    }
    if i :| 0 <= i < |cs| && ChunkKey(key, i) !in disk {
      ManifestCount(|cs|, |bytes|);
      MissingChunk(c, s, key, |cs|, i);
    }
  }

  lemma TextBack(c: Codec, v: Json)
    requires LawfulCodec(c)
    ensures RouterModel.DiskValue(c, c.dumps(v)) == v
  {
    assert c.loads(c.dumps(v)) == Some(v);
  }

  lemma ManifestCount(n: nat, size: nat)
    ensures IsManifest(Manifest(n, size)) && ChunkCount(Manifest(n, size)) == Some(n)
  {}
}
