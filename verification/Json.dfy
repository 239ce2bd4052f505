/** JSON values, the codecs the router calls, and the keys and manifests of chunked records. */
module Json {
  import opened Wrappers
  import opened Bytes
  import opened Records

  /** A float is the text JSON writes for it: there are only countably many, and each comes back from its text. */
  datatype Json =
    | Null
    | Bool(b: bool)
    | Int(i: int)
    | Float(text: string)
    | Str(s: string)
    | List(items: seq<Json>)
    | Dict(fields: map<string, Json>)

  /** `json`, `zlib`, `base64` and UTF-8, as functions that may fail on foreign input. */
  datatype Codec = Codec(
    dumps: Json -> string,
    loads: string -> Option<Json>,
    compress: Data -> Data,
    decompress: Data -> Option<Data>,
    b64encode: Data -> string,
    b64decode: string -> Option<Data>,
    utf8: Utf8)

  /** Length of a base64 text, section 4 of RFC 4648: four characters for every three bytes, padded. */
  function B64Length(n: nat): nat {
    4 * ((n + 2) / 3)
  }

  /** Decoding undoes encoding; JSON text is ASCII; base64 and a manifest come out as `json.dumps` lays them out. */
  ghost predicate LawfulCodec(c: Codec) {
    LawfulUtf8(c.utf8) && LawfulText(c) && LawfulJson(c) && LawfulBytes(c) && LawfulSizes(c)
  }

  /** UTF-8 is strict, works character by character, and leaves ASCII as it is. */
  ghost predicate LawfulText(c: Codec) {
    && (forall a, b :: c.utf8.encode(a + b) == c.utf8.encode(a) + c.utf8.encode(b))
    && (forall b, s :: c.utf8.decode(b) == Some(s) ==> c.utf8.encode(s) == b)
    && (forall text | Ascii(text) :: c.utf8.encode(text) == TextBytes(text))
  }

  ghost predicate LawfulJson(c: Codec) {
    && (forall v :: Ascii(c.dumps(v)) && c.loads(c.dumps(v)) == Some(v))
    && c.dumps(Null) == "null" && c.loads("") == None
  }

  ghost predicate LawfulBytes(c: Codec) {
    && (forall b :: c.decompress(c.compress(b)) == Some(b))
    && (forall b :: c.b64decode(c.b64encode(b)) == Some(b))
  }

  ghost predicate LawfulSizes(c: Codec) {
    && (forall b :: |c.b64encode(b)| == B64Length(|b|) && |c.dumps(Str(c.b64encode(b)))| == |c.b64encode(b)| + 2)
    && (forall n: nat, size: nat :: |c.dumps(Manifest(n, size))| == 83 + |Digits(n)| + |Digits(size)|)
  }

  // ---------------------------------------------------------------------------------------
  // Manifests

  const OVERFLOW := "__cachy_overflow__"
  const NUM_CHUNKS := "num_chunks"
  const COMPRESSED := "compressed"
  const ORIGINAL_SIZE := "original_size"

  /** A dictionary whose overflow mark is exactly `True`. */
  predicate IsManifest(v: Json) {
    v.Dict? && OVERFLOW in v.fields && v.fields[OVERFLOW] == Bool(true)
  }

  function Manifest(n: nat, size: nat): (v: Json)
    ensures IsManifest(v) && ChunkCount(v) == Some(n) && IsCompressed(v)
  {
    Dict(map[OVERFLOW := Bool(true), NUM_CHUNKS := Int(n), ORIGINAL_SIZE := Int(size), COMPRESSED := Bool(true)])
  }

  /** `val["num_chunks"]` as a range bound; a missing or foreign entry raises. */
  function ChunkCount(v: Json): Option<nat>
    requires v.Dict?
  {
    if NUM_CHUNKS in v.fields && v.fields[NUM_CHUNKS].Int? then
      Some(if v.fields[NUM_CHUNKS].i < 0 then 0 else v.fields[NUM_CHUNKS].i)
    else None
  }

  predicate IsCompressed(v: Json)
    requires v.Dict?
  {
    COMPRESSED in v.fields && v.fields[COMPRESSED] == Bool(true)
  }

  /** A manifest spelled out, and what of a dictionary is looked at when it is read. */
  lemma ManifestFields(n: nat, size: nat, fields: map<string, Json>)
    ensures Manifest(n, size) == Dict(map["__cachy_overflow__" := Bool(true), "num_chunks" := Int(n),
                                          "original_size" := Int(size), "compressed" := Bool(true)])
    ensures IsManifest(Dict(fields)) <==> ("__cachy_overflow__", Bool(true)) in fields.Items
    ensures IsCompressed(Dict(fields)) <==> ("compressed", Bool(true)) in fields.Items
    ensures forall i: nat | ("num_chunks", Int(i)) in fields.Items :: ChunkCount(Dict(fields)) == Some(i)
    ensures forall i: int | i < 0 && ("num_chunks", Int(i)) in fields.Items :: ChunkCount(Dict(fields)) == Some(0)
    ensures (forall i: int :: ("num_chunks", Int(i)) !in fields.Items) ==> ChunkCount(Dict(fields)) == None
  {
    if NUM_CHUNKS in fields && fields[NUM_CHUNKS].Int? {
      assert ("num_chunks", Int(fields[NUM_CHUNKS].i)) in fields.Items;
    }
  }

  // ---------------------------------------------------------------------------------------
  // Chunk keys

  const CHUNK_PREFIX := "__chunk__:"

  function Digits(n: nat): (s: string)
    ensures |s| > 0 && forall i | 0 <= i < |s| :: '0' <= s[i] <= '9'
  {
    var last := ['0' + (n % 10) as char];
    if n < 10 then last else Digits(n / 10) + last
  }

  /** A decimal numeral read from the left. */
  function Numeral(s: string): int {
    if s == "" then 0 else 10 * Numeral(s[..|s| - 1]) + (s[|s| - 1] as int - '0' as int)
  }

  /** The digits of a number are its decimal numeral, without leading zeros. */
  lemma {:induction false} DigitsNumeral(n: nat)
    ensures Numeral(Digits(n)) == n && (n > 0 ==> Digits(n)[0] != '0')
  {
    var s := Digits(n);
    assert (s[|s| - 1] as int - '0' as int) == n % 10;
    if n >= 10 {
      DigitsNumeral(n / 10);
      assert s[..|s| - 1] == Digits(n / 10);
    } else {
      assert s[..0] == "";
    }
  }

  lemma DigitsInjective(m: nat, n: nat)
    requires Digits(m) == Digits(n)
    ensures m == n
  {
    hide Digits, Numeral;
    DigitsNumeral(m);
    DigitsNumeral(n);
  }

  function ChunkKey(key: string, i: nat): (k: string)
    ensures IsChunkKey(k)
  {
    CHUNK_PREFIX + key + ":" + Digits(i)
  }

  predicate IsChunkKey(key: string) {
    CHUNK_PREFIX <= key
  }

  /** A chunk key spelled out. */
  lemma ChunkKeyText(key: string, i: nat)
    ensures ChunkKey(key, i)[..10] == "__chunk__:" && ChunkKey(key, i)[10..] == key + ":" + Digits(i)
    ensures IsChunkKey(key) <==> |key| >= 10 && key[..10] == "__chunk__:"
  {
    hide Digits;
  }

  /** The digits behind the last colon, and the record's key before it, can be told from a chunk key. */
  lemma ChunkKeyParts(a: string, i: nat)
    ensures var k, d := ChunkKey(a, i), |ChunkKey(a, i)| - |Digits(i)|;
            && d > |CHUNK_PREFIX| && k[d..] == Digits(i) && k[d - 1] == ':' && k[|CHUNK_PREFIX|..d - 1] == a
            && forall x | d <= x < |k| :: k[x] != ':'
  {
    hide Digits;
    var k, d := ChunkKey(a, i), |ChunkKey(a, i)| - |Digits(i)|;
    assert k[d..] == Digits(i);
    forall x | d <= x < |k| ensures k[x] != ':' {
      assert k[x] == k[d..][x - d];
    }
  }

  /** Chunk keys of different records, or different chunks of one record, never collide. */
  lemma ChunkKeyInjective(a: string, i: nat, b: string, j: nat)
    requires ChunkKey(a, i) == ChunkKey(b, j)
    ensures a == b && i == j
  {
    hide Digits, ChunkKey;
    ChunkKeyParts(a, i);
    ChunkKeyParts(b, j);
    assert |Digits(i)| == |Digits(j)|;
    DigitsInjective(i, j);
  }
}
