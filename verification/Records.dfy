/**
 The packed record: two bytes of key length, the key in UTF-8, the value as JSON text.

 UTF-8 is a parameter with its decoding law. JSON is written with `ensure_ascii`, so a text and
 its bytes are the same list of code points.
 */
module Records {
  import opened Wrappers
  import opened Bytes
  import DiskPages

  datatype Utf8 = Utf8(encode: string -> Data, decode: Data -> Option<string>)

  /** Decoding undoes encoding. */
  ghost predicate LawfulUtf8(utf8: Utf8) {
    forall s :: utf8.decode(utf8.encode(s)) == Some(s)
  }

  predicate Ascii(text: string) {
    forall i | 0 <= i < |text| :: text[i] as int < 128
  }

  function TextBytes(text: string): (b: Data)
    requires Ascii(text)
    ensures |b| == |text|
  {
    seq(|text|, i requires 0 <= i < |text| => text[i] as int as Byte)
  }

  function BytesText(b: Data): (text: string)
    ensures |text| == |b|
  {
    seq(|b|, i requires 0 <= i < |b| => b[i] as int as char)
  }

  lemma TextRoundTrip(text: string)
    requires Ascii(text)
    ensures BytesText(TextBytes(text)) == text
  {}

  const MAX_KEY_BYTES: nat := 0xFFFF

  /** `_pack_record`: refused when the encoded key does not fit the two-byte length. */
  function Pack(utf8: Utf8, key: string, text: string): (r: Option<Data>)
    requires Ascii(text)
    ensures r.Some? <==> |utf8.encode(key)| < 0x1_0000
    ensures r.Some? ==> |r.value| == 2 + |utf8.encode(key)| + |text|
  {
    var k := utf8.encode(key);
    if |k| > MAX_KEY_BYTES then None else Some(U16(|k|) + k + TextBytes(text))
  }

  /** Where the key of a record ends; a slice past the end stops there. */
  function KeyEnd(payload: Data): (end: nat)
    requires |payload| >= 2
    ensures 2 <= end <= |payload|
    ensures end == 2 + Get16(payload[..2]) || end == |payload| < 2 + Get16(payload[..2])
  {
    var end := 2 + Get16(payload[..2]);
    if end < |payload| then end else |payload|
  }

  /** How `_init_disk_index` reads a record: slices never fail, an undecodable key hides the record. */
  function ReadRecord(utf8: Utf8, payload: Data): Option<DiskPages.Rec> {
    if |payload| < 2 then None
    else
      var end := KeyEnd(payload);
      var key := utf8.decode(payload[2..end]);
      if key == None then None else Some(DiskPages.Rec(key.value, BytesText(payload[end..]), -1))
  }

  /** What stands where in a packed record: the key's length, the key, and the text, a byte for each character. */
  lemma PackLayout(utf8: Utf8, key: string, text: string)
    requires Ascii(text) && |utf8.encode(key)| < 0x1_0000
    ensures var b, n := Pack(utf8, key, text).value, |utf8.encode(key)|;
            && |b| == 2 + n + |text| && Number(b[..2]) == n && b[2..2 + n] == utf8.encode(key)
            && forall i | 0 <= i < |text| :: b[2 + n + i] as int == text[i] as int
  {
    hide U16, Number;
    var k, b := utf8.encode(key), Pack(utf8, key, text).value;
    BigEndian(|k|);
    assert b[..2] == U16(|k|);
  }

  /** What a record that reads as `r` is made of, whoever wrote it. */
  lemma ReadLayout(utf8: Utf8, payload: Data, r: DiskPages.Rec)
    ensures ReadRecord(utf8, payload) == Some(r) <==>
            && |payload| >= 2 && r.ver == -1
            && var end := if 2 + Number(payload[..2]) <= |payload| then 2 + Number(payload[..2]) else |payload|;
               && utf8.decode(payload[2..end]) == Some(r.key) && |r.text| == |payload| - end
               && forall i | 0 <= i < |r.text| :: r.text[i] as int == payload[end + i] as int
  {
    hide U16, Number, Get16;
    if |payload| >= 2 {
      BigEndian(Get16(payload[..2]));
      U16Get16(payload[..2]);
      var end := KeyEnd(payload);
      var text := BytesText(payload[end..]);
      assert forall i | 0 <= i < |text| :: text[i] as int == payload[end + i] as int;
      if |r.text| == |text| && forall i | 0 <= i < |r.text| :: r.text[i] as int == payload[end + i] as int {
        assert forall i | 0 <= i < |text| :: r.text[i] == text[i];
        assert r.text == text;
      }
    }
  }

  /** A packed record reads back as its key and text. */
  lemma PackReadsBack(utf8: Utf8, key: string, text: string)
    requires LawfulUtf8(utf8) && Ascii(text) && |utf8.encode(key)| <= MAX_KEY_BYTES
    ensures ReadRecord(utf8, Pack(utf8, key, text).value) == Some(DiskPages.Rec(key, text, -1))
  {
    var k, payload := utf8.encode(key), Pack(utf8, key, text).value;
    assert payload[..2] == U16(|k|);
    Get16U16(|k|);
    assert payload[2..2 + |k|] == k && payload[2 + |k|..] == TextBytes(text);
    TextRoundTrip(text);
  }

  /** The four bytes `null`. */
  const NULL: Data := [110, 117, 108, 108]

  /** `packed_record[2 + key_len:] == b"null"` is the test for a deletion. */
  lemma NullIsTombstone(utf8: Utf8, key: string, text: string)
    requires Ascii(text) && |utf8.encode(key)| <= MAX_KEY_BYTES
    ensures var payload := Pack(utf8, key, text).value;
            payload[2 + |utf8.encode(key)|..] == NULL <==> text == DiskPages.TOMBSTONE
  {
    var k, payload := utf8.encode(key), Pack(utf8, key, text).value;
    assert payload[2 + |k|..] == TextBytes(text);
    TextRoundTrip(text);
    assert BytesText(NULL) == DiskPages.TOMBSTONE;
    assert TextBytes(DiskPages.TOMBSTONE) == NULL;
  }
}
