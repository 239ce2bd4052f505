/**
 The laws the model asks of `json`, `zlib`, `base64` and UTF-8 can be met together: here is a codec that
 meets them. UTF-8 and base64 are the real ones; JSON text is only as real as the laws look at it.
 */
module CodecWitness {
  import opened Wrappers
  import opened Bytes
  import opened Records
  import opened Json

  // ---------------------------------------------------------------------------------------
  // UTF-8

  function Octet(n: int): Byte
    requires 0 <= n < 256
  {
    n as Byte
  }

  function EncodeChar(ch: char): (b: Data)
    ensures |b| > 0
  {
    var n := ch as int;
    if n < 0x80 then [Octet(n)]
    else if n < 0x800 then [Octet(0xC0 + n / 64), Octet(0x80 + n % 64)]
    else if n < 0x1_0000 then [Octet(0xE0 + n / 4096), Octet(0x80 + n / 64 % 64), Octet(0x80 + n % 64)]
    else [Octet(0xF0 + n / 262144), Octet(0x80 + n / 4096 % 64), Octet(0x80 + n / 64 % 64), Octet(0x80 + n % 64)]
  }

  function Encode(s: string): Data {
    if s == "" then [] else EncodeChar(s[0]) + Encode(s[1..])
  }

  lemma {:induction false} EncodeConcat(a: string, b: string)
    ensures Encode(a + b) == Encode(a) + Encode(b)
    decreases |a|
  {
    if a == "" {
      assert a + b == b;
    } else {
      assert (a + b)[1..] == a[1..] + b;
      EncodeConcat(a[1..], b);
    }
  }

  lemma {:induction false} EncodeAscii(text: string)
    requires Ascii(text)
    ensures Encode(text) == TextBytes(text)
    decreases |text|
  {
    if text != "" {
      EncodeAscii(text[1..]);
      assert TextBytes(text) == [text[0] as int as Byte] + TextBytes(text[1..]);
    }
  }

  /** A character is spelled out by its bytes, and the first of them tells how many there are. */
  lemma CharOf(c: char)
    ensures var b, n := EncodeChar(c), c as int;
            && 1 <= |b| <= 4
            && (|b| == 1 <==> b[0] < 0x80) && (|b| == 2 <==> 0x80 <= b[0] < 0xE0) && (|b| == 3 <==> 0xE0 <= b[0] < 0xF0)
            && (|b| == 1 ==> n == b[0] as int)
            && (|b| == 2 ==> n == (b[0] as int - 0xC0) * 64 + (b[1] as int - 0x80))
            && (|b| == 3 ==> n == (b[0] as int - 0xE0) * 4096 + (b[1] as int - 0x80) * 64 + (b[2] as int - 0x80))
            && (|b| == 4 ==> n == (b[0] as int - 0xF0) * 262144 + (b[1] as int - 0x80) * 4096
                                  + (b[2] as int - 0x80) * 64 + (b[3] as int - 0x80))
  {
    var n := c as int;
    assert n == n / 64 * 64 + n % 64 && n / 64 == n / 4096 * 64 + n / 64 % 64;
    assert n / 4096 == n / 262144 * 64 + n / 4096 % 64;
  }

  /** So it is read off the front in one way only. */
  lemma CharFirst(c: char, d: char, x: Data, y: Data)
    requires EncodeChar(c) + x == EncodeChar(d) + y
    ensures c == d && x == y
  {
    hide EncodeChar;
    CharOf(c);
    CharOf(d);
    var a, b := EncodeChar(c), EncodeChar(d);
    assert a[0] == (a + x)[0] == (b + y)[0] == b[0];
    assert |a| == |b|;
    assert a == (a + x)[..|a|] && b == (b + y)[..|b|];
    assert c as int == d as int;
    assert x == (a + x)[|a|..] && y == (b + y)[|b|..];
  }

  lemma {:induction false} EncodeInjective(s: string, t: string)
    requires Encode(s) == Encode(t)
    ensures s == t
    decreases |s|
  {
    hide EncodeChar;
    if s != "" && t != "" {
      CharFirst(s[0], t[0], Encode(s[1..]), Encode(t[1..]));
      EncodeInjective(s[1..], t[1..]);
      assert s == [s[0]] + s[1..] && t == [t[0]] + t[1..];
    }
  }

  // ---------------------------------------------------------------------------------------
  // Base64

  /** The alphabet of section 4 of RFC 4648. */
  function Letter(n: int): (ch: char)
    requires 0 <= n < 64
    ensures ch as int == LetterCode(n) < 128
  {
    LetterCode(n) as char
  }

  function LetterCode(n: int): (c: int)
    requires 0 <= n < 64
    ensures 43 <= c < 128
  {
    if n < 26 then 65 + n else if n < 52 then 71 + n else if n < 62 then n - 4 else if n == 62 then 43 else 47
  }

  function B64(b: Data): (s: string)
    ensures |s| == B64Length(|b|) && Ascii(s)
  {
    if b == [] then ""
    else
      var x := b[0] as int;
      if |b| == 1 then [Letter(x / 4), Letter(x % 4 * 16), '=', '=']
      else
        var y := b[1] as int;
        if |b| == 2 then [Letter(x / 4), Letter(x % 4 * 16 + y / 16), Letter(y % 16 * 4), '=']
        else
          var z := b[2] as int;
          [Letter(x / 4), Letter(x % 4 * 16 + y / 16), Letter(y % 16 * 4 + z / 64), Letter(z % 64)] + B64(b[3..])
  }

  lemma LettersDiffer(m: int, n: int)
    requires 0 <= m < 64 && 0 <= n < 64 && Letter(m) == Letter(n)
    ensures m == n
  {}

  lemma B64Tail(b: Data)
    requires |b| > 2
    ensures B64(b)[4..] == B64(b[3..])
  {}

  lemma {:induction false} B64Injective(a: Data, b: Data)
    requires B64(a) == B64(b)
    ensures a == b
    decreases |a|
  {
    hide B64;
    assert |B64(a)| == |B64(b)|;
    if a != [] {
      SameLetters(a, b);
      if |a| > 2 {
        B64Tail(a);
        B64Tail(b);
        B64Injective(a[3..], b[3..]);
        assert a == [a[0], a[1], a[2]] + a[3..] && b == [b[0], b[1], b[2]] + b[3..];
      }
    }
  }

  /** The four letters a group of one, two or three bytes starts with; a short group is filled up with `=`. */
  function Quad(b: Data, i: nat): char
    requires b != [] && i < 4
  {
    var x, y, z := b[0] as int, if |b| > 1 then b[1] as int else 0, if |b| > 2 then b[2] as int else 0;
    if i == 0 then Letter(x / 4)
    else if i == 1 then Letter(x % 4 * 16 + y / 16)
    else if i == 2 then if |b| == 1 then '=' else Letter(y % 16 * 4 + z / 64)
    else if |b| <= 2 then '=' else Letter(z % 64)
  }

  lemma B64Head(b: Data, i: nat)
    requires b != [] && i < 4
    ensures |B64(b)| >= 4 && B64(b)[i] == Quad(b, i)
  {}

  /** They give those bytes back. */
  lemma SameQuad(a: Data, b: Data)
    requires a != [] && b != [] && forall i | 0 <= i < 4 :: Quad(a, i) == Quad(b, i)
    ensures a[0] == b[0] && (|a| == 1 <==> |b| == 1) && (|a| == 2 <==> |b| == 2)
    ensures |a| >= 2 ==> a[1] == b[1]
    ensures |a| >= 3 ==> a[2] == b[2]
  {
    assert Quad(a, 0) == Quad(b, 0) && Quad(a, 1) == Quad(b, 1) && Quad(a, 2) == Quad(b, 2) && Quad(a, 3) == Quad(b, 3);
    var x, y, z := a[0] as int, if |a| > 1 then a[1] as int else 0, if |a| > 2 then a[2] as int else 0;
    var u, v, w := b[0] as int, if |b| > 1 then b[1] as int else 0, if |b| > 2 then b[2] as int else 0;
    LettersDiffer(x / 4, u / 4);
    LettersDiffer(x % 4 * 16 + y / 16, u % 4 * 16 + v / 16);
    if |a| > 1 {
      LettersDiffer(y % 16 * 4 + z / 64, v % 16 * 4 + w / 64);
    }
    if |a| > 2 {
      LettersDiffer(z % 64, w % 64);
    }
  }

  lemma SameLetters(a: Data, b: Data)
    requires a != [] && b != [] && B64(a) == B64(b)
    ensures a[0] == b[0] && (|a| == 1 <==> |b| == 1) && (|a| == 2 <==> |b| == 2)
    ensures |a| >= 2 ==> a[1] == b[1]
    ensures |a| >= 3 ==> a[2] == b[2]
  {
    hide B64, Quad;
    forall i: nat | i < 4 ensures Quad(a, i) == Quad(b, i) {
      B64Head(a, i);
      B64Head(b, i);
    }
    SameQuad(a, b);
  }

  // ---------------------------------------------------------------------------------------
  // JSON values as lists of numbers

  /** Some key of a dictionary: every value lists its entries in one order. */
  ghost function Pick(keys: set<string>): (k: string)
    requires keys != {}
    ensures k in keys
  {
    var k :| k in keys;
    k
  }

  function Chars(s: string): (ns: seq<nat>) {
    [|s|] + seq(|s|, i requires 0 <= i < |s| => s[i] as nat)
  }

  ghost function Code(v: Json): (ns: seq<nat>)
    ensures ns != []
    decreases v, 0
  {
    match v
    case Null => [0]
    case Bool(b) => [1, if b then 1 else 0]
    case Int(i) => [2, if i < 0 then 1 else 0, if i < 0 then -i else i]
    case Float(text) => [3] + Chars(text)
    case Str(s) => [4] + Chars(s)
    case List(items) => [5, |items|] + Codes(items)
    case Dict(fields) => [6, |fields|] + Entries(v, fields)
  }

  ghost function Codes(items: seq<Json>): seq<nat>
    decreases items, 0
  {
    if items == [] then [] else Code(items[0]) + Codes(items[1..])
  }

  ghost function Entries(v: Json, fields: map<string, Json>): seq<nat>
    requires v.Dict? && forall k | k in fields :: k in v.fields && fields[k] == v.fields[k]
    decreases v, 0, |fields|
  {
    if fields == map[] then []
    else
      var k := Pick(fields.Keys);
      assert v.fields[k] < v;
      Chars(k) + Code(fields[k]) + Entries(v, fields - {k})
  }

  lemma CharsFirst(s: string, t: string, x: seq<nat>, y: seq<nat>)
    requires Chars(s) + x == Chars(t) + y
    ensures s == t && x == y
  {
    var a, b := Chars(s), Chars(t);
    assert a[0] == (a + x)[0] == (b + y)[0] == b[0];
    assert a == (a + x)[..|a|] && b == (b + y)[..|b|];
    forall i | 0 <= i < |s| ensures s[i] == t[i] {
      assert a[i + 1] == b[i + 1];
    }
    assert x == (a + x)[|a|..] && y == (b + y)[|b|..];
  }

  lemma Behind(head: seq<nat>, a: seq<nat>, b: seq<nat>, x: seq<nat>, y: seq<nat>)
    requires (head + a) + x == (head + b) + y
    ensures a + x == b + y
  {
    assert (head + a) + x == head + (a + x) && (head + b) + y == head + (b + y);
    assert (head + (a + x))[|head|..] == a + x && (head + (b + y))[|head|..] == b + y;
  }

  /** A value's numbers are read off the front in one way only. */
  lemma {:induction false} CodeFirst(v: Json, w: Json, x: seq<nat>, y: seq<nat>)
    requires Code(v) + x == Code(w) + y
    ensures v == w && x == y
    decreases v, 0
  {
    hide Chars, Entries, Codes;
    var a, b := Code(v), Code(w);
    assert a[0] == (a + x)[0] == (b + y)[0] == b[0];
    match v {
      case Float(s) => Behind([3], Chars(s), Chars(w.text), x, y); CharsFirst(s, w.text, x, y);
      case Str(s) => Behind([4], Chars(s), Chars(w.s), x, y); CharsFirst(s, w.s, x, y);
      case List(items) =>
        assert a[1] == (a + x)[1] == (b + y)[1] == b[1];
        Behind([5, |items|], Codes(items), Codes(w.items), x, y);
        CodesFirst(items, w.items, x, y);
      case Dict(fields) =>
        assert a[1] == (a + x)[1] == (b + y)[1] == b[1];
        Behind([6, |fields|], Entries(v, fields), Entries(w, w.fields), x, y);
        EntriesFirst(v, fields, w, w.fields, x, y);
      case Null => SameLength(a, b, x, y);
      case Bool(_) =>
        assert a[1] == (a + x)[1] == (b + y)[1] == b[1];
        SameLength(a, b, x, y);
      case Int(_) =>
        assert a[1] == (a + x)[1] == (b + y)[1] == b[1] && a[2] == (a + x)[2] == (b + y)[2] == b[2];
        SameLength(a, b, x, y);
    }
  }

  lemma SameLength(a: seq<nat>, b: seq<nat>, x: seq<nat>, y: seq<nat>)
    requires |a| == |b| && a + x == b + y
    ensures a == b && x == y
  {
    assert a == (a + x)[..|a|] && b == (b + y)[..|b|];
    assert x == (a + x)[|a|..] && y == (b + y)[|b|..];
  }

  lemma {:induction false} CodesFirst(v: seq<Json>, w: seq<Json>, x: seq<nat>, y: seq<nat>)
    requires |v| == |w| && Codes(v) + x == Codes(w) + y
    ensures v == w && x == y
    decreases v, 0
  {
    hide Code;
    if v == [] {
      SameLength([], [], x, y);
    } else {
      assert Code(v[0]) + (Codes(v[1..]) + x) == Codes(v) + x;
      assert Code(w[0]) + (Codes(w[1..]) + y) == Codes(w) + y;
      CodeFirst(v[0], w[0], Codes(v[1..]) + x, Codes(w[1..]) + y);
      CodesFirst(v[1..], w[1..], x, y);
      assert v == [v[0]] + v[1..] && w == [w[0]] + w[1..];
    }
  }

  lemma {:induction false} EntriesFirst(v: Json, m: map<string, Json>, w: Json, n: map<string, Json>, x: seq<nat>,
                                        y: seq<nat>)
    requires v.Dict? && forall k | k in m :: k in v.fields && m[k] == v.fields[k]
    requires w.Dict? && forall k | k in n :: k in w.fields && n[k] == w.fields[k]
    requires |m| == |n| && Entries(v, m) + x == Entries(w, n) + y
    ensures m == n && x == y
    decreases v, 0, |m|
  {
    hide Code, Chars;
    if m == map[] {
      assert n == map[];
      SameLength([], [], x, y);
    } else {
      var k, l := Pick(m.Keys), Pick(n.Keys);
      assert v.fields[k] < v;
      Regroup(Chars(k), Code(m[k]), Entries(v, m - {k}), x);
      Regroup(Chars(l), Code(n[l]), Entries(w, n - {l}), y);
      CharsFirst(k, l, Code(m[k]) + (Entries(v, m - {k}) + x), Code(n[l]) + (Entries(w, n - {l}) + y));
      CodeFirst(m[k], n[l], Entries(v, m - {k}) + x, Entries(w, n - {l}) + y);
      Smaller(m, k);
      Smaller(n, l);
      EntriesFirst(v, m - {k}, w, n - {l}, x, y);
      assert m == (m - {k})[k := m[k]];
      assert n == (n - {l})[l := n[l]];
    }
  }

  lemma Regroup(a: seq<nat>, b: seq<nat>, c: seq<nat>, x: seq<nat>)
    ensures a + b + c + x == a + (b + (c + x))
  {}

  lemma Smaller(m: map<string, Json>, k: string)
    requires k in m
    ensures |m - {k}| == |m| - 1
  {
    assert m == (m - {k})[k := m[k]];
  }

  // ---------------------------------------------------------------------------------------
  // JSON text

  function Unary(n: nat): (s: string)
    ensures |s| == n + 1 && s[n] == '0' && forall i | 0 <= i < n :: s[i] == '1'
  {
    seq(n, i => '1') + "0"
  }

  function Spelled(ns: seq<nat>): (s: string)
    ensures forall i | 0 <= i < |s| :: s[i] == '0' || s[i] == '1'
    ensures ns != [] ==> s != ""
  {
    if ns == [] then "" else Unary(ns[0]) + Spelled(ns[1..])
  }

  lemma {:induction false} SpelledInjective(a: seq<nat>, b: seq<nat>)
    requires Spelled(a) == Spelled(b)
    ensures a == b
    decreases |a|
  {
    if a != [] && b != [] {
      var s, t := Unary(a[0]) + Spelled(a[1..]), Unary(b[0]) + Spelled(b[1..]);
      assert s[a[0]] == '0' && t[b[0]] == '0';
      assert s[a[0] + 1..] == Spelled(a[1..]) && t[b[0] + 1..] == Spelled(b[1..]);
      SpelledInjective(a[1..], b[1..]);
      assert a == [a[0]] + a[1..] && b == [b[0]] + b[1..];
    }
  }

  const FLAG := "{\"__cachy_overflow__\": "
  const COUNT := "true, \"num_chunks\": "
  const SIZE := ", \"original_size\": "
  const TAIL := ", \"compressed\": true}"

  lemma DigitsAscii(n: nat)
    ensures Ascii(Digits(n))
  {
    forall i | 0 <= i < |Digits(n)| ensures Digits(n)[i] as int < 128 {
      assert '0' <= Digits(n)[i] <= '9';
    }
  }

  /** Two numbers set into a text. */
  function Laid(p: string, m: nat, q: string, n: nat, r: string): string {
    p + (Digits(m) + (q + (Digits(n) + r)))
  }

  lemma LaidOut(p: string, m: nat, q: string, n: nat, r: string)
    requires p != "" && Ascii(p) && Ascii(q) && Ascii(r)
    ensures var s := Laid(p, m, q, n, r);
            |s| == |p| + |q| + |r| + |Digits(m)| + |Digits(n)| && s[0] == p[0] && Ascii(s)
  {
    hide Digits;
    DigitsAscii(m);
    DigitsAscii(n);
  }

  lemma LaidInjective(p: string, m: nat, a: nat, n: nat, b: nat, q: string, r: string)
    requires q != "" && r != "" && q[0] == ',' == r[0] && Laid(p, m, q, a, r) == Laid(p, n, q, b, r)
    ensures m == n && a == b
  {
    hide Digits;
    var x, y := q + (Digits(a) + r), q + (Digits(b) + r);
    assert (p + (Digits(m) + x))[|p|..] == Digits(m) + x && (p + (Digits(n) + y))[|p|..] == Digits(n) + y;
    DigitsFirst(m, n, x, y);
    assert x[|q|..] == Digits(a) + r && y[|q|..] == Digits(b) + r;
    DigitsFirst(a, b, r, r);
  }

  function ManifestText(n: nat, size: nat): (s: string)
    ensures |s| == 83 + |Digits(n)| + |Digits(size)| && s[0] == '{' && Ascii(s)
  {
    assert Ascii(FLAG) && Ascii(COUNT) && Ascii(SIZE) && Ascii(TAIL);
    LaidOut(FLAG + COUNT, n, SIZE, size, TAIL);
    Laid(FLAG + COUNT, n, SIZE, size, TAIL)
  }

  /** Numbers end where their digits end. */
  lemma DigitsFirst(m: nat, n: nat, x: string, y: string)
    requires x != "" && y != "" && x[0] == ',' == y[0] && Digits(m) + x == Digits(n) + y
    ensures m == n && x == y
  {
    var a, b := Digits(m), Digits(n);
    assert (a + x)[|a|] == ',' && (b + y)[|b|] == ',';
    assert forall i | 0 <= i < |a| :: (a + x)[i] == a[i];
    assert forall i | 0 <= i < |b| :: (b + y)[i] == b[i];
    assert |a| == |b|;
    assert a == (a + x)[..|a|] && b == (b + y)[..|b|];
    DigitsInjective(m, n);
    assert x == (a + x)[|a|..] && y == (b + y)[|b|..];
  }

  /** Null, base64 strings and manifests come out as JSON writes them, everything else spelled out in unary. */
  ghost function Dumps(v: Json): (s: string)
    ensures Ascii(s) && s != ""
  {
    if v == Null then "null"
    else if v.Str? && exists b :: v.s == B64(b) then "\"" + v.s + "\""
    else if exists n, size :: v == Manifest(n, size) then
      var n, size :| v == Manifest(n, size);
      ManifestText(n, size)
    else Spelled(Code(v))
  }

  ghost predicate IsB64(v: Json) {
    v.Str? && exists b :: v.s == B64(b)
  }

  ghost predicate IsOurs(v: Json) {
    exists n, size :: v == Manifest(n, size)
  }

  /** The first character tells the four kinds of text apart. */
  lemma DumpsKinds(v: Json)
    ensures var s := Dumps(v);
            && (s[0] == 'n' <==> v == Null)
            && (s[0] == '"' <==> IsB64(v))
            && (s[0] == '{' <==> v != Null && !IsB64(v) && IsOurs(v))
            && (s[0] == '"' ==> |s| == |v.s| + 2 && s[1..|s| - 1] == v.s)
            && (s[0] == '{' ==> exists n, size :: v == Manifest(n, size) && s == ManifestText(n, size))
            && (v != Null && !IsB64(v) && !IsOurs(v) ==> s == Spelled(Code(v)))
  {
    hide Code, B64, Manifest, Digits;
  }

  lemma DumpsInjective(v: Json, w: Json)
    requires Dumps(v) == Dumps(w)
    ensures v == w
  {
    hide Code, B64, Manifest, Dumps, Spelled, Digits, IsB64, IsOurs, Laid;
    DumpsKinds(v);
    DumpsKinds(w);
    var s := Dumps(v);
    if s[0] == '"' {
      SameStr(v, w);
    } else if s[0] == '{' {
      var m, a :| v == Manifest(m, a) && s == ManifestText(m, a);
      var n, b :| w == Manifest(n, b) && s == ManifestText(n, b);
      LaidInjective(FLAG + COUNT, m, a, n, b, SIZE, TAIL);
    } else if v != Null {
      SpelledInjective(Code(v), Code(w));
      assert Code(v) + [] == Code(v) && Code(w) + [] == Code(w);
      CodeFirst(v, w, [], []);
    }
  }

  lemma SameStr(v: Json, w: Json)
    requires IsB64(v) && IsB64(w) && v.s == w.s
    ensures v == w
  {}

  // ---------------------------------------------------------------------------------------
  // The codec

  /** Undoing an injective text: whatever has that text, if anything has. */
  ghost function Loads(s: string): Option<Json> {
    if exists v :: Dumps(v) == s then
      var v :| Dumps(v) == s;
      Some(v)
    else None
  }

  ghost function Decode(b: Data): Option<string> {
    if exists s :: Encode(s) == b then
      var s :| Encode(s) == b;
      Some(s)
    else None
  }

  ghost function UnB64(s: string): Option<Data> {
    if exists b :: B64(b) == s then
      var b :| B64(b) == s;
      Some(b)
    else None
  }

  ghost function Witness(): Codec {
    Codec(v => Dumps(v), s => Loads(s), b => b, b => Some(b), b => B64(b), s => UnB64(s),
          Utf8.Utf8(s => Encode(s), b => Decode(b)))
  }

  lemma DecodeBack(s: string)
    ensures Decode(Encode(s)) == Some(s)
  {
    hide Encode;
    var t :| Encode(t) == Encode(s) && Decode(Encode(s)) == Some(t);
    EncodeInjective(s, t);
  }

  lemma LoadsBack(v: Json)
    ensures Loads(Dumps(v)) == Some(v)
  {
    hide Dumps;
    var w :| Dumps(w) == Dumps(v) && Loads(Dumps(v)) == Some(w);
    DumpsInjective(v, w);
  }

  lemma UnB64Back(b: Data)
    ensures UnB64(B64(b)) == Some(b)
  {
    hide B64;
    var d :| B64(d) == B64(b) && UnB64(B64(b)) == Some(d);
    B64Injective(b, d);
  }

  lemma TextLaws()
    ensures forall s :: Decode(Encode(s)) == Some(s)
    ensures forall a, b :: Encode(a + b) == Encode(a) + Encode(b)
    ensures forall text | Ascii(text) :: Encode(text) == TextBytes(text)
    ensures forall b, s :: Decode(b) == Some(s) ==> Encode(s) == b
  {
    hide Encode, Decode, TextBytes;
    forall s ensures Decode(Encode(s)) == Some(s) { DecodeBack(s); }
    forall a, b ensures Encode(a + b) == Encode(a) + Encode(b) { EncodeConcat(a, b); }
    forall text | Ascii(text) ensures Encode(text) == TextBytes(text) { EncodeAscii(text); }
    forall b, s ensures Decode(b) == Some(s) ==> Encode(s) == b { DecodeOnly(b); }
  }

  lemma JsonLaws()
    ensures forall v :: Ascii(Dumps(v)) && Loads(Dumps(v)) == Some(v)
    ensures forall b :: |Dumps(Str(B64(b)))| == |B64(b)| + 2
    ensures forall n: nat, size: nat :: |Dumps(Manifest(n, size))| == 83 + |Digits(n)| + |Digits(size)|
  {
    hide Dumps, Loads, B64, Digits, Manifest;
    forall v ensures Ascii(Dumps(v)) && Loads(Dumps(v)) == Some(v) { LoadsBack(v); }
    forall b ensures |Dumps(Str(B64(b)))| == |B64(b)| + 2 { DumpsB64(b); }
    forall n: nat, size: nat ensures |Dumps(Manifest(n, size))| == 83 + |Digits(n)| + |Digits(size)| {
      DumpsManifest(n, size);
    }
  }

  /** The laws can be met. */
  lemma LawfulCodecExists()
    ensures LawfulCodec(Witness())
  {
    hide Dumps, Encode, B64, Digits, Decode, UnB64, Loads, TextBytes, Manifest, Ascii;
    TextLaws();
    JsonLaws();
    DumpsNull();
    forall b ensures UnB64(B64(b)) == Some(b) { UnB64Back(b); }
  }

  lemma DecodeOnly(b: Data)
    ensures Decode(b).Some? ==> Encode(Decode(b).value) == b
  {}

  lemma DumpsNull()
    ensures Dumps(Null) == "null" && Loads("") == None
  {}

  lemma DumpsB64(b: Data)
    ensures |Dumps(Str(B64(b)))| == |B64(b)| + 2
  {
    hide B64;
  }

  lemma DumpsManifest(n: nat, size: nat)
    ensures |Dumps(Manifest(n, size))| == 83 + |Digits(n)| + |Digits(size)|
  {
    var v := Manifest(n, size);
    var m, a :| v == Manifest(m, a) && Dumps(v) == ManifestText(m, a);
    assert v.fields[NUM_CHUNKS] == Int(n) && v.fields[ORIGINAL_SIZE] == Int(size);
  }
}
