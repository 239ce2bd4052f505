/** Byte strings and big-endian unsigned integers, as `struct` packs them. */
module Bytes {
  newtype Byte = x: int | 0 <= x < 256

  type Data = seq<Byte>

  /** CRC-32 is any function here; whoever writes a checksum and whoever reads it only need to agree on it. */
  type Checksum = Data -> nat

  function U16(n: nat): (b: Data)
    requires n < 0x1_0000
    ensures |b| == 2
  {
    [(n / 0x100) as Byte, (n % 0x100) as Byte]
  }

  function Get16(b: Data): (n: nat)
    requires |b| == 2
    ensures n < 0x1_0000
  {
    b[0] as nat * 0x100 + b[1] as nat
  }

  function U32(n: nat): (b: Data)
    requires n < 0x1_0000_0000
    ensures |b| == 4
  {
    U16(n / 0x1_0000) + U16(n % 0x1_0000)
  }

  function Get32(b: Data): (n: nat)
    requires |b| == 4
    ensures n < 0x1_0000_0000
  {
    Get16(b[..2]) * 0x1_0000 + Get16(b[2..])
  }

  function U64(n: nat): (b: Data)
    requires n < 0x1_0000_0000_0000_0000
    ensures |b| == 8
  {
    U32(n / 0x1_0000_0000) + U32(n % 0x1_0000_0000)
  }

  function Get64(b: Data): (n: nat)
    requires |b| == 8
    ensures n < 0x1_0000_0000_0000_0000
  {
    Get32(b[..4]) * 0x1_0000_0000 + Get32(b[4..])
  }

  lemma Get16U16(n: nat)
    requires n < 0x1_0000
    ensures Get16(U16(n)) == n
  {}

  lemma U16Get16(b: Data)
    requires |b| == 2
    ensures U16(Get16(b)) == b
  {
    var hi, lo := b[0] as nat, b[1] as nat;
    assert (hi * 0x100 + lo) / 0x100 == hi && (hi * 0x100 + lo) % 0x100 == lo;
  }

  lemma Get32U32(n: nat)
    requires n < 0x1_0000_0000
    ensures Get32(U32(n)) == n
  {
    var b := U32(n);
    assert b[..2] == U16(n / 0x1_0000) && b[2..] == U16(n % 0x1_0000);
    Get16U16(n / 0x1_0000);
    Get16U16(n % 0x1_0000);
  }

  lemma U32Get32(b: Data)
    requires |b| == 4
    ensures U32(Get32(b)) == b
  {
    var hi, lo := Get16(b[..2]), Get16(b[2..]);
    U16Get16(b[..2]);
    U16Get16(b[2..]);
    assert (hi * 0x1_0000 + lo) / 0x1_0000 == hi && (hi * 0x1_0000 + lo) % 0x1_0000 == lo;
    assert b == b[..2] + b[2..];
  }

  lemma Get64U64(n: nat)
    requires n < 0x1_0000_0000_0000_0000
    ensures Get64(U64(n)) == n
  {
    var b := U64(n);
    assert b[..4] == U32(n / 0x1_0000_0000) && b[4..] == U32(n % 0x1_0000_0000);
    Get32U32(n / 0x1_0000_0000);
    Get32U32(n % 0x1_0000_0000);
  }

  lemma U64Get64(b: Data)
    requires |b| == 8
    ensures U64(Get64(b)) == b
  {
    hide U32, Get32;
    var hi, lo := Get32(b[..4]), Get32(b[4..]);
    U32Get32(b[..4]);
    U32Get32(b[4..]);
    assert (hi * 0x1_0000_0000 + lo) / 0x1_0000_0000 == hi && (hi * 0x1_0000_0000 + lo) % 0x1_0000_0000 == lo;
    assert b == b[..4] + b[4..];
  }

  /** A byte string read as one number to base 256, the first byte weighing most. */
  function Number(b: Data): nat {
    if b == [] then 0 else Number(b[..|b| - 1]) * 0x100 + b[|b| - 1] as nat
  }

  lemma NumberByte(a: Data, x: Byte)
    ensures Number(a + [x]) == Number(a) * 0x100 + x as nat && Number([]) == 0
  {
    assert (a + [x])[..|a|] == a;
  }

  lemma NumberTwo(a: Data, n: nat)
    requires n < 0x1_0000
    ensures Number(a + U16(n)) == Number(a) * 0x1_0000 + n
  {
    hide Number;
    var b := U16(n);
    NumberByte(a, b[0]);
    NumberByte(a + [b[0]], b[1]);
    assert a + b == a + [b[0]] + [b[1]];
  }

  lemma NumberFour(a: Data, n: nat)
    requires n < 0x1_0000_0000
    ensures Number(a + U32(n)) == Number(a) * 0x1_0000_0000 + n
  {
    hide Number, U16;
    var hi, lo := U16(n / 0x1_0000), U16(n % 0x1_0000);
    NumberTwo(a, n / 0x1_0000);
    NumberTwo(a + hi, n % 0x1_0000);
    assert a + (hi + lo) == a + hi + lo;
  }

  /** Two, four and eight bytes hold a number in that order. */
  lemma BigEndian(n: nat)
    requires n < 0x1_0000_0000_0000_0000
    ensures n < 0x1_0000 ==> Number(U16(n)) == n
    ensures n < 0x1_0000_0000 ==> Number(U32(n)) == n
    ensures Number(U64(n)) == n
  {
    hide Number, U16, U32;
    NumberByte([], 0);
    if n < 0x1_0000 {
      NumberTwo([], n);
      assert [] + U16(n) == U16(n);
    }
    if n < 0x1_0000_0000 {
      NumberFour([], n);
      assert [] + U32(n) == U32(n);
    }
    NumberFour([], n / 0x1_0000_0000);
    assert [] + U32(n / 0x1_0000_0000) == U32(n / 0x1_0000_0000);
    NumberFour(U32(n / 0x1_0000_0000), n % 0x1_0000_0000);
  }

  lemma SliceOfSlice(b: Data, lo: nat, hi: nat, from: nat, to: nat)
    requires lo <= hi <= |b| && from <= to <= hi - lo
    ensures b[lo..hi][from..to] == b[lo + from..lo + to]
  {
    forall j | 0 <= j < to - from ensures b[lo..hi][from..to][j] == b[lo + from..lo + to][j] {}
  }

  function Zeros(n: nat): (b: Data)
    ensures |b| == n && forall i | 0 <= i < n :: b[i] == 0
  {
    seq(n, i => 0)
  }

  /** Overwriting part of a fixed-size buffer. */
  function Splice(buf: Data, at: nat, b: Data): (r: Data)
    requires at + |b| <= |buf|
    ensures |r| == |buf|
  {
    buf[..at] + b + buf[at + |b|..]
  }

  /** `data[at : at + len(b)] = b` on a buffer. */
  method Blit(buf: array<Byte>, at: nat, b: Data)
    requires at + |b| <= buf.Length
    modifies buf
    ensures buf[..] == Splice(old(buf[..]), at, b)
  {
    for i := 0 to |b|
      invariant forall j | 0 <= j < buf.Length ::
                  buf[j] == if at <= j < at + i then b[j - at] else old(buf[j])
    {
      buf[at + i] := b[i];
    }
  }
}
