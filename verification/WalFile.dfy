/**
 One file of the write-ahead log, byte by byte: a header, fixed slots for entries, a growing payload area.

 `FileOk` reads the bytes as a list of records. A batch is written in three steps, payloads first
 and the header last; before the last one the file still reads as it did.
 */
module WalFile {
  import opened Wrappers
  import opened Bytes

  /** Slots per file and size of the payload area. */
  datatype Layout = Layout(cap: nat, area: nat)

  /** The header packs the capacity in four bytes, an entry its payload's length. */
  ghost predicate Packable(l: Layout) {
    0 < l.cap < 0x1_0000_0000 && l.area < 0x1_0000_0000
  }

  const HEADER_SIZE: nat := 32
  const ENTRY_SIZE: nat := 25
  const WAL1: Data := [87, 65, 76, 49]
  const MAX_TX: nat := 0x7FFF_FFFF_FFFF_FFFF

  function SlotAt(i: nat): nat { HEADER_SIZE + ENTRY_SIZE * i }

  /** The id of the transaction in slot 0 of a file. */
  function FirstTx(l: Layout, id: nat): nat { id * l.cap }

  /** Where the payload area starts. */
  function Block(l: Layout): nat { HEADER_SIZE + l.cap * ENTRY_SIZE }

  type Stamp = b: Data | |b| == 8 witness [0, 0, 0, 0, 0, 0, 0, 0]

  datatype Record = Record(payload: Data, done: bool)

  // ---------------------------------------------------------------------------------------
  // Writing into a file

  /** `seek` and `write`: past the end, the gap reads as zeros. */
  function Put(file: Data, at: nat, b: Data): (r: Data)
    ensures b != [] ==> at + |b| <= |r|
    ensures |file| <= |r|
  {
    if b == [] then file
    else
      var padded := if |file| < at then file + Zeros(at - |file|) else file;
      padded[..at] + b + (if at + |b| < |file| then file[at + |b|..] else [])
  }

  lemma PutHere(file: Data, at: nat, b: Data)
    requires b != []
    ensures Put(file, at, b)[at..at + |b|] == b
  {}

  /** A write past the end leaves zeros between. */
  lemma PutGap(file: Data, at: nat, b: Data)
    requires b != []
    ensures forall i | |file| <= i < at :: Put(file, at, b)[i] == 0
    ensures |Put(file, at, b)| == if at + |b| < |file| then |file| else at + |b|
  {}

  /** What lies outside the written range is as before. */
  lemma PutElsewhere(file: Data, at: nat, b: Data, x: nat, y: nat)
    requires x <= y <= |file| && (y <= at || at + |b| <= x)
    ensures Put(file, at, b)[x..y] == file[x..y]
  {
    var r := Put(file, at, b);
    forall k | x <= k < y ensures r[k] == file[k] {
      if k >= at + |b| && b != [] { assert r[k] == file[at + |b|..][k - at - |b|]; }
    }
  }

  // ---------------------------------------------------------------------------------------
  // The file header

  datatype HeaderFault = Truncated | BadChecksum | BadMagic
  datatype Info = Info(cap: nat, rec: nat, used: nat)

  function HeaderFields(cap: nat, rec: nat, used: nat): (b: Data)
    requires cap < 0x1_0000_0000 && rec < 0x1_0000_0000 && used < 0x1_0000_0000_0000_0000
    ensures |b| == 20
  {
    WAL1 + U32(cap) + U32(rec) + U64(used)
  }

  function Header(cap: nat, rec: nat, used: nat, crc: Checksum): (b: Data)
    requires cap < 0x1_0000_0000 && rec < 0x1_0000_0000 && used < 0x1_0000_0000_0000_0000
    ensures |b| == HEADER_SIZE
  {
    var fields := HeaderFields(cap, rec, used);
    fields + U32(crc(fields) % 0x1_0000_0000) + Zeros(8)
  }

  /** Every reader checks a file header this way before it trusts a field of it. */
  function ReadHeader(file: Data, crc: Checksum): Result<Info, HeaderFault> {
    if |file| < HEADER_SIZE then Err(Truncated)
    else if crc(file[..20]) % 0x1_0000_0000 != Get32(file[20..24]) then Err(BadChecksum)
    else if file[..4] != WAL1 then Err(BadMagic)
    else Ok(Info(Get32(file[4..8]), Get32(file[8..12]), Get64(file[12..20])))
  }

  /** No reader takes the file for a log file, not even once it is as long as a header. */
  ghost predicate Unreadable(crc: Checksum, file: Data) {
    ReadHeader(if |file| < HEADER_SIZE then file + Zeros(HEADER_SIZE - |file|) else file, crc).Err?
  }

  lemma UnreadableFails(crc: Checksum, file: Data)
    requires Unreadable(crc, file)
    ensures ReadHeader(file, crc).Err?
  {}

  /** Zeros are no header, whatever the checksum: a file that was only allocated is refused. */
  lemma ZerosRefused(crc: Checksum, n: nat)
    ensures Unreadable(crc, Zeros(n))
    ensures n >= HEADER_SIZE ==> ReadHeader(Zeros(n), crc) in {Err(BadChecksum), Err(BadMagic)}
  {
    var file := if n < HEADER_SIZE then Zeros(n) + Zeros(HEADER_SIZE - n) else Zeros(n);
    assert file[..4][0] == 0 != WAL1[0];
  }

  /** What stands where in a header: `WAL1`, capacity, records, bytes used, checksum of these, padding. */
  lemma HeaderParts(cap: nat, rec: nat, used: nat, crc: Checksum)
    requires cap < 0x1_0000_0000 && rec < 0x1_0000_0000 && used < 0x1_0000_0000_0000_0000
    ensures var h := Header(cap, rec, used, crc);
            && |h| == 32 && h[..4] == [87, 65, 76, 49] && h[4..8] == U32(cap) && h[8..12] == U32(rec)
            && h[12..20] == U64(used) && h[20..24] == U32(crc(h[..20]) % 0x1_0000_0000) && h[24..] == Zeros(8)
  {
    hide U32, U64;
    var fields, h := HeaderFields(cap, rec, used), Header(cap, rec, used, crc);
    assert h[..20] == fields;
    assert fields[..4] == WAL1 && fields[4..8] == U32(cap) && fields[8..12] == U32(rec) && fields[12..20] == U64(used);
    assert h[..4] == h[..20][..4] && h[4..8] == h[..20][4..8] && h[8..12] == h[..20][8..12];
    assert h[12..20] == h[..20][12..20];
  }

  /** A header is accepted exactly if it is, up to the padding, the one that is written for its fields. */
  lemma HeaderAccepted(file: Data, crc: Checksum, i: Info)
    ensures ReadHeader(file, crc) == Ok(i) <==>
            && |file| >= 32 && i.cap < 0x1_0000_0000 && i.rec < 0x1_0000_0000 && i.used < 0x1_0000_0000_0000_0000
            && file[..24] == Header(i.cap, i.rec, i.used, crc)[..24]
    ensures ReadHeader(file, crc) == Err(Truncated) <==> |file| < 32
    ensures ReadHeader(file, crc) == Err(BadChecksum) <==>
              |file| >= 32 && crc(file[..20]) % 0x1_0000_0000 != Number(file[20..24])
    ensures ReadHeader(file, crc) == Err(BadMagic) <==>
              |file| >= 32 && crc(file[..20]) % 0x1_0000_0000 == Number(file[20..24]) && file[..4] != [87, 65, 76, 49]
  {
    hide U32, U64, Get32, Get64, Header, Number;
    if |file| >= 32 {
      HeaderSplit(file);
      U32Get32(file[4..8]);
      U32Get32(file[8..12]);
      U64Get64(file[12..20]);
      U32Get32(file[20..24]);
      BigEndian(Get32(file[20..24]));
      if i.cap < 0x1_0000_0000 && i.rec < 0x1_0000_0000 && i.used < 0x1_0000_0000_0000_0000 {
        var h := Header(i.cap, i.rec, i.used, crc);
        HeaderParts(i.cap, i.rec, i.used, crc);
        HeaderSplit(h);
        Get32U32(i.cap);
        Get32U32(i.rec);
        Get64U64(i.used);
        Get32U32(crc(h[..20]) % 0x1_0000_0000);
        SlicesEqual(file, h);
      }
    }
  }

  lemma HeaderSplit(file: Data)
    requires |file| >= 32
    ensures file[..20] == file[..4] + file[4..8] + file[8..12] + file[12..20]
    ensures file[..24] == file[..20] + file[20..24]
  {}

  lemma SlicesEqual(a: Data, b: Data)
    requires |a| >= 32 && |b| >= 32
    ensures a[..24] == b[..24] <==>
            && a[..4] == b[..4] && a[4..8] == b[4..8] && a[8..12] == b[8..12] && a[12..20] == b[12..20]
            && a[20..24] == b[20..24]
    ensures a[..24] == b[..24] ==> a[..20] == b[..20]
  {
    HeaderSplit(a);
    HeaderSplit(b);
    if a[..24] == b[..24] {
      SliceOfSlice(a, 0, 24, 0, 4);
      SliceOfSlice(b, 0, 24, 0, 4);
      SliceOfSlice(a, 0, 24, 4, 8);
      SliceOfSlice(b, 0, 24, 4, 8);
      SliceOfSlice(a, 0, 24, 8, 12);
      SliceOfSlice(b, 0, 24, 8, 12);
      SliceOfSlice(a, 0, 24, 12, 20);
      SliceOfSlice(b, 0, 24, 12, 20);
      SliceOfSlice(a, 0, 24, 20, 24);
      SliceOfSlice(b, 0, 24, 20, 24);
      assert a[0..24] == a[..24] && b[0..24] == b[..24];
    }
  }

  lemma HeaderReads(file: Data, cap: nat, rec: nat, used: nat, crc: Checksum)
    requires cap < 0x1_0000_0000 && rec < 0x1_0000_0000 && used < 0x1_0000_0000_0000_0000
    requires |file| >= HEADER_SIZE && file[..HEADER_SIZE] == Header(cap, rec, used, crc)
    ensures ReadHeader(file, crc) == Ok(Info(cap, rec, used))
  {
    hide Header, ReadHeader;
    HeaderAccepted(file, crc, Info(cap, rec, used));
    assert file[..24] == file[..32][..24];
  }

  lemma SubSlice(a: Data, b: Data, x: nat, y: nat)
    requires x <= y <= HEADER_SIZE <= |a| && HEADER_SIZE <= |b| && a[..HEADER_SIZE] == b[..HEADER_SIZE]
    ensures a[x..y] == b[x..y]
  {
    forall k | 0 <= k < HEADER_SIZE ensures a[k] == b[k] {
      assert a[k] == a[..HEADER_SIZE][k] == b[..HEADER_SIZE][k] == b[k];
    }
  }

  lemma HeaderSame(file: Data, file': Data, crc: Checksum)
    requires |file| >= HEADER_SIZE && |file'| >= HEADER_SIZE && file[..HEADER_SIZE] == file'[..HEADER_SIZE]
    ensures ReadHeader(file', crc) == ReadHeader(file, crc)
  {
    SubSlice(file, file', 0, 20);
    SubSlice(file, file', 0, 4);
    SubSlice(file, file', 4, 8);
    SubSlice(file, file', 8, 12);
    SubSlice(file, file', 12, 20);
    SubSlice(file, file', 20, 24);
  }

  /** What is written past the header does not make an unreadable file readable. */
  lemma StaysUnreadable(crc: Checksum, file: Data, at: nat, b: Data)
    requires Unreadable(crc, file) && at >= HEADER_SIZE
    ensures Unreadable(crc, Put(file, at, b))
  {
    hide ReadHeader;
    var padded := if |file| < HEADER_SIZE then file + Zeros(HEADER_SIZE - |file|) else file;
    var file' := Put(file, at, b);
    if b != [] {
      assert file'[..HEADER_SIZE] == padded[..HEADER_SIZE];
      HeaderSame(padded, file', crc);
    }
  }

  // ---------------------------------------------------------------------------------------
  // Entries and payloads

  function EntryBytes(tx: nat, stamp: Stamp, done: bool, offset: nat): (b: Data)
    requires tx <= MAX_TX && offset < 0x1_0000_0000_0000_0000
    ensures |b| == ENTRY_SIZE
  {
    U64(tx) + stamp + [if done then 1 else 0] + U64(offset)
  }

  /** What a reader takes from an entry's bytes: any non-zero flag byte means complete. */
  ghost predicate EntrySays(b: Data, tx: nat, done: bool, offset: nat) {
    |b| == ENTRY_SIZE && Get64(b[..8]) == tx && (b[16] != 0 <==> done) && Get64(b[17..25]) == offset
  }

  lemma EntryReads(tx: nat, stamp: Stamp, done: bool, offset: nat)
    requires tx <= MAX_TX && offset < 0x1_0000_0000_0000_0000
    ensures EntrySays(EntryBytes(tx, stamp, done, offset), tx, done, offset)
  {
    var b := EntryBytes(tx, stamp, done, offset);
    assert b[..8] == U64(tx) && b[17..25] == U64(offset);
    Get64U64(tx);
    Get64U64(offset);
  }

  /** What stands where in an entry and in a payload's frame, and where entries and frames stand. */
  lemma EntryLayout(tx: nat, stamp: Stamp, done: bool, offset: nat, l: Layout, i: nat, payload: Data)
    requires tx < 0x8000_0000_0000_0000 && offset < 0x1_0000_0000_0000_0000 && |payload| < 0x1_0000_0000
    ensures var b := EntryBytes(tx, stamp, done, offset);
            && |b| == 25 && Number(b[..8]) == tx && b[8..16] == stamp && b[16] == (if done then 1 else 0)
            && Number(b[17..]) == offset
    ensures Number(Framed(payload)[..4]) == |payload| && Framed(payload)[4..] == payload
    ensures SlotAt(i) == 32 + 25 * i && Block(l) == 32 + 25 * l.cap
  {
    hide U32, U64, Number;
    var b := EntryBytes(tx, stamp, done, offset);
    assert b[..8] == U64(tx) && b[17..] == U64(offset);
    BigEndian(tx);
    BigEndian(offset);
    assert Framed(payload)[..4] == U32(|payload|);
    BigEndian(|payload|);
  }

  function Framed(payload: Data): (b: Data)
    requires |payload| < 0x1_0000_0000
    ensures |b| == 4 + |payload|
  {
    U32(|payload|) + payload
  }

  /** Bytes of payload area that `recs` take. */
  function Used(recs: seq<Record>): nat {
    if recs == [] then 0 else Used(recs[..|recs| - 1]) + 4 + |recs[|recs| - 1].payload|
  }

  lemma {:induction false} UsedUpTo(recs: seq<Record>, i: nat)
    requires i < |recs|
    ensures Used(recs[..i + 1]) == Used(recs[..i]) + 4 + |recs[i].payload|
    ensures Used(recs[..i + 1]) <= Used(recs)
    decreases |recs| - i
  {
    assert recs[..i + 1][..i] == recs[..i];
    if i + 1 < |recs| {
      UsedUpTo(recs, i + 1);
    } else {
      assert recs[..i + 1] == recs;
    }
  }

  lemma {:induction false} UsedConcat(a: seq<Record>, b: seq<Record>)
    ensures Used(a + b) == Used(a) + Used(b)
    decreases |b|
  {
    if b == [] {
      assert a + b == a;
    } else {
      assert (a + b)[..|a + b| - 1] == a + b[..|b| - 1];
      UsedConcat(a, b[..|b| - 1]);
    }
  }

  /** Slot `i` of the file holds record `i` and points at its payload. */
  ghost predicate EntryOk(l: Layout, file: Data, id: nat, recs: seq<Record>, i: nat)
    requires i < |recs|
  {
    var off, p := Block(l) + Used(recs[..i]), recs[i].payload;
    && FirstTx(l, id) + i <= MAX_TX && |p| < 0x1_0000_0000
    && SlotAt(i + 1) <= |file| && EntrySays(file[SlotAt(i)..SlotAt(i + 1)], FirstTx(l, id) + i, recs[i].done, off)
    && off + 4 + |p| <= |file| && file[off..off + 4 + |p|] == Framed(p)
  }

  /** File number `id` of the log holds exactly `recs`. */
  ghost predicate FileOk(l: Layout, crc: Checksum, file: Data, id: nat, recs: seq<Record>) {
    && |recs| <= l.cap && Used(recs) <= l.area
    && ReadHeader(file, crc) == Ok(Info(l.cap, |recs|, Used(recs)))
    && forall i | 0 <= i < |recs| :: EntryOk(l, file, id, recs, i)
  }

  // ---------------------------------------------------------------------------------------
  // Reading a file

  /** The incomplete records, each under its transaction id. A reader passes over an empty payload. */
  function Yield(base: nat, recs: seq<Record>): seq<(nat, Data)> {
    if recs == [] then []
    else
      var n := |recs| - 1;
      Yield(base, recs[..n]) + if recs[n].done || recs[n].payload == [] then [] else [(base + n, recs[n].payload)]
  }

  lemma PayloadRead(file: Data, off: nat, p: Data)
    requires |p| < 0x1_0000_0000 && off + 4 + |p| <= |file| && file[off..off + 4 + |p|] == Framed(p)
    ensures Get32(file[off..off + 4]) == |p| && file[off + 4..off + 4 + |p|] == p
  {
    var b := file[off..off + 4 + |p|];
    assert file[off..off + 4] == b[..4] == U32(|p|);
    assert file[off + 4..off + 4 + |p|] == b[4..] == p;
    Get32U32(|p|);
  }

  /** What slot `i` yields: nothing if it is complete or its payload cannot be read. */
  function ReadEntry(l: Layout, file: Data, i: nat): seq<(nat, Data)>
    requires SlotAt(i + 1) <= |file|
  {
    var entry := file[SlotAt(i)..SlotAt(i + 1)];
    var offset := Get64(entry[17..25]);
    if entry[16] != 0 || |file| < offset + 4 then []
    else
      var length := Get32(file[offset..offset + 4]);
      if length == 0 || length > l.area || |file| < offset + 4 + length then []
      else [(Get64(entry[..8]), file[offset + 4..offset + 4 + length])]
  }

  /** What the first `n` slots yield; reading stops at the first slot the file is too short for. */
  function ReadEntries(l: Layout, file: Data, n: nat): seq<(nat, Data)> {
    if n == 0 then []
    else ReadEntries(l, file, n - 1) + if SlotAt(n) <= |file| then ReadEntry(l, file, n - 1) else []
  }

  /** What a reader gets out of a file, whatever its bytes are. */
  function FileReads(l: Layout, crc: Checksum, file: Data): seq<(nat, Data)> {
    var header := ReadHeader(file, crc);
    if header.Err? then [] else ReadEntries(l, file, header.value.rec)
  }

  lemma {:induction false} StopsShort(l: Layout, file: Data, i: nat, n: nat)
    requires i <= n && |file| < SlotAt(i + 1)
    ensures ReadEntries(l, file, n) == ReadEntries(l, file, i)
    decreases n
  {
    if i < n { StopsShort(l, file, i, n - 1); }
  }

  /** `read_wal`, one file: a bad header yields nothing, a short entry stops, a bad payload is passed over. */
  method ReadFile(l: Layout, crc: Checksum, file: Data) returns (out: seq<(nat, Data)>)
    ensures out == FileReads(l, crc, file)
  {
    hide ReadHeader, Get32, Get64;
    out := [];
    var header := ReadHeader(file, crc);
    if header.Err? {
      return;
    }
    for i := 0 to header.value.rec
      invariant out == ReadEntries(l, file, i)
    {
      if |file| < SlotAt(i + 1) {
        StopsShort(l, file, i, header.value.rec);
        return;
      }
      var entry := file[SlotAt(i)..SlotAt(i + 1)];
      if entry[16] != 0 {
        continue;
      }
      var offset := Get64(entry[17..25]);
      if |file| < offset + 4 {
        continue;
      }
      var length := Get32(file[offset..offset + 4]);
      if length == 0 || length > l.area || |file| < offset + 4 + length {
        continue;
      }
      out := out + [(Get64(entry[..8]), file[offset + 4..offset + 4 + length])];
    }
  }

  /** Whatever the bytes are, no payload is empty or larger than the payload area. */
  lemma {:induction false} ReadsBounded(l: Layout, file: Data, n: nat)
    ensures forall e | e in ReadEntries(l, file, n) :: 0 < |e.1| <= l.area
  {
    hide Get32, Get64;
    if n > 0 { ReadsBounded(l, file, n - 1); }
  }

  lemma EntryYields(l: Layout, file: Data, id: nat, recs: seq<Record>, i: nat)
    requires i < |recs| && EntryOk(l, file, id, recs, i) && Used(recs[..i + 1]) <= l.area
    ensures SlotAt(i + 1) <= |file|
    ensures ReadEntry(l, file, i)
         == if recs[i].done || recs[i].payload == [] then [] else [(FirstTx(l, id) + i, recs[i].payload)]
  {
    hide FirstTx, Framed, Used;
    UsedUpTo(recs, i);
    PayloadRead(file, Block(l) + Used(recs[..i]), recs[i].payload);
  }

  /** A well-formed file reads as its incomplete records. */
  lemma FileYields(l: Layout, crc: Checksum, file: Data, id: nat, recs: seq<Record>)
    requires FileOk(l, crc, file, id, recs)
    ensures FileReads(l, crc, file) == Yield(FirstTx(l, id), recs)
  {
    hide ReadHeader, FirstTx, EntryOk;
    EntriesYield(l, file, id, recs, |recs|);
    assert recs[..|recs|] == recs;
  }

  lemma {:induction false} EntriesYield(l: Layout, file: Data, id: nat, recs: seq<Record>, n: nat)
    requires n <= |recs| && Used(recs) <= l.area && forall i | 0 <= i < |recs| :: EntryOk(l, file, id, recs, i)
    ensures ReadEntries(l, file, n) == Yield(FirstTx(l, id), recs[..n])
    decreases n
  {
    hide FirstTx, EntryOk, ReadEntry, Used;
    if n > 0 {
      EntriesYield(l, file, id, recs, n - 1);
      UsedUpTo(recs, n - 1);
      EntryYields(l, file, id, recs, n - 1);
      assert recs[..n][..n - 1] == recs[..n - 1];
    }
  }
}
