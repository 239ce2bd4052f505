/** What the writes of a batch, and of a completion mark, do to a log file as a reader sees it. */
module WalBatch {
  import opened Wrappers
  import opened Bytes
  import opened WalFile

  // ---------------------------------------------------------------------------------------
  // Writes that leave what is read alone

  lemma PayloadRange(l: Layout, recs: seq<Record>, i: nat)
    requires i < |recs| && Used(recs) <= l.area && |recs| <= l.cap
    ensures SlotAt(i + 1) <= Block(l)
    ensures Block(l) + Used(recs[..i]) + 4 + |recs[i].payload| <= Block(l) + Used(recs)
  {
    UsedUpTo(recs, i);
  }

  lemma EntryKept(l: Layout, file: Data, file': Data, id: nat, recs: seq<Record>, i: nat)
    requires i < |recs| && EntryOk(l, file, id, recs, i) && |file| <= |file'|
    requires file'[SlotAt(i)..SlotAt(i + 1)] == file[SlotAt(i)..SlotAt(i + 1)]
    requires var off, end := Block(l) + Used(recs[..i]), Block(l) + Used(recs[..i]) + 4 + |recs[i].payload|;
             file'[off..end] == file[off..end]
    ensures EntryOk(l, file', id, recs, i)
  {
    hide EntrySays, Framed, FirstTx;
  }

  /** Any write that stays clear of the header, the used slots and the used payload bytes is invisible. */
  lemma Invisible(l: Layout, crc: Checksum, file: Data, id: nat, recs: seq<Record>, at: nat, b: Data)
    requires FileOk(l, crc, file, id, recs)
    requires Block(l) + Used(recs) <= at || (SlotAt(|recs|) <= at && at + |b| <= Block(l))
    ensures FileOk(l, crc, Put(file, at, b), id, recs)
  {
    hide EntryOk, ReadHeader, Put;
    var file' := Put(file, at, b);
    HeaderLength(file, crc);
    PutElsewhere(file, at, b, 0, HEADER_SIZE);
    assert file[..HEADER_SIZE] == file[0..HEADER_SIZE] == file'[0..HEADER_SIZE] == file'[..HEADER_SIZE];
    HeaderSame(file, file', crc);
    forall i | 0 <= i < |recs| ensures EntryOk(l, file', id, recs, i) {
      PayloadRange(l, recs, i);
      OtherEntry(l, file, id, recs, i, at, b);
    }
  }

  lemma OtherEntry(l: Layout, file: Data, id: nat, recs: seq<Record>, i: nat, at: nat, b: Data)
    requires i < |recs| && EntryOk(l, file, id, recs, i)
    requires SlotAt(i + 1) <= at || at + |b| <= SlotAt(i)
    requires var off := Block(l) + Used(recs[..i]); off + 4 + |recs[i].payload| <= at || at + |b| <= off
    ensures EntryOk(l, Put(file, at, b), id, recs, i)
  {
    hide EntrySays, Framed, FirstTx, Put;
    PutElsewhere(file, at, b, SlotAt(i), SlotAt(i + 1));
    var off := Block(l) + Used(recs[..i]);
    PutElsewhere(file, at, b, off, off + 4 + |recs[i].payload|);
    EntryKept(l, file, Put(file, at, b), id, recs, i);
  }

  lemma HeaderLength(file: Data, crc: Checksum)
    requires ReadHeader(file, crc).Ok?
    ensures HEADER_SIZE <= |file|
  {}

  // ---------------------------------------------------------------------------------------
  // Building a batch

  ghost predicate Fit(recs: seq<Record>) {
    forall i | 0 <= i < |recs| :: |recs[i].payload| < 0x1_0000_0000
  }

  lemma AppendLeft(a: Data, b: Data, x: nat, y: nat)
    requires x <= y <= |a|
    ensures (a + b)[x..y] == a[x..y]
  {}

  lemma AppendRight(a: Data, b: Data)
    ensures (a + b)[|a|..|a| + |b|] == b
  {}

  /** The payloads, each behind its length. */
  function Frames(recs: seq<Record>): (b: Data)
    requires Fit(recs)
    ensures |b| == Used(recs)
  {
    if recs == [] then [] else Frames(recs[..|recs| - 1]) + Framed(recs[|recs| - 1].payload)
  }

  lemma {:induction false} FrameAt(recs: seq<Record>, i: nat)
    requires Fit(recs) && i < |recs|
    ensures var x, y := Used(recs[..i]), Used(recs[..i]) + 4 + |recs[i].payload|;
            y <= Used(recs) && Frames(recs)[x..y] == Framed(recs[i].payload)
    decreases |recs|
  {
    hide Framed, Used;
    UsedUpTo(recs, i);
    var n := |recs| - 1;
    var front, last := Frames(recs[..n]), Framed(recs[n].payload);
    assert Frames(recs) == front + last;
    if i < n {
      FrameAt(recs[..n], i);
      assert recs[..n][..i] == recs[..i];
      AppendLeft(front, last, Used(recs[..i]), Used(recs[..i]) + 4 + |recs[i].payload|);
    } else {
      AppendRight(front, last);
    }
  }

  /** The entry headers of consecutive transactions whose payloads lie one after another from `offset` on. */
  function Entries(first: nat, recs: seq<Record>, stamps: seq<Stamp>, offset: nat): (b: Data)
    requires |stamps| == |recs| && first + |recs| <= MAX_TX + 1 && offset + Used(recs) < 0x1_0000_0000_0000_0000
    ensures |b| == ENTRY_SIZE * |recs|
  {
    if recs == [] then []
    else
      var n := |recs| - 1;
      Entries(first, recs[..n], stamps[..n], offset)
      + EntryBytes(first + n, stamps[n], recs[n].done, offset + Used(recs[..n]))
  }

  lemma {:induction false} EntryAt(first: nat, recs: seq<Record>, stamps: seq<Stamp>, offset: nat, i: nat)
    requires |stamps| == |recs| && first + |recs| <= MAX_TX + 1 && offset + Used(recs) < 0x1_0000_0000_0000_0000
    requires i < |recs|
    ensures Used(recs[..i]) <= Used(recs)
    ensures Entries(first, recs, stamps, offset)[ENTRY_SIZE * i..ENTRY_SIZE * (i + 1)]
         == EntryBytes(first + i, stamps[i], recs[i].done, offset + Used(recs[..i]))
    decreases |recs|
  {
    hide EntryBytes, Used;
    UsedUpTo(recs, i);
    var n := |recs| - 1;
    UsedUpTo(recs, n);
    var front, last := Entries(first, recs[..n], stamps[..n], offset),
                       EntryBytes(first + n, stamps[n], recs[n].done, offset + Used(recs[..n]));
    assert Entries(first, recs, stamps, offset) == front + last;
    if i < n {
      EntryAt(first, recs[..n], stamps[..n], offset, i);
      assert recs[..n][..i] == recs[..i];
      AppendLeft(front, last, ENTRY_SIZE * i, ENTRY_SIZE * (i + 1));
    } else {
      AppendRight(front, last);
    }
  }

  // ---------------------------------------------------------------------------------------
  // The three writes of a batch

  /** A batch can be written behind `recs`: its slots, payload bytes and ids are within bounds. */
  ghost predicate Room(l: Layout, id: nat, recs: seq<Record>, batch: seq<Record>) {
    && Packable(l) && |recs| + |batch| <= l.cap && Used(recs) + Used(batch) <= l.area
    && FirstTx(l, id) + |recs| + |batch| <= MAX_TX + 1
  }

  lemma RoomFits(l: Layout, id: nat, recs: seq<Record>, batch: seq<Record>)
    requires Room(l, id, recs, batch)
    ensures Fit(batch) && Block(l) + Used(recs) + Used(batch) < 0x1_0000_0000_0000_0000
  {
    forall i | 0 <= i < |batch| ensures |batch[i].payload| < 0x1_0000_0000 {
      UsedUpTo(batch, i);
    }
  }

  function WithPayloads(l: Layout, file: Data, recs: seq<Record>, batch: seq<Record>): Data
    requires Fit(batch)
  {
    Put(file, Block(l) + Used(recs), Frames(batch))
  }

  function WithEntries(l: Layout, file: Data, id: nat, recs: seq<Record>, batch: seq<Record>, stamps: seq<Stamp>): Data
    requires |stamps| == |batch| && FirstTx(l, id) + |recs| + |batch| <= MAX_TX + 1
    requires Block(l) + Used(recs) + Used(batch) < 0x1_0000_0000_0000_0000
  {
    PutEntries(file, |recs|, FirstTx(l, id) + |recs|, batch, stamps, Block(l) + Used(recs))
  }

  function PutEntries(file: Data, slot: nat, first: nat, batch: seq<Record>, stamps: seq<Stamp>, offset: nat): Data
    requires |stamps| == |batch| && first + |batch| <= MAX_TX + 1 && offset + Used(batch) < 0x1_0000_0000_0000_0000
  {
    Put(file, SlotAt(slot), Entries(first, batch, stamps, offset))
  }

  function WithHeader(l: Layout, file: Data, recs: seq<Record>, batch: seq<Record>, crc: Checksum): Data
    requires l.cap < 0x1_0000_0000 && |recs| + |batch| < 0x1_0000_0000
    requires Used(recs) + Used(batch) < 0x1_0000_0000_0000_0000
  {
    Put(file, 0, Header(l.cap, |recs| + |batch|, Used(recs) + Used(batch), crc))
  }

  /** Before the header is written the file reads as it did, after the payloads and after the entries. */
  lemma TornBatch(l: Layout, crc: Checksum, file: Data, id: nat, recs: seq<Record>, batch: seq<Record>,
                  stamps: seq<Stamp>)
    requires FileOk(l, crc, file, id, recs) && Room(l, id, recs, batch) && |stamps| == |batch|
    ensures Fit(batch) && Block(l) + Used(recs) + Used(batch) < 0x1_0000_0000_0000_0000
    ensures var file1 := WithPayloads(l, file, recs, batch);
            FileOk(l, crc, file1, id, recs) && FileOk(l, crc, WithEntries(l, file1, id, recs, batch, stamps), id, recs)
  {
    hide FileOk, Put, Frames, Entries, FirstTx;
    RoomFits(l, id, recs, batch);
    var file1 := WithPayloads(l, file, recs, batch);
    Invisible(l, crc, file, id, recs, Block(l) + Used(recs), Frames(batch));
    Invisible(l, crc, file1, id, recs, SlotAt(|recs|),
        Entries(FirstTx(l, id) + |recs|, batch, stamps, Block(l) + Used(recs)));
  }

  /** The new slots and payloads are in place once both blocks are written. */
  lemma NewEntry(l: Layout, crc: Checksum, file: Data, id: nat, recs: seq<Record>, batch: seq<Record>,
                 stamps: seq<Stamp>, k: nat)
    requires FileOk(l, crc, file, id, recs) && Room(l, id, recs, batch) && |stamps| == |batch| && k < |batch|
    requires Fit(batch) && Block(l) + Used(recs) + Used(batch) < 0x1_0000_0000_0000_0000
    ensures EntryOk(l, WithEntries(l, WithPayloads(l, file, recs, batch), id, recs, batch, stamps), id, recs + batch,
            |recs| + k)
  {
    hide FileOk, WithEntries, WithPayloads, EntryBytes, EntrySays, EntryOk, Framed, FirstTx, Used, Block, SlotAt;
    var all, n := recs + batch, |recs|;
    NewSlot(l, WithPayloads(l, file, recs, batch), id, recs, batch, stamps, k);
    NewPayload(l, file, id, recs, batch, stamps, k);
    EntryReads(FirstTx(l, id) + n + k, stamps[k], batch[k].done, Block(l) + Used(recs) + Used(batch[..k]));
    assert all[..n + k] == recs + batch[..k] && all[n + k] == batch[k];
    UsedConcat(recs, batch[..k]);
    RoomFits(l, id, recs, batch);
    EntryFrom(l, WithEntries(l, WithPayloads(l, file, recs, batch), id, recs, batch, stamps), id, all, n + k,
              Block(l) + Used(recs) + Used(batch[..k]), batch[k]);
  }

  lemma NewSlot(l: Layout, file: Data, id: nat, recs: seq<Record>, batch: seq<Record>, stamps: seq<Stamp>, k: nat)
    requires Room(l, id, recs, batch) && |stamps| == |batch| && k < |batch|
    requires Block(l) + Used(recs) + Used(batch) < 0x1_0000_0000_0000_0000
    ensures var file' := WithEntries(l, file, id, recs, batch, stamps); var i := |recs| + k;
            && Used(batch[..k]) <= Used(batch) && SlotAt(i + 1) <= |file'|
            && file'[SlotAt(i)..SlotAt(i + 1)]
            == EntryBytes(FirstTx(l, id) + i, stamps[k], batch[k].done, Block(l) + Used(recs) + Used(batch[..k]))
  {
    hide Put, EntryBytes, FirstTx, Used, Entries;
    EntryAt(FirstTx(l, id) + |recs|, batch, stamps, Block(l) + Used(recs), k);
    var block := Entries(FirstTx(l, id) + |recs|, batch, stamps, Block(l) + Used(recs));
    PutInside(file, SlotAt(|recs|), block, ENTRY_SIZE * k, ENTRY_SIZE * (k + 1));
    Slots(|recs|, k);
  }

  lemma NewPayload(l: Layout, file: Data, id: nat, recs: seq<Record>, batch: seq<Record>, stamps: seq<Stamp>, k: nat)
    requires Room(l, id, recs, batch) && Fit(batch) && |stamps| == |batch| && k < |batch|
    requires Block(l) + Used(recs) + Used(batch) < 0x1_0000_0000_0000_0000
    ensures var file' := WithEntries(l, WithPayloads(l, file, recs, batch), id, recs, batch, stamps);
            var off := Block(l) + Used(recs) + Used(batch[..k]); var end := off + 4 + |batch[k].payload|;
            end <= |file'| && file'[off..end] == Framed(batch[k].payload)
  {
    hide Put, Frames, Entries, Framed, FirstTx, Used;
    FrameAt(batch, k);
    var x, y := Used(batch[..k]), Used(batch[..k]) + 4 + |batch[k].payload|;
    var base := Block(l) + Used(recs);
    PutInside(file, base, Frames(batch), x, y);
    var file1 := WithPayloads(l, file, recs, batch);
    PutElsewhere(file1, SlotAt(|recs|), Entries(FirstTx(l, id) + |recs|, batch, stamps, base), base + x, base + y);
  }

  lemma Slots(n: nat, k: nat)
    ensures SlotAt(n + k) == SlotAt(n) + ENTRY_SIZE * k && SlotAt(n + k + 1) == SlotAt(n) + ENTRY_SIZE * (k + 1)
  {}

  lemma EntryFrom(l: Layout, file: Data, id: nat, recs: seq<Record>, i: nat, off: nat, rec: Record)
    requires i < |recs| && recs[i] == rec && off == Block(l) + Used(recs[..i])
    requires FirstTx(l, id) + i <= MAX_TX && |rec.payload| < 0x1_0000_0000
    requires SlotAt(i + 1) <= |file| && EntrySays(file[SlotAt(i)..SlotAt(i + 1)], FirstTx(l, id) + i, rec.done, off)
    requires off + 4 + |rec.payload| <= |file| && file[off..off + 4 + |rec.payload|] == Framed(rec.payload)
    ensures EntryOk(l, file, id, recs, i)
  {
    hide EntrySays, Framed, FirstTx;
  }

  lemma PutInside(file: Data, at: nat, b: Data, x: nat, y: nat)
    requires x < y <= |b|
    ensures at + y <= |Put(file, at, b)| && Put(file, at, b)[at + x..at + y] == b[x..y]
  {
    PutHere(file, at, b);
    var r := Put(file, at, b);
    assert r[at..at + |b|][x..y] == r[at + x..at + y];
  }

  /** The header write makes the whole batch visible at once: the file then holds the old records and the new. */
  lemma Committed(l: Layout, crc: Checksum, file: Data, id: nat, recs: seq<Record>, batch: seq<Record>,
                  stamps: seq<Stamp>)
    requires FileOk(l, crc, file, id, recs) && Room(l, id, recs, batch) && |stamps| == |batch|
    requires Fit(batch) && Block(l) + Used(recs) + Used(batch) < 0x1_0000_0000_0000_0000
    ensures var file2 := WithEntries(l, WithPayloads(l, file, recs, batch), id, recs, batch, stamps);
            FileOk(l, crc, WithHeader(l, file2, recs, batch, crc), id, recs + batch)
  {
    hide EntryOk, Put, Header, ReadHeader, WithEntries, WithPayloads, FirstTx, Used, Fit;
    var all := recs + batch;
    var file2 := WithEntries(l, WithPayloads(l, file, recs, batch), id, recs, batch, stamps);
    var h := Header(l.cap, |all|, Used(recs) + Used(batch), crc);
    var file3 := Put(file2, 0, h);
    TornBatch(l, crc, file, id, recs, batch, stamps);
    UsedConcat(recs, batch);
    PutInside(file2, 0, h, 0, HEADER_SIZE);
    assert file3[..HEADER_SIZE] == h;
    HeaderReads(file3, l.cap, |all|, Used(all), crc);
    forall i | 0 <= i < |all| ensures EntryOk(l, file3, id, all, i) {
      if i < |recs| {
        OldEntry(l, file2, id, recs, batch, i);
      } else {
        NewEntry(l, crc, file, id, recs, batch, stamps, i - |recs|);
      }
      OtherEntry(l, file2, id, all, i, 0, h);
    }
  }

  lemma OldEntry(l: Layout, file: Data, id: nat, recs: seq<Record>, batch: seq<Record>, i: nat)
    requires i < |recs| && EntryOk(l, file, id, recs, i)
    ensures EntryOk(l, file, id, recs + batch, i)
  {
    assert (recs + batch)[..i] == recs[..i] && (recs + batch)[i] == recs[i];
  }

  // ---------------------------------------------------------------------------------------
  // Marking an entry complete

  function MarkAt(recs: seq<Record>, i: nat): (r: seq<Record>)
    ensures |r| == |recs|
  {
    if i < |recs| then recs[i := recs[i].(done := true)] else recs
  }

  lemma {:induction false} MarkUses(recs: seq<Record>, i: nat, n: nat)
    requires n <= |recs|
    ensures Used(MarkAt(recs, i)[..n]) == Used(recs[..n])
  {
    if n > 0 {
      MarkUses(recs, i, n - 1);
      assert recs[..n][..n - 1] == recs[..n - 1];
      assert MarkAt(recs, i)[..n][..n - 1] == MarkAt(recs, i)[..n - 1];
    }
  }

  /** One byte written into a slot completes that record and touches no other; an unused slot shows nothing. */
  lemma Marked(l: Layout, crc: Checksum, file: Data, id: nat, recs: seq<Record>, i: nat)
    requires FileOk(l, crc, file, id, recs) && i < l.cap
    ensures FileOk(l, crc, Put(file, SlotAt(i) + 16, [1]), id, MarkAt(recs, i))
  {
    hide EntryOk, ReadHeader, Put, Used;
    if i >= |recs| {
      Invisible(l, crc, file, id, recs, SlotAt(i) + 16, [1]);
    } else {
      var file' := Put(file, SlotAt(i) + 16, [1]);
      HeaderLength(file, crc);
      PutElsewhere(file, SlotAt(i) + 16, [1], 0, HEADER_SIZE);
      assert file[..HEADER_SIZE] == file[0..HEADER_SIZE] == file'[0..HEADER_SIZE] == file'[..HEADER_SIZE];
      HeaderSame(file, file', crc);
      MarkUses(recs, i, |recs|);
      assert recs[..|recs|] == recs && MarkAt(recs, i)[..|recs|] == MarkAt(recs, i);
      forall j | 0 <= j < |recs| ensures EntryOk(l, file', id, MarkAt(recs, i), j) {
        PayloadRange(l, recs, j);
        MarkUses(recs, i, j);
        if j == i {
          MarkedEntry(l, file, id, recs, i);
        } else {
          OtherEntry(l, file, id, recs, j, SlotAt(i) + 16, [1]);
          EntryCarried(l, file', id, recs, MarkAt(recs, i), j);
        }
      }
    }
  }

  lemma EntryCarried(l: Layout, file: Data, id: nat, a: seq<Record>, b: seq<Record>, j: nat)
    requires j < |a| && j < |b| && a[j] == b[j] && Used(a[..j]) == Used(b[..j]) && EntryOk(l, file, id, a, j)
    ensures EntryOk(l, file, id, b, j)
  {}

  lemma MarkedEntry(l: Layout, file: Data, id: nat, recs: seq<Record>, i: nat)
    requires i < |recs| && |recs| <= l.cap && EntryOk(l, file, id, recs, i)
    requires Used(MarkAt(recs, i)[..i]) == Used(recs[..i])
    ensures EntryOk(l, Put(file, SlotAt(i) + 16, [1]), id, MarkAt(recs, i), i)
  {
    hide FirstTx, Framed, Used, Put;
    var at, off, p := SlotAt(i), Block(l) + Used(recs[..i]), recs[i].payload;
    var file' := Put(file, at + 16, [1]);
    PutElsewhere(file, at + 16, [1], at, at + 8);
    PutElsewhere(file, at + 16, [1], at + 17, at + 25);
    PutElsewhere(file, at + 16, [1], off, off + 4 + |p|);
    PutHere(file, at + 16, [1]);
    assert SlotAt(i + 1) == at + ENTRY_SIZE <= |file| <= |file'|;
    MarkedSlot(file, file', at, FirstTx(l, id) + i, recs[i].done, off);
  }

  /** The flag byte of a slot is set and its other fields are as they were. */
  lemma MarkedSlot(file: Data, file': Data, at: nat, tx: nat, done: bool, offset: nat)
    requires at + ENTRY_SIZE <= |file| && at + ENTRY_SIZE <= |file'|
    requires EntrySays(file[at..at + ENTRY_SIZE], tx, done, offset)
    requires file'[at..at + 8] == file[at..at + 8] && file'[at + 17..at + 25] == file[at + 17..at + 25]
    requires file'[at + 16..at + 17] == [1]
    ensures EntrySays(file'[at..at + ENTRY_SIZE], tx, true, offset)
  {
    hide EntrySays;
    var b, b' := file[at..at + 25], file'[at..at + 25];
    SliceOfSlice(file, at, at + 25, 0, 8);
    SliceOfSlice(file', at, at + 25, 0, 8);
    SliceOfSlice(file, at, at + 25, 17, 25);
    SliceOfSlice(file', at, at + 25, 17, 25);
    SliceOfSlice(file', at, at + 25, 16, 17);
    assert b'[16] == b'[16..17][0];
    SameFields(b, b', tx, done, offset);
  }

  lemma SameFields(b: Data, b': Data, tx: nat, done: bool, offset: nat)
    requires EntrySays(b, tx, done, offset) && |b'| == ENTRY_SIZE && b'[16] != 0
    requires b'[0..8] == b[0..8] && b'[17..25] == b[17..25]
    ensures EntrySays(b', tx, true, offset)
  {
    hide Get64;
    assert b'[..8] == b'[0..8] && b[..8] == b[0..8];
  }
}
