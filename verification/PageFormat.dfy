/**
 A slotted page as a value, and its 4096-byte image.

 `Loaded` is what `from_bytes` checks. `Packed` is what pages built by insert, delete and compact
 satisfy in addition: live records are non-empty and lie below one another in slot order.
 */
module PageFormat {
  import opened Wrappers
  import opened Bytes

  const PAGE_SIZE: nat := 4096
  const HEADER_SIZE: nat := 20
  const CHECKSUM_OFFSET: nat := 16
  const SLOT_SIZE: nat := 4

  /** The longest record an empty page takes: 4072 bytes. */
  const ROOM: nat := PAGE_SIZE - HEADER_SIZE - SLOT_SIZE

  const MAGIC: Data := [67, 68, 66, 80]

  datatype Slot = Slot(offset: nat, length: nat)

  const DELETED := Slot(0, 0)

  datatype Page = Page(id: nat, flags: nat, lower: nat, upper: nat, slots: seq<Slot>, data: Data)

  // ---------------------------------------------------------------------------------------
  // Records

  ghost predicate SlotInside(s: Slot, upper: nat) {
    s == DELETED || (s.offset != 0 && upper <= s.offset && s.offset + s.length <= PAGE_SIZE)
  }

  ghost predicate Loaded(p: Page) {
    && |p.data| == PAGE_SIZE
    && p.id < 0x1_0000_0000 && p.flags < 0x1_0000
    && p.lower == HEADER_SIZE + |p.slots| * SLOT_SIZE
    && p.lower <= p.upper <= PAGE_SIZE
    && forall i | 0 <= i < |p.slots| :: SlotInside(p.slots[i], p.upper)
  }

  /** Live slots in order lie below one another. */
  ghost predicate Descending(slots: seq<Slot>) {
    forall i, j | 0 <= i < j < |slots| && slots[i] != DELETED && slots[j] != DELETED ::
      slots[j].offset + slots[j].length <= slots[i].offset
  }

  ghost predicate NoneEmpty(slots: seq<Slot>) {
    forall i | 0 <= i < |slots| && slots[i] != DELETED :: slots[i].length > 0
  }

  ghost predicate Packed(p: Page) {
    Loaded(p) && Descending(p.slots) && NoneEmpty(p.slots)
  }

  /** The live records, one behind the other, leave the slot directory alone. */
  ghost predicate Repackable(p: Page) {
    Loaded(p) && SumLen(p.slots) <= PAGE_SIZE - p.lower
  }

  lemma PackedFits(p: Page)
    requires Packed(p)
    ensures Repackable(p) && SumLen(p.slots) <= PAGE_SIZE - p.upper
  {
    SumBound(p.slots, p.upper);
  }

  function Cut(data: Data, s: Slot): Option<Data>
    requires s.offset + s.length <= |data|
  {
    if s == DELETED then None else Some(data[s.offset..s.offset + s.length])
  }

  /** The record in each slot, `None` where it has been deleted. */
  ghost function Records(p: Page): (r: seq<Option<Data>>)
    requires Loaded(p)
    ensures |r| == |p.slots|
    ensures forall i | 0 <= i < |r| :: r[i] == Cut(p.data, p.slots[i])
  {
    seq(|p.slots|, i requires 0 <= i < |p.slots| => Cut(p.data, p.slots[i]))
  }

  function SumLen(slots: seq<Slot>): nat {
    if slots == [] then 0 else SumLen(slots[..|slots| - 1]) + slots[|slots| - 1].length
  }

  /** Live records fit between any bound below them and the end of the page. */
  lemma {:induction false} SumBound(slots: seq<Slot>, bound: nat)
    requires Descending(slots) && bound <= PAGE_SIZE
    requires forall i | 0 <= i < |slots| :: SlotInside(slots[i], bound)
    ensures SumLen(slots) <= PAGE_SIZE - bound
    decreases |slots|
  {
    if slots != [] {
      var front, last := slots[..|slots| - 1], slots[|slots| - 1];
      var rest := if last == DELETED then bound else last.offset + last.length;
      assert forall i | 0 <= i < |front| :: front[i] == slots[i] && SlotInside(front[i], rest);
      SumBound(front, rest);
    }
  }

  lemma {:induction false} SumPrefix(slots: seq<Slot>, n: nat)
    requires n <= |slots|
    ensures SumLen(slots[..n]) <= SumLen(slots)
    decreases |slots|
  {
    if n < |slots| {
      SumPrefix(slots[..|slots| - 1], n);
      assert slots[..|slots| - 1][..n] == slots[..n];
    } else {
      assert slots[..n] == slots;
    }
  }

  // ---------------------------------------------------------------------------------------
  // Insert and delete

  /** A record goes in just below the lowest one, its slot at the end of the directory. */
  function Inserted(p: Page, payload: Data): Page
    requires |payload| <= p.upper && p.upper <= |p.data|
  {
    var at := p.upper - |payload|;
    p.(upper := at, lower := p.lower + SLOT_SIZE, slots := p.slots + [Slot(at, |payload|)],
       data := Splice(p.data, at, payload))
  }

  function Deleted(p: Page, id: nat): Page
    requires id < |p.slots| && p.slots[id].offset + p.slots[id].length <= |p.data|
  {
    p.(slots := p.slots[id := DELETED], data := Splice(p.data, p.slots[id].offset, Zeros(p.slots[id].length)))
  }

  lemma InsertKeeps(p: Page, payload: Data)
    requires Loaded(p) && p.upper - p.lower >= SLOT_SIZE + |payload|
    ensures Loaded(Inserted(p, payload)) && (Packed(p) && payload != [] ==> Packed(Inserted(p, payload)))
    ensures Records(Inserted(p, payload)) == Records(p) + [Some(payload)]
  {
    var p' := Inserted(p, payload);
    forall i | 0 <= i < |p'.slots| ensures SlotInside(p'.slots[i], p'.upper) {
      assert i < |p.slots| ==> SlotInside(p.slots[i], p.upper);
    }
    forall i | 0 <= i < |p.slots| ensures Cut(p'.data, p'.slots[i]) == Cut(p.data, p.slots[i]) {
      assert SlotInside(p.slots[i], p.upper);
      SpliceBelow(p.data, p.upper - |payload|, payload, p.slots[i]);
    }
    assert p'.data[p'.upper..p.upper] == payload;
    if Packed(p) && payload != [] {
      forall j | 0 <= j < |p.slots| ensures SlotInside(p.slots[j], p.upper) {}
      DescendingStep(p.slots, p'.slots[|p.slots|], p.upper);
    }
  }

  /** Overwriting bytes outside a record leaves the record. */
  lemma SpliceBelow(data: Data, at: nat, b: Data, s: Slot)
    requires at + |b| <= |data| && s.offset + s.length <= |data|
    requires s == DELETED || at + |b| <= s.offset || s.offset + s.length <= at
    ensures Cut(Splice(data, at, b), s) == Cut(data, s)
  {
    var r := Splice(data, at, b);
    if s != DELETED {
      assert r[s.offset..s.offset + s.length] == data[s.offset..s.offset + s.length];
    }
  }

  /** Two slots that share no byte of the page. */
  predicate Apart(a: Slot, b: Slot) {
    a == DELETED || b == DELETED || a.offset + a.length <= b.offset || b.offset + b.length <= a.offset
  }

  /** Deleting a record keeps every slot id, and every record that shares no byte with it. */
  lemma DeleteKeeps(p: Page, id: nat)
    requires Loaded(p) && id < |p.slots| && p.slots[id] != DELETED
    ensures SlotInside(p.slots[id], p.upper) && Loaded(Deleted(p, id)) && Records(Deleted(p, id))[id] == None
    ensures forall i | 0 <= i < |p.slots| && i != id && Apart(p.slots[i], p.slots[id]) ::
              Records(Deleted(p, id))[i] == Records(p)[i]
  {
    var p' := Deleted(p, id);
    assert SlotInside(p.slots[id], p.upper);
    forall i | 0 <= i < |p'.slots| ensures SlotInside(p'.slots[i], p'.upper) {
      assert SlotInside(p.slots[i], p.upper);
    }
    forall i | 0 <= i < |p.slots| && i != id && Apart(p.slots[i], p.slots[id])
      ensures Cut(p'.data, p'.slots[i]) == Cut(p.data, p.slots[i])
    {
      assert SlotInside(p.slots[i], p.upper);
      SpliceBelow(p.data, p.slots[id].offset, Zeros(p.slots[id].length), p.slots[i]);
    }
  }

  /** On a packed page that is every other record. */
  lemma DeletePacked(p: Page, id: nat)
    requires Packed(p) && id < |p.slots| && p.slots[id] != DELETED
    ensures SlotInside(p.slots[id], p.upper) && Packed(Deleted(p, id))
    ensures Records(Deleted(p, id)) == Records(p)[id := None]
  {
    hide Records;
    DeleteKeeps(p, id);
    assert forall i | 0 <= i < |p.slots| && i != id :: Apart(p.slots[i], p.slots[id]);
    assert |Records(p)| == |p.slots| == |Records(Deleted(p, id))|;
  }

  // ---------------------------------------------------------------------------------------
  // Compaction

  /** Slot `j` of `q` holds slot `j`'s record of `p`, somewhere at or above `q.upper`. */
  ghost predicate Moved(p: Page, q: Page, j: nat)
    requires j < |p.slots| && j < |q.slots| && |p.data| == |q.data| == PAGE_SIZE
    requires SlotInside(p.slots[j], 0)
  {
    && SlotInside(q.slots[j], q.upper)
    && (q.slots[j] == DELETED <==> p.slots[j] == DELETED)
    && q.slots[j].length == p.slots[j].length
    && Cut(q.data, q.slots[j]) == Cut(p.data, p.slots[j])
  }

  /** The first `i` records have been moved to the top, tightly and in order; the others are untouched. */
  ghost predicate RepackedTo(p: Page, q: Page, i: nat)
    requires Loaded(p)
  {
    && i <= |p.slots| == |q.slots| && |q.data| == PAGE_SIZE
    && q.id == p.id && q.flags == p.flags && q.lower == p.lower && q.data[..p.lower] == p.data[..p.lower]
    && q.upper == PAGE_SIZE - SumLen(p.slots[..i]) && p.lower <= q.upper
    && (forall j | i <= j < |p.slots| :: q.slots[j] == p.slots[j])
    && (forall j | 0 <= j < i :: SlotInside(p.slots[j], p.upper) && Moved(p, q, j))
    && Descending(q.slots[..i])
  }

  /** Moves the record of slot `i`, whose copy is `record`. */
  function MoveOne(q: Page, i: nat, record: Option<Data>): Page
    requires i < |q.slots| && |q.data| == PAGE_SIZE
    requires record.Some? ==> |record.value| <= q.upper <= PAGE_SIZE
  {
    if record == None then q
    else
      var at := q.upper - |record.value|;
      q.(upper := at, data := Splice(q.data, at, record.value), slots := q.slots[i := Slot(at, |record.value|)])
  }

  lemma MoveFits(p: Page, i: nat)
    requires Repackable(p) && i < |p.slots|
    ensures SumLen(p.slots[..i + 1]) == SumLen(p.slots[..i]) + p.slots[i].length
    ensures SumLen(p.slots[..i + 1]) <= SumLen(p.slots) <= PAGE_SIZE - p.lower
    ensures SlotInside(p.slots[i], p.upper)
  {
    assert p.slots[..i + 1][..i] == p.slots[..i];
    SumPrefix(p.slots, i + 1);
  }

  lemma MoveStart(p: Page)
    requires Repackable(p)
    ensures RepackedTo(p, p.(upper := PAGE_SIZE), 0)
  {
    assert p.slots[..0] == [];
  }

  /** Moving one record leaves the records already moved, and the bytes below the free area, alone. */
  lemma MoveKeeps(p: Page, q: Page, i: nat, j: nat)
    requires Repackable(p) && RepackedTo(p, q, i) && j < i < |p.slots| && SlotInside(p.slots[i], p.upper)
    requires var record := Cut(p.data, p.slots[i]); record.Some? ==> |record.value| <= q.upper - p.lower
    ensures Moved(p, MoveOne(q, i, Cut(p.data, p.slots[i])), j)
  {
    hide SumLen, Descending;
    var record := Cut(p.data, p.slots[i]);
    assert Moved(p, q, j);
    if record.Some? && q.slots[j] != DELETED {
      SpliceBelow(q.data, q.upper - |record.value|, record.value, q.slots[j]);
    }
  }

  lemma MoveStep(p: Page, q: Page, i: nat)
    requires Repackable(p) && RepackedTo(p, q, i) && i < |p.slots|
    ensures SlotInside(p.slots[i], p.upper)
    ensures var record := Cut(p.data, p.slots[i]);
            && (record.Some? ==> |record.value| <= q.upper <= PAGE_SIZE)
            && RepackedTo(p, MoveOne(q, i, record), i + 1)
  {
    hide SumLen;
    MoveFits(p, i);
    var record := Cut(p.data, p.slots[i]);
    var q' := MoveOne(q, i, record);
    forall j | 0 <= j < i ensures Moved(p, q', j) {
      MoveKeeps(p, q, i, j);
    }
    if record.Some? {
      var at := q'.upper;
      assert q'.data[at..at + |record.value|] == record.value;
      assert q'.data[..p.lower] == q.data[..p.lower];
    }
    assert Moved(p, q', i);
    forall j | 0 <= j < i ensures SlotInside(q.slots[..i][j], q.upper) { assert Moved(p, q, j); }
    DescendingStep(q.slots[..i], q'.slots[i], q.upper);
    assert q'.slots[..i + 1] == q.slots[..i] + [q'.slots[i]];
  }

  lemma DescendingStep(slots: seq<Slot>, s: Slot, upper: nat)
    requires Descending(slots) && forall j | 0 <= j < |slots| :: SlotInside(slots[j], upper)
    requires s == DELETED || s.offset + s.length <= upper
    ensures Descending(slots + [s])
  {}

  lemma {:induction false} SumLenSame(a: seq<Slot>, b: seq<Slot>)
    requires |a| == |b| && forall j | 0 <= j < |a| :: a[j].length == b[j].length
    ensures SumLen(a) == SumLen(b)
    decreases |a|
  {
    if a != [] { SumLenSame(a[..|a| - 1], b[..|b| - 1]); }
  }

  /** Once every record has moved, zeroing the free area completes the page. */
  lemma RepackDone(p: Page, q: Page)
    requires Repackable(p) && RepackedTo(p, q, |p.slots|)
    ensures SumLen(q.slots) == SumLen(p.slots) && (Packed(p) ==> p.upper <= q.upper)
    ensures var r := q.(data := Splice(q.data, q.lower, Zeros(q.upper - q.lower)));
            && Loaded(r) && Records(r) == Records(p) && Descending(r.slots) && (Packed(p) ==> Packed(r))
            && r.data[..p.lower] == p.data[..p.lower] && r.data[r.lower..r.upper] == Zeros(r.upper - r.lower)
  {
    hide SumLen;
    assert p.slots[..|p.slots|] == p.slots && q.slots[..|p.slots|] == q.slots;
    if Packed(p) { PackedFits(p); }
    forall j | 0 <= j < |p.slots| ensures q.slots[j].length == p.slots[j].length { assert Moved(p, q, j); }
    SumLenSame(q.slots, p.slots);
    var r := q.(data := Splice(q.data, q.lower, Zeros(q.upper - q.lower)));
    forall j | 0 <= j < |p.slots|
      ensures SlotInside(r.slots[j], r.upper) && Cut(r.data, r.slots[j]) == Cut(p.data, p.slots[j])
    {
      assert Moved(p, q, j);
      SpliceBelow(q.data, q.lower, Zeros(q.upper - q.lower), q.slots[j]);
    }
  }

  // ---------------------------------------------------------------------------------------
  // The byte image

  function SlotBytes(slots: seq<Slot>): (b: Data)
    requires forall s | s in slots :: s.offset < 0x1_0000 && s.length < 0x1_0000
    ensures |b| == |slots| * SLOT_SIZE
  {
    if slots == [] then []
    else
      var last := slots[|slots| - 1];
      SlotBytes(slots[..|slots| - 1]) + U16(last.offset) + U16(last.length)
  }

  /** The header up to the checksum field. */
  function Header(p: Page): (b: Data)
    requires p.id < 0x1_0000_0000 && p.lower < 0x1_0000 && p.upper < 0x1_0000 && |p.slots| < 0x1_0000
             && p.flags < 0x1_0000
    ensures |b| == CHECKSUM_OFFSET
  {
    MAGIC + U32(p.id) + U16(p.lower) + U16(p.upper) + U16(|p.slots|) + U16(p.flags)
  }

  lemma SlotsSmall(p: Page)
    requires Loaded(p)
    ensures forall s | s in p.slots :: s.offset < 0x1_0000 && s.length < 0x1_0000
    ensures |p.slots| < 0x1_0000
  {
    forall s | s in p.slots ensures s.offset < 0x1_0000 && s.length < 0x1_0000 {
      var i :| 0 <= i < |p.slots| && p.slots[i] == s;
      assert SlotInside(p.slots[i], p.upper);
    }
  }

  /** What `to_bytes` leaves in the buffer before it fills in the checksum. */
  ghost function Unsummed(p: Page): (b: Data)
    requires Loaded(p)
    ensures |b| == PAGE_SIZE
  {
    SlotsSmall(p);
    Header(p) + Zeros(4) + SlotBytes(p.slots) + p.data[p.lower..]
  }

  /** Directory, header and zeroed checksum, written one after the other over the old buffer. */
  lemma BufferBuilds(p: Page)
    requires Loaded(p)
    ensures (SlotsSmall(p);
             Splice(Splice(Splice(p.data, HEADER_SIZE, SlotBytes(p.slots)), 0, Header(p)), CHECKSUM_OFFSET, Zeros(4))
             == Unsummed(p))
  {
    hide SlotBytes, Header;
    SlotsSmall(p);
    var sb := SlotBytes(p.slots);
    var a := Splice(p.data, HEADER_SIZE, sb);
    var b := Splice(a, 0, Header(p));
    assert b == Header(p) + a[CHECKSUM_OFFSET..];
    assert b[HEADER_SIZE..] == a[HEADER_SIZE..] == sb + p.data[p.lower..];
  }

  /** `to_bytes`: the checksum covers the whole page with its own field zeroed. */
  ghost function Image(p: Page, crc: Checksum): (b: Data)
    requires Loaded(p)
    ensures |b| == PAGE_SIZE
  {
    Splice(Unsummed(p), CHECKSUM_OFFSET, U32(crc(Unsummed(p)) % 0x1_0000_0000))
  }

  datatype Fault = BadSize | BadMagic | BadChecksum | BadLower | BadUpper | BadSlot

  function ReadSlot(raw: Data, i: nat): Slot
    requires HEADER_SIZE + (i + 1) * SLOT_SIZE <= |raw|
  {
    var at := HEADER_SIZE + i * SLOT_SIZE;
    Slot(Get16(raw[at..at + 2]), Get16(raw[at + 2..at + 4]))
  }

  /** The header fields of a page-sized buffer. */
  function ReadHeader(raw: Data): (p: Page)
    requires |raw| == PAGE_SIZE
  {
    Page(Get32(raw[4..8]), Get16(raw[14..16]), Get16(raw[8..10]), Get16(raw[10..12]), [], raw)
  }

  function SlotCount(raw: Data): nat
    requires |raw| == PAGE_SIZE
  {
    Get16(raw[12..14])
  }

  predicate GoodSlot(s: Slot, upper: nat) {
    if s.offset == 0 then s.length == 0 else s.offset >= upper && s.offset + s.length <= PAGE_SIZE
  }

  /** The first check of `from_bytes` that a buffer fails, in the order they are made. */
  function FirstFault(raw: Data, crc: Checksum): Option<Fault> {
    if |raw| != PAGE_SIZE then Some(BadSize)
    else
      var h, n := ReadHeader(raw), SlotCount(raw);
      if raw[..4] != MAGIC then Some(BadMagic)
      else if crc(Splice(raw, CHECKSUM_OFFSET, Zeros(4))) % 0x1_0000_0000 != Get32(raw[16..20]) then Some(BadChecksum)
      else if h.lower != HEADER_SIZE + n * SLOT_SIZE || h.lower > PAGE_SIZE then Some(BadLower)
      else if !(h.lower <= h.upper <= PAGE_SIZE) then Some(BadUpper)
      else if exists i :: 0 <= i < n && !GoodSlot(ReadSlot(raw, i), h.upper) then Some(BadSlot)
      else None
  }

  /** What `from_bytes` makes of an accepted buffer. */
  function Parsed(raw: Data, crc: Checksum): Page
    requires FirstFault(raw, crc) == None
  {
    ReadHeader(raw).(slots := seq(SlotCount(raw), i requires 0 <= i < SlotCount(raw) => ReadSlot(raw, i)))
  }

  lemma ParsedLoaded(raw: Data, crc: Checksum)
    requires FirstFault(raw, crc) == None
    ensures Loaded(Parsed(raw, crc))
  {
    var p := Parsed(raw, crc);
    forall i | 0 <= i < |p.slots| ensures SlotInside(p.slots[i], p.upper) {
      assert GoodSlot(ReadSlot(raw, i), p.upper);
    }
  }

  // ---------------------------------------------------------------------------------------
  // Round trips

  /** Each slot is written where it is read. */
  lemma {:induction false} SlotBytesAt(slots: seq<Slot>, i: nat)
    requires forall s | s in slots :: s.offset < 0x1_0000 && s.length < 0x1_0000
    requires i < |slots|
    ensures SlotBytes(slots)[i * SLOT_SIZE..i * SLOT_SIZE + 2] == U16(slots[i].offset)
    ensures SlotBytes(slots)[i * SLOT_SIZE + 2..(i + 1) * SLOT_SIZE] == U16(slots[i].length)
    decreases |slots|
  {
    var n := |slots| - 1;
    var front := SlotBytes(slots[..n]);
    if i < n {
      SlotBytesAt(slots[..n], i);
      assert SlotBytes(slots)[i * SLOT_SIZE..i * SLOT_SIZE + 2] == front[i * SLOT_SIZE..i * SLOT_SIZE + 2];
      assert SlotBytes(slots)[i * SLOT_SIZE + 2..(i + 1) * SLOT_SIZE] == front[i * SLOT_SIZE + 2..(i + 1) * SLOT_SIZE];
    }
  }

  lemma ReadSlotBack(p: Page, raw: Data, i: nat)
    requires Loaded(p) && |raw| == PAGE_SIZE && i < |p.slots|
    requires forall s | s in p.slots :: s.offset < 0x1_0000 && s.length < 0x1_0000
    requires raw[HEADER_SIZE..p.lower] == SlotBytes(p.slots)
    ensures ReadSlot(raw, i) == p.slots[i]
  {
    SlotBytesAt(p.slots, i);
    hide SlotBytes;
    SliceOfSlice(raw, HEADER_SIZE, p.lower, i * SLOT_SIZE, i * SLOT_SIZE + 2);
    SliceOfSlice(raw, HEADER_SIZE, p.lower, i * SLOT_SIZE + 2, (i + 1) * SLOT_SIZE);
    Get16U16(p.slots[i].offset);
    Get16U16(p.slots[i].length);
  }

  /** The parts of an image, where `from_bytes` looks for them. */
  lemma ImageParts(p: Page, crc: Checksum)
    requires Loaded(p)
    ensures var raw := Image(p, crc);
            && (SlotsSmall(p); raw[..16] == Header(p) && raw[20..p.lower] == SlotBytes(p.slots))
            && raw[16..20] == U32(crc(Unsummed(p)) % 0x1_0000_0000)
            && raw[p.lower..] == p.data[p.lower..]
            && Splice(raw, CHECKSUM_OFFSET, Zeros(4)) == Unsummed(p)
  {
    SlotsSmall(p);
    UnsummedParts(p);
    hide Unsummed, Header, SlotBytes, Splice;
    SplicedFour(Unsummed(p), U32(crc(Unsummed(p)) % 0x1_0000_0000), p.lower);
  }

  lemma UnsummedParts(p: Page)
    requires Loaded(p)
    ensures var u := Unsummed(p);
            && (SlotsSmall(p); u[..16] == Header(p) && u[20..p.lower] == SlotBytes(p.slots))
            && u[16..20] == Zeros(4) && u[p.lower..] == p.data[p.lower..]
  {
    SlotsSmall(p);
    hide Header, SlotBytes;
    FourParts(Header(p), Zeros(4), SlotBytes(p.slots), p.data[p.lower..]);
  }

  lemma FourParts(a: Data, b: Data, c: Data, d: Data)
    ensures var s := a + b + c + d;
            && s[..|a|] == a && s[|a|..|a| + |b|] == b && s[|a| + |b|..|a| + |b| + |c|] == c
            && s[|a| + |b| + |c|..] == d
  {}

  /** Four bytes written over the checksum field, where they go and what stays. */
  lemma SplicedFour(u: Data, b: Data, x: nat)
    requires |u| == PAGE_SIZE && |b| == 4 && 20 <= x <= PAGE_SIZE && u[16..20] == Zeros(4)
    ensures var r := Splice(u, CHECKSUM_OFFSET, b);
            && r[..16] == u[..16] && r[16..20] == b && r[20..x] == u[20..x] && r[x..] == u[x..]
            && Splice(r, CHECKSUM_OFFSET, Zeros(4)) == u
  {
    var r := Splice(u, CHECKSUM_OFFSET, b);
    var q := Splice(r, CHECKSUM_OFFSET, Zeros(4));
    forall i | 0 <= i < |u| ensures q[i] == u[i] {
      if 16 <= i < 20 { assert u[i] == u[16..20][i - 16]; }
    }
  }

  lemma HeaderParts(p: Page)
    requires p.id < 0x1_0000_0000 && p.lower < 0x1_0000 && p.upper < 0x1_0000 && |p.slots| < 0x1_0000
             && p.flags < 0x1_0000
    ensures var h := Header(p);
            && h[..4] == MAGIC && h[4..8] == U32(p.id) && h[8..10] == U16(p.lower) && h[10..12] == U16(p.upper)
            && h[12..14] == U16(|p.slots|) && h[14..16] == U16(p.flags)
  {}

  /** Reading back a written page restores id, flags, offsets, slots and the whole record area. */
  lemma ImageReadsBack(p: Page, crc: Checksum)
    requires Loaded(p)
    ensures FirstFault(Image(p, crc), crc) == None
    ensures Parsed(Image(p, crc), crc) == p.(data := Image(p, crc))
    ensures Records(Parsed(Image(p, crc), crc)) == Records(p)
  {
    hide Unsummed, SlotBytes, Header;
    var raw := Image(p, crc);
    ImageParts(p, crc);
    ImageHeaderReads(p, crc);
    SlotsSmall(p);
    hide Image;
    forall i | 0 <= i < |p.slots| ensures ReadSlot(raw, i) == p.slots[i] && GoodSlot(p.slots[i], p.upper) {
      ReadSlotBack(p, raw, i);
      assert SlotInside(p.slots[i], p.upper);
    }
    var p' := Parsed(raw, crc);
    assert p'.slots == p.slots;
    ParsedLoaded(raw, crc);
    forall i | 0 <= i < |p.slots| ensures Cut(p'.data, p'.slots[i]) == Cut(p.data, p.slots[i]) {
      assert SlotInside(p.slots[i], p.upper);
      CutAbove(p'.data, p.data, p.lower, p.slots[i]);
    }
  }

  /** Every header field of an image reads back. */
  lemma ImageHeaderReads(p: Page, crc: Checksum)
    requires Loaded(p)
    ensures var raw := Image(p, crc); var h := ReadHeader(raw);
            && raw[..4] == MAGIC && SlotCount(raw) == |p.slots|
            && h.id == p.id && h.flags == p.flags && h.lower == p.lower && h.upper == p.upper
            && Get32(raw[16..20]) == crc(Unsummed(p)) % 0x1_0000_0000
  {
    SlotsSmall(p);
    hide Unsummed, SlotBytes, Image, Loaded, Header, Get32, U32;
    ImageParts(p, crc);
    HeaderReads(p, Image(p, crc));
    Get32U32(crc(Unsummed(p)) % 0x1_0000_0000);
  }

  /** Every field of a header reads back. */
  lemma HeaderReads(p: Page, raw: Data)
    requires p.id < 0x1_0000_0000 && p.lower < 0x1_0000 && p.upper < 0x1_0000 && |p.slots| < 0x1_0000
             && p.flags < 0x1_0000
    requires |raw| == PAGE_SIZE && raw[..16] == Header(p)
    ensures var h := ReadHeader(raw);
            && raw[..4] == MAGIC && SlotCount(raw) == |p.slots|
            && h.id == p.id && h.flags == p.flags && h.lower == p.lower && h.upper == p.upper
  {
    hide Header, U16, U32, Get16, Get32;
    HeaderParts(p);
    HeaderSlices(raw);
    Get32U32(p.id);
    Get16U16(p.lower);
    Get16U16(p.upper);
    Get16U16(|p.slots|);
    Get16U16(p.flags);
  }

  lemma HeaderSlices(raw: Data)
    requires |raw| >= 16
    ensures var h := raw[..16];
            && raw[..4] == h[..4] && raw[4..8] == h[4..8] && raw[8..10] == h[8..10] && raw[10..12] == h[10..12]
            && raw[12..14] == h[12..14] && raw[14..16] == h[14..16]
  {}

  lemma CutAbove(a: Data, b: Data, lower: nat, s: Slot)
    requires |a| == |b| == PAGE_SIZE && lower <= PAGE_SIZE && a[lower..] == b[lower..]
    requires s == DELETED || (lower <= s.offset && s.offset + s.length <= PAGE_SIZE)
    ensures Cut(a, s) == Cut(b, s)
  {
    if s != DELETED {
      assert a[s.offset..s.offset + s.length] == a[lower..][s.offset - lower..s.offset + s.length - lower];
      assert b[s.offset..s.offset + s.length] == b[lower..][s.offset - lower..s.offset + s.length - lower];
    }
  }

  /** Slots read from a buffer serialise to the bytes they were read from. */
  lemma {:induction false} SlotBytesBack(raw: Data, slots: seq<Slot>)
    requires HEADER_SIZE + |slots| * SLOT_SIZE <= |raw|
    requires forall i | 0 <= i < |slots| :: slots[i] == ReadSlot(raw, i)
    requires forall s | s in slots :: s.offset < 0x1_0000 && s.length < 0x1_0000
    ensures SlotBytes(slots) == raw[HEADER_SIZE..HEADER_SIZE + |slots| * SLOT_SIZE]
    decreases |slots|
  {
    hide U16, Get16;
    if slots != [] {
      var n := |slots| - 1;
      SlotBytesBack(raw, slots[..n]);
      LastSlotBytes(slots);
      SlotBack(raw, slots[n], n);
    }
  }

  lemma SlotBack(raw: Data, s: Slot, n: nat)
    requires HEADER_SIZE + (n + 1) * SLOT_SIZE <= |raw| && s == ReadSlot(raw, n)
    requires s.offset < 0x1_0000 && s.length < 0x1_0000
    ensures raw[HEADER_SIZE..HEADER_SIZE + n * SLOT_SIZE] + U16(s.offset) + U16(s.length)
         == raw[HEADER_SIZE..HEADER_SIZE + (n + 1) * SLOT_SIZE]
  {
    hide U16, Get16;
    BytesBack(raw, HEADER_SIZE + n * SLOT_SIZE);
  }

  lemma LastSlotBytes(slots: seq<Slot>)
    requires slots != [] && forall s | s in slots :: s.offset < 0x1_0000 && s.length < 0x1_0000
    ensures var n := |slots| - 1;
            && (forall s | s in slots[..n] :: s.offset < 0x1_0000 && s.length < 0x1_0000)
            && SlotBytes(slots) == SlotBytes(slots[..n]) + U16(slots[n].offset) + U16(slots[n].length)
  {
    hide U16;
  }

  lemma BytesBack(raw: Data, at: nat)
    requires HEADER_SIZE <= at && at + SLOT_SIZE <= |raw|
    ensures raw[HEADER_SIZE..at + SLOT_SIZE]
         == raw[HEADER_SIZE..at] + U16(Get16(raw[at..at + 2])) + U16(Get16(raw[at + 2..at + 4]))
  {
    hide U16, Get16;
    U16Get16(raw[at..at + 2]);
    U16Get16(raw[at + 2..at + 4]);
    ThreeSlices(raw, HEADER_SIZE, at, at + 2, at + 4);
  }

  lemma ThreeSlices(b: Data, w: nat, x: nat, y: nat, z: nat)
    requires w <= x <= y <= z <= |b|
    ensures b[w..z] == b[w..x] + b[x..y] + b[y..z]
  {}

  lemma HeaderBack(raw: Data, crc: Checksum)
    requires FirstFault(raw, crc) == None
    ensures var p := Parsed(raw, crc);
            p.lower < 0x1_0000 && p.upper < 0x1_0000 && |p.slots| < 0x1_0000 && Header(p) == raw[..16]
  {
    U32Get32(raw[4..8]);
    U16Get16(raw[8..10]);
    U16Get16(raw[10..12]);
    U16Get16(raw[12..14]);
    U16Get16(raw[14..16]);
    assert raw[..16] == raw[..4] + raw[4..8] + raw[8..10] + raw[10..12] + raw[12..14] + raw[14..16];
  }

  /** Writing back an accepted page reproduces it byte for byte, however it was produced. */
  lemma ImageOfParsed(raw: Data, crc: Checksum)
    requires FirstFault(raw, crc) == None
    ensures Loaded(Parsed(raw, crc)) && Image(Parsed(raw, crc), crc) == raw
  {
    var p := Parsed(raw, crc);
    ParsedLoaded(raw, crc);
    SlotsSmall(p);
    HeaderBack(raw, crc);
    SlotBytesBack(raw, p.slots);
    var z := Splice(raw, CHECKSUM_OFFSET, Zeros(4));
    assert raw[..16] + Zeros(4) + raw[20..p.lower] + raw[p.lower..] == z;
    U32Get32(raw[16..20]);
    assert Splice(z, CHECKSUM_OFFSET, raw[16..20]) == raw;
  }

  /** A buffer is accepted exactly if it is the image of some page. */
  lemma AcceptedIsImage(raw: Data, crc: Checksum)
    ensures FirstFault(raw, crc) == None <==> exists p :: Loaded(p) && raw == Image(p, crc)
  {
    hide FirstFault, Parsed, Image, Loaded;
    if FirstFault(raw, crc) == None {
      ImageOfParsed(raw, crc);
    }
    if p :| Loaded(p) && raw == Image(p, crc) {
      ImageReadsBack(p, crc);
    }
  }

  /**
   What stands where in an image: `CDBP`, page id, the two offsets, slot count, flags, the checksum of the whole page
   with these four bytes zero, the slots, and the records where the page has them.
   */
  lemma ImageLayout(p: Page, crc: Checksum)
    requires Loaded(p)
    ensures var raw := Image(p, crc);
            && |raw| == 4096 && raw[..4] == [67, 68, 66, 80] && Number(raw[4..8]) == p.id
            && Number(raw[8..10]) == p.lower == 20 + 4 * |p.slots| && Number(raw[10..12]) == p.upper
            && Number(raw[12..14]) == |p.slots| && Number(raw[14..16]) == p.flags
            && Number(raw[16..20]) == crc(raw[..16] + [0, 0, 0, 0] + raw[20..]) % 0x1_0000_0000
            && (forall i | 0 <= i < |p.slots| ::
                  && Number(raw[20 + 4 * i..22 + 4 * i]) == p.slots[i].offset
                  && Number(raw[22 + 4 * i..24 + 4 * i]) == p.slots[i].length)
            && raw[p.lower..] == p.data[p.lower..]
  {
    hide Unsummed, SlotBytes, Header, U16, U32, Number;
    SlotsSmall(p);
    ImageParts(p, crc);
    hide Image, Loaded;
    var raw := Image(p, crc);
    HeaderParts(p);
    HeaderSlices(raw);
    BigEndian(p.id);
    BigEndian(p.lower);
    BigEndian(p.upper);
    BigEndian(|p.slots|);
    BigEndian(p.flags);
    BigEndian(crc(Unsummed(p)) % 0x1_0000_0000);
    assert Splice(raw, CHECKSUM_OFFSET, Zeros(4)) == raw[..16] + [0, 0, 0, 0] + raw[20..];
    forall i | 0 <= i < |p.slots|
      ensures Number(raw[20 + 4 * i..22 + 4 * i]) == p.slots[i].offset
      ensures Number(raw[22 + 4 * i..24 + 4 * i]) == p.slots[i].length
    {
      SlotLayout(p.slots, raw, p.lower, i);
    }
  }

  /** What of a buffer makes which check fail, and in which order they are made. */
  lemma FaultMeaning(raw: Data, crc: Checksum)
    ensures FirstFault(raw, crc) == Some(BadSize) <==> |raw| != 4096
    ensures |raw| == 4096 ==>
              var fault, lower, upper := FirstFault(raw, crc), Number(raw[8..10]), Number(raw[10..12]);
              var n := Number(raw[12..14]);
              var magic := raw[..4] == [67, 68, 66, 80];
              var sum := Number(raw[16..20]) == crc(raw[..16] + [0, 0, 0, 0] + raw[20..]) % 0x1_0000_0000;
              && (fault == Some(BadMagic) <==> !magic)
              && (fault == Some(BadChecksum) <==> magic && !sum)
              && (fault == Some(BadLower) <==> magic && sum && !(lower == 20 + 4 * n <= 4096))
              && (fault == Some(BadUpper) <==> magic && sum && lower == 20 + 4 * n <= 4096 && !(lower <= upper <= 4096))
              && (fault in {Some(BadSlot), None} <==> magic && sum && lower == 20 + 4 * n <= upper <= 4096)
  {
    hide Number, Get16, Get32, ReadSlot, GoodSlot;
    if |raw| == 4096 {
      NumberOfRead(raw[8..10]);
      NumberOfRead(raw[10..12]);
      NumberOfRead(raw[12..14]);
      U32Get32(raw[16..20]);
      BigEndian(Get32(raw[16..20]));
      assert Splice(raw, CHECKSUM_OFFSET, Zeros(4)) == raw[..16] + [0, 0, 0, 0] + raw[20..];
    }
  }

  lemma NumberOfRead(b: Data)
    requires |b| == 2
    ensures Get16(b) == Number(b)
  {
    hide Number, Get16;
    U16Get16(b);
    BigEndian(Get16(b));
  }

  /** A slot is bad if it is half deleted or reaches out of the record area. */
  ghost predicate SlotBad(raw: Data, i: nat)
    requires |raw| == 4096 && 24 + 4 * i <= 4096
  {
    var offset, length := Number(raw[20 + 4 * i..22 + 4 * i]), Number(raw[22 + 4 * i..24 + 4 * i]);
    if offset == 0 then length != 0 else offset < Number(raw[10..12]) || offset + length > 4096
  }

  lemma SlotFault(raw: Data, crc: Checksum)
    requires FirstFault(raw, crc) in {Some(BadSlot), None}
    ensures |raw| == 4096 && 20 + 4 * Number(raw[12..14]) <= 4096
    ensures FirstFault(raw, crc) == Some(BadSlot) <==> exists i :: 0 <= i < Number(raw[12..14]) && SlotBad(raw, i)
  {
    hide Number, Get16, Get32, ReadSlot, SlotBad, GoodSlot;
    FaultMeaning(raw, crc);
    NumberOfRead(raw[10..12]);
    NumberOfRead(raw[12..14]);
    forall i | 0 <= i < SlotCount(raw) ensures SlotBad(raw, i) <==> !GoodSlot(ReadSlot(raw, i), Get16(raw[10..12])) {
      SlotBadMeans(raw, i);
    }
  }

  lemma SlotBadMeans(raw: Data, i: nat)
    requires |raw| == 4096 && 24 + 4 * i <= 4096
    ensures HEADER_SIZE + (i + 1) * SLOT_SIZE <= |raw|
    ensures SlotBad(raw, i) <==> !GoodSlot(ReadSlot(raw, i), Get16(raw[10..12]))
  {
    hide Number, Get16;
    assert (i + 1) * SLOT_SIZE == 4 * i + 4 && i * SLOT_SIZE == 4 * i;
    NumberOfRead(raw[10..12]);
    NumberOfRead(raw[20 + 4 * i..22 + 4 * i]);
    NumberOfRead(raw[22 + 4 * i..24 + 4 * i]);
  }

  lemma SlotLayout(slots: seq<Slot>, raw: Data, lower: nat, i: nat)
    requires forall s | s in slots :: s.offset < 0x1_0000 && s.length < 0x1_0000
    requires i < |slots| && lower == HEADER_SIZE + |slots| * SLOT_SIZE <= |raw| && raw[20..lower] == SlotBytes(slots)
    ensures Number(raw[20 + 4 * i..22 + 4 * i]) == slots[i].offset
    ensures Number(raw[22 + 4 * i..24 + 4 * i]) == slots[i].length
  {
    hide SlotBytes, Number, U16;
    SlotPlaced(slots, raw, lower, i);
    BigEndian(slots[i].offset);
    BigEndian(slots[i].length);
  }

  lemma SlotPlaced(slots: seq<Slot>, raw: Data, lower: nat, i: nat)
    requires forall s | s in slots :: s.offset < 0x1_0000 && s.length < 0x1_0000
    requires i < |slots| && lower == HEADER_SIZE + |slots| * SLOT_SIZE <= |raw| && raw[20..lower] == SlotBytes(slots)
    ensures raw[20 + 4 * i..22 + 4 * i] == U16(slots[i].offset)
    ensures raw[22 + 4 * i..24 + 4 * i] == U16(slots[i].length)
  {
    hide SlotBytes, U16;
    var b := SlotBytes(slots);
    SlotBytesHere(slots, b, i);
    CutFrom(raw, 20, lower, b, 4 * i, 4 * i + 2);
    CutFrom(raw, 20, lower, b, 4 * i + 2, 4 * i + 4);
  }

  lemma SlotBytesHere(slots: seq<Slot>, b: Data, i: nat)
    requires forall s | s in slots :: s.offset < 0x1_0000 && s.length < 0x1_0000
    requires i < |slots| && b == SlotBytes(slots)
    ensures |b| == 4 * |slots| && b[4 * i..4 * i + 2] == U16(slots[i].offset)
    ensures b[4 * i + 2..4 * i + 4] == U16(slots[i].length)
  {
    hide SlotBytes, U16;
    assert i * SLOT_SIZE == 4 * i && (i + 1) * SLOT_SIZE == 4 * i + 4 && |slots| * SLOT_SIZE == 4 * |slots|;
    SlotBytesAt(slots, i);
  }

  lemma CutFrom(raw: Data, lo: nat, hi: nat, b: Data, x: nat, y: nat)
    requires lo <= hi <= |raw| && raw[lo..hi] == b && x <= y <= |b|
    ensures raw[lo + x..lo + y] == b[x..y]
  {
    SliceOfSlice(raw, lo, hi, x, y);
  }
}
