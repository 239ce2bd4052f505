/** The slotted page as the object it is: a byte buffer, a slot directory and two offsets. */
module PagerModel {
  import opened Wrappers
  import opened Bytes
  import opened PageFormat

  datatype PageError =
    | NegativeLength
    | EmptyPayload
    | PageOverflow
    | InvalidSlot
    | AlreadyDeleted
    | Corrupt(fault: Fault)

  class Pager {
    const pageId: nat
    var flags: nat
    var lower: nat
    var upper: nat
    var slots: seq<Slot>
    const data: array<Byte>

    ghost function View(): Page
      reads this, data
    {
      Page(pageId, flags, lower, upper, slots, data[..])
    }

    /** A page as `from_bytes` accepts it. */
    ghost predicate Valid()
      reads this, data
    {
      Loaded(View())
    }

    constructor (pageId: nat, flags: nat)
      requires pageId < 0x1_0000_0000 && flags < 0x1_0000
      ensures Packed(View()) && fresh(data)
      ensures View() == Page(pageId, flags, HEADER_SIZE, PAGE_SIZE, [], Zeros(PAGE_SIZE))
    {
      this.pageId, this.flags := pageId, flags;
      lower, upper, slots := HEADER_SIZE, PAGE_SIZE, [];
      data := new Byte[PAGE_SIZE](i => 0);
    }

    constructor FromParts(raw: Data, page: Page)
      requires |raw| == PAGE_SIZE
      ensures View() == page.(data := raw) && fresh(data)
    {
      pageId, flags, lower, upper, slots := page.id, page.flags, page.lower, page.upper, page.slots;
      data := new Byte[PAGE_SIZE](i requires 0 <= i < PAGE_SIZE => raw[i]);
      new;
      assert data[..] == raw;
    }

    function FreeSpace(): int
      reads this
    {
      upper - lower
    }

    /** Whether a record of this size and its slot fit; a negative size is a caller error. */
    function HasSpaceFor(payloadLength: int): (r: Result<bool, PageError>)
      reads this
      ensures r.Err? <==> payloadLength < 0
    {
      if payloadLength < 0 then Err(NegativeLength) else Ok(FreeSpace() >= SLOT_SIZE + payloadLength)
    }

    /**
     There is space exactly if the page, with the record put in, is still one that `from_bytes`
     accepts, with one record more.
     */
    lemma SpaceIsFit(payload: Data)
      requires Valid()
      ensures HasSpaceFor(|payload|) == Ok(true) <==> |payload| <= upper && Loaded(Inserted(View(), payload))
      ensures HasSpaceFor(|payload|) == Ok(true) ==>
                Records(Inserted(View(), payload)) == Records(View()) + [Some(payload)]
    {
      hide Splice, Records, Descending, SlotInside;
      if HasSpaceFor(|payload|) == Ok(true) {
        InsertKeeps(View(), payload);
      }
    }

    method InsertRecord(payload: Data) returns (r: Result<nat, PageError>)
      requires Valid()
      modifies this, data
      ensures Valid() && (old(Packed(View())) ==> Packed(View()))
      ensures r == if payload == [] then Err(EmptyPayload)
                   else if old(FreeSpace()) < SLOT_SIZE + |payload| then Err(PageOverflow)
                   else Ok(|old(slots)|)
      ensures r.Err? ==> View() == old(View())
      ensures r.Ok? ==> View() == Inserted(old(View()), payload)
      ensures r.Ok? ==> Records(View()) == old(Records(View())) + [Some(payload)]
      ensures r.Ok? ==> FreeSpace() == old(FreeSpace()) - SLOT_SIZE - |payload|
    {
      hide Packed, Records, Loaded, Splice, Descending;
      if payload == [] {
        return Err(EmptyPayload);
      }
      if HasSpaceFor(|payload|) != Ok(true) {
        return Err(PageOverflow);
      }
      PageSizes(View());
      InsertKeeps(View(), payload);
      upper := upper - |payload|;
      Blit(data, upper, payload);
      var slotId := |slots|;
      slots := slots + [Slot(upper, |payload|)];
      lower := lower + SLOT_SIZE;
      return Ok(slotId);
    }

    method GetRecord(slotId: int) returns (r: Result<Option<Data>, PageError>)
      requires Valid()
      ensures r == if 0 <= slotId < |slots| then Ok(Records(View())[slotId]) else Err(InvalidSlot)
      ensures 0 <= slotId < |slots| ==> var s := slots[slotId];
              && s.offset + s.length <= data.Length
              && r == Ok(if s == Slot(0, 0) then None else Some(data[s.offset..s.offset + s.length]))
    {
      if slotId < 0 || slotId >= |slots| {
        return Err(InvalidSlot);
      }
      var slot := slots[slotId];
      assert SlotInside(slot, upper);
      if slot.offset == 0 && slot.length == 0 {
        return Ok(None);
      }
      return Ok(Some(data[slot.offset..slot.offset + slot.length]));
    }

    /** A deleted record's bytes are zeroed; a record that shares none of them stays what it was. */
    method DeleteRecord(slotId: int) returns (r: Result<(), PageError>)
      requires Valid()
      modifies this, data
      ensures Valid() && (old(Packed(View())) ==> Packed(View()))
      ensures r == if !(0 <= slotId < |old(slots)|) then Err(InvalidSlot)
                   else if old(slots)[slotId] == DELETED then Err(AlreadyDeleted) else Ok(())
      ensures r.Err? ==> View() == old(View())
      ensures r.Ok? ==> && old(slots)[slotId].offset + old(slots)[slotId].length <= PAGE_SIZE
                        && View() == Deleted(old(View()), slotId) && FreeSpace() == old(FreeSpace())
      ensures r.Ok? ==> && Records(View())[slotId] == None
                        && forall i | 0 <= i < |slots| && i != slotId && Apart(old(slots)[i], old(slots)[slotId]) ::
                             Records(View())[i] == old(Records(View()))[i]
      ensures r.Ok? && old(Packed(View())) ==> Records(View()) == old(Records(View()))[slotId := None]
      ensures r.Ok? ==> var s := old(slots)[slotId];
                        && slots == old(slots)[slotId := Slot(0, 0)]
                        && data[s.offset..s.offset + s.length] == Zeros(s.length)
    {
      if slotId < 0 || slotId >= |slots| {
        return Err(InvalidSlot);
      }
      var slot := slots[slotId];
      if slot.offset == 0 && slot.length == 0 {
        return Err(AlreadyDeleted);
      }
      DeleteKeeps(View(), slotId);
      if Packed(View()) { DeletePacked(View(), slotId); }
      hide Packed, Records, Loaded;
      Blit(data, slot.offset, Zeros(slot.length));
      slots := slots[slotId := DELETED];
      return Ok(());
    }

    /** First half of `compact`: a copy of every live record. */
    method CopyRecords() returns (active: seq<Option<Data>>)
      requires Valid()
      ensures active == Records(View())
    {
      active := [];
      for i := 0 to |slots|
        invariant active == Records(View())[..i]
      {
        assert SlotInside(slots[i], upper);
        var slot := slots[i];
        if slot.offset == 0 && slot.length == 0 {
          active := active + [None];
        } else {
          active := active + [Some(data[slot.offset..slot.offset + slot.length])];
        }
      }
    }

    /**
     Repacks the live records at the top of the page, keeping every slot id and its record, even
     where records overlapped.
     */
    method Compact()
      requires Repackable(View())
      modifies this, data
      ensures Valid() && Descending(slots) && (old(Packed(View())) ==> Packed(View()))
      ensures Records(View()) == old(Records(View()))
      ensures lower == old(lower) && flags == old(flags)
      ensures upper == PAGE_SIZE - SumLen(slots) && SumLen(slots) == SumLen(old(slots))
      ensures FreeSpace() == PAGE_SIZE - HEADER_SIZE - |slots| * SLOT_SIZE - SumLen(slots)
      ensures old(Packed(View())) ==> FreeSpace() >= old(FreeSpace())
      ensures data[..lower] == old(data[..lower])
      ensures data[lower..upper] == Zeros(upper - lower)
    {
      hide SumLen, Records, RepackedTo, Packed, Loaded, Descending, Repackable;
      ghost var p := View();
      MoveStart(p);
      SumIs(p);
      var active := CopyRecords();
      upper := PAGE_SIZE;
      MoveRecords(active, p);
      RepackDone(p, View());
      Blit(data, lower, Zeros(upper - lower));
    }

    static lemma SumIs(p: Page)
      requires Repackable(p)
      ensures Loaded(p) && p.lower == HEADER_SIZE + |p.slots| * SLOT_SIZE && p.upper <= PAGE_SIZE
      ensures forall q :: RepackedTo(p, q, |p.slots|) ==>
                q.flags == p.flags && q.upper == PAGE_SIZE - SumLen(p.slots) && p.lower == q.lower <= q.upper
    {
      assert p.slots[..|p.slots|] == p.slots;
    }

    /** Second half of `compact`: each copy goes back below the previous one. */
    method MoveRecords(active: seq<Option<Data>>, ghost p: Page)
      requires Repackable(p) && Loaded(p) && active == Records(p)
      requires |slots| == |p.slots| && data.Length == PAGE_SIZE && RepackedTo(p, View(), 0)
      modifies this, data
      ensures RepackedTo(p, View(), |p.slots|)
    {
      hide SumLen, RepackedTo, Repackable, Descending;
      for i := 0 to |active|
        invariant |slots| == |active|
        invariant RepackedTo(p, View(), i)
      {
        MoveStep(p, View(), i);
        if active[i].Some? {
          var record := active[i].value;
          upper := upper - |record|;
          Blit(data, upper, record);
          slots := slots[i := Slot(upper, |record|)];
        }
      }
    }

    /** `to_bytes`: slot directory, header and checksum are written into the buffer itself. */
    method ToBytes(crc: Checksum) returns (raw: Data)
      requires Valid()
      modifies data
      ensures raw == data[..] == Image(old(View()), crc)
      ensures Valid() && Records(View()) == old(Records(View()))
      ensures old(Packed(View())) ==> Packed(View())
    {
      hide Unsummed, SlotBytes, Header, Packed, Descending, Records, Splice, Loaded;
      ghost var p := View();
      SlotsSmall(p);
      BufferBuilds(p);
      PageSizes(p);
      var slotBytes := PackSlots();
      Blit(data, HEADER_SIZE, slotBytes);
      var header := PackHeader();
      Blit(data, 0, header);
      Blit(data, CHECKSUM_OFFSET, Zeros(4));
      var checksum := crc(data[..]) % 0x1_0000_0000;
      Blit(data, CHECKSUM_OFFSET, U32(checksum));
      raw := data[..];
      SerialisedSame(p, View(), crc);
    }

    static lemma PageSizes(p: Page)
      requires Loaded(p)
      ensures |p.data| == PAGE_SIZE && HEADER_SIZE + |p.slots| * SLOT_SIZE == p.lower <= p.upper <= PAGE_SIZE
      ensures p.id < 0x1_0000_0000 && p.flags < 0x1_0000
    {}

    /** A page whose buffer has become its image is the same page. */
    static lemma SerialisedSame(p: Page, q: Page, crc: Checksum)
      requires Loaded(p) && q == p.(data := Image(p, crc))
      ensures Loaded(q) && Records(q) == Records(p) && (Packed(p) ==> Packed(q))
    {
      ImageReadsBack(p, crc);
    }

    /** The header fields in order, checksum not included. */
    method PackHeader() returns (b: Data)
      requires pageId < 0x1_0000_0000 && lower < 0x1_0000 && upper < 0x1_0000 && |slots| < 0x1_0000 && flags < 0x1_0000
      ensures forall d :: b == Header(Page(pageId, flags, lower, upper, slots, d))
    {
      b := MAGIC + U32(pageId) + U16(lower) + U16(upper) + U16(|slots|) + U16(flags);
    }

    method PackSlots() returns (b: Data)
      requires Valid()
      requires forall s | s in slots :: s.offset < 0x1_0000 && s.length < 0x1_0000
      ensures b == SlotBytes(slots)
    {
      b := [];
      for i := 0 to |slots|
        invariant b == SlotBytes(slots[..i])
      {
        assert slots[..i + 1][..i] == slots[..i];
        b := b + U16(slots[i].offset) + U16(slots[i].length);
      }
      assert slots[..|slots|] == slots;
    }

    /** `from_bytes`: all checks in order, slots one by one; an accepted buffer becomes a page. */
    static method FromBytes(raw: Data, crc: Checksum) returns (r: Result<Pager, Fault>)
      ensures r.Err? ==> FirstFault(raw, crc) == Some(r.error)
      ensures r.Ok? ==> FirstFault(raw, crc) == None && fresh(r.value) && fresh(r.value.data)
      ensures r.Ok? ==> r.value.Valid() && r.value.View() == Parsed(raw, crc)
    {
      if |raw| != PAGE_SIZE {
        return Err(BadSize);
      }
      var h, n := ReadHeader(raw), SlotCount(raw);
      if raw[..4] != MAGIC {
        return Err(BadMagic);
      }
      if crc(Splice(raw, CHECKSUM_OFFSET, Zeros(4))) % 0x1_0000_0000 != Get32(raw[16..20]) {
        return Err(BadChecksum);
      }
      if h.lower != HEADER_SIZE + n * SLOT_SIZE || h.lower > PAGE_SIZE {
        return Err(BadLower);
      }
      if !(h.lower <= h.upper <= PAGE_SIZE) {
        return Err(BadUpper);
      }
      var slots := [];
      for i := 0 to n
        invariant |slots| == i
        invariant forall j | 0 <= j < i :: slots[j] == ReadSlot(raw, j) && GoodSlot(ReadSlot(raw, j), h.upper)
      {
        var slot := ReadSlot(raw, i);
        if !GoodSlot(slot, h.upper) {
          return Err(BadSlot);
        }
        slots := slots + [slot];
      }
      ParsedLoaded(raw, crc);
      assert slots == Parsed(raw, crc).slots;
      var page := new Pager.FromParts(raw, h.(slots := slots));
      return Ok(page);
    }
  }
}
