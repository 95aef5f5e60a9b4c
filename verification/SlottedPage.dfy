/** Slotted pages: a header, an array of packed 8-byte slots growing upwards behind it, and
    records allocated downwards from the end of the page. */
module SlottedPage {
  import opened Bytes
  import opened PageIds

  const HEADER_SIZE := 32
  const SLOT_SIZE := 8

  /** `T:8 | S:8 | offset:24 | length:24`, with T all ones and S zero: the offset is shifted
      left by 40 and right by 16, the length left by 40 and right by 40, in 64 bits. */
  function PackSlot(offset: u64, length: u64): u64 {
    0xFF00_0000_0000_0000
    + offset * 0x100_0000_0000 % 0x1_0000_0000_0000_0000 / 0x1_0000
    + length * 0x100_0000_0000 % 0x1_0000_0000_0000_0000 / 0x100_0000_0000
  }

  /** Shift left by 16, right by 40. */
  function SlotOffset(value: u64): nat { value * 0x1_0000 % 0x1_0000_0000_0000_0000 / 0x100_0000_0000 }

  /** Shift left by 40, right by 40. */
  function SlotLength(value: u64): nat { value * 0x100_0000_0000 % 0x1_0000_0000_0000_0000 / 0x100_0000_0000 }

  /** Shifting left by 40 keeps the 24 low bits. */
  lemma ShiftedBy40(v: nat)
    ensures v * 0x100_0000_0000 % 0x1_0000_0000_0000_0000 == (v % 0x100_0000) * 0x100_0000_0000
  {
    var q, r := v / 0x100_0000, v % 0x100_0000;
    assert v * 0x100_0000_0000 == q * 0x1_0000_0000_0000_0000 + r * 0x100_0000_0000;
  }

  /** Slot fields decode to what was encoded exactly when they fit in 24 bits. */
  lemma SlotRoundTrip(offset: u64, length: u64)
    ensures SlotOffset(PackSlot(offset, length)) == offset <==> offset < 0x100_0000
    ensures SlotLength(PackSlot(offset, length)) == length <==> length < 0x100_0000
    ensures PackSlot(offset, length) != 0
  {
    ShiftedBy40(offset);
    ShiftedBy40(length);
    Unpack(offset % 0x100_0000, length % 0x100_0000);
  }

  lemma Unpack(o: nat, n: nat)
    requires o < 0x100_0000 && n < 0x100_0000
    ensures SlotOffset(0xFF00_0000_0000_0000 + o * 0x100_0000 + n) == o
    ensures SlotLength(0xFF00_0000_0000_0000 + o * 0x100_0000 + n) == n
  {
    var v: nat := 0xFF00_0000_0000_0000 + o * 0x100_0000 + n;
    assert v * 0x1_0000 == 0xFF00 * 0x1_0000_0000_0000_0000 + (o * 0x100_0000_0000 + n * 0x1_0000);
    ShiftedBy40(v);
    assert v == 0x100_0000 * (0xFF_0000_0000 + o) + n;
  }

  /** A tuple id keeps 48 bits of the page id and 16 bits of slot number. */
  function MakeTid(page: u64, slot: nat): u64
    requires slot < 0x1_0000
  {
    page * 0x1_0000 % 0x1_0000_0000_0000_0000 + slot
  }

  function TidPage(tid: u64): nat { tid / 0x1_0000 }

  function TidSlot(tid: u64): nat { tid % 0x1_0000 }

  lemma SameTid(a: u64, b: u64)
    ensures TidPage(a) == TidPage(b) && TidSlot(a) == TidSlot(b) ==> a == b
  {
  }

  /** The tuple id drops the segment, which the segment that made it puts back. */
  lemma TidRoundTrip(segment: nat, page: nat, slot: nat)
    requires segment < 0x1_0000 && page < 0x1_0000_0000_0000 && slot < 0x1_0000
    ensures TidPage(MakeTid(OverallPageId(segment, page), slot)) == page
    ensures TidSlot(MakeTid(OverallPageId(segment, page), slot)) == slot
  {
    var id: nat := OverallPageId(segment, page);
    assert id * 0x1_0000 == segment * 0x1_0000_0000_0000_0000 + page * 0x1_0000;
  }

  /** Conversion of a difference to an unsigned 32-bit integer. */
  function Wrap32(x: int): (r: nat)
    requires -0x1_0000_0000 <= x < 0x1_0000_0000
    ensures r == x % 0x1_0000_0000
  {
    if x < 0 then x + 0x1_0000_0000 else x
  }

  /** Where slot `i` lies in the page. */
  function SlotPos(i: nat): nat { HEADER_SIZE + SLOT_SIZE * i }

  function SlotAt(bytes: seq<byte>, i: nat): u64
    requires SlotPos(i + 1) <= |bytes|
  {
    U64Of(bytes[SlotPos(i)..SlotPos(i + 1)])
  }

  function Put(bytes: seq<byte>, at: nat, block: seq<byte>): (b: seq<byte>)
    requires at + |block| <= |bytes|
    ensures |b| == |bytes|
    ensures forall k :: 0 <= k < |b| ==> b[k] == if at <= k < at + |block| then block[k - at] else bytes[k]
  {
    bytes[..at] + block + bytes[at + |block|..]
  }

  lemma PutSlot(bytes: seq<byte>, i: nat, value: u64, j: nat)
    requires SlotPos(i + 1) <= |bytes| && SlotPos(j + 1) <= |bytes|
    ensures SlotAt(Put(bytes, SlotPos(i), U64Bytes(value)), j) == if j == i then value else SlotAt(bytes, j)
  {
    var b := Put(bytes, SlotPos(i), U64Bytes(value));
    if i == j {
      U64RoundTrip(value);
      assert b[SlotPos(j)..SlotPos(j + 1)] == U64Bytes(value);
    } else {
      assert b[SlotPos(j)..SlotPos(j + 1)] == bytes[SlotPos(j)..SlotPos(j + 1)];
    }
  }

  /** Writing behind the slot array leaves the slots alone. */
  lemma PutBehindSlots(bytes: seq<byte>, at: nat, block: seq<byte>, j: nat)
    requires SlotPos(j + 1) <= at && at + |block| <= |bytes|
    ensures SlotAt(Put(bytes, at, block), j) == SlotAt(bytes, j)
  {
    assert Put(bytes, at, block)[SlotPos(j)..SlotPos(j + 1)] == bytes[SlotPos(j)..SlotPos(j + 1)];
  }

  /** What a slot value says: nothing, or where a record starts and ends. */
  datatype Extent = Free | Extent(start: nat, end: nat)

  function Decode(value: u64): Extent {
    if value == 0 then Free else Extent(SlotOffset(value), SlotOffset(value) + SlotLength(value))
  }

  function Extents(bytes: seq<byte>, count: nat): (e: seq<Extent>)
    requires SlotPos(count) <= |bytes|
    ensures |e| == count
    ensures forall i :: 0 <= i < count ==> e[i] == Decode(SlotAt(bytes, i))
  {
    seq(count, i requires 0 <= i < count => Decode(SlotAt(bytes, i)))
  }

  /** Records lie between `start` and `size` and are pairwise disjoint. */
  ghost predicate Separate(e: seq<Extent>, start: nat, size: nat) {
    && (forall i :: 0 <= i < |e| && e[i].Extent? ==> start <= e[i].start <= e[i].end <= size)
    && (forall i, j :: 0 <= i < j < |e| && e[i].Extent? && e[j].Extent? ==>
         e[i].end <= e[j].start || e[j].end <= e[i].start)
  }

  function Content(bytes: seq<byte>, x: Extent): seq<byte>
    requires x.Extent? && x.start <= x.end <= |bytes|
  {
    bytes[x.start..x.end]
  }

  lemma TakeOfContent(bytes: seq<byte>, x: Extent, n: nat)
    requires x.Extent? && x.start <= x.start + n <= x.end <= |bytes|
    ensures Content(bytes, x)[..n] == bytes[x.start..x.start + n]
  {
  }

  function SetExtent(e: seq<Extent>, i: nat, x: Extent): seq<Extent>
    requires i <= |e|
  {
    if i == |e| then e + [x] else e[i := x]
  }

  lemma DecodePacked(offset: u64, length: u64)
    requires offset < 0x100_0000 && length < 0x100_0000
    ensures Decode(PackSlot(offset, length)) == Extent(offset, offset + length)
  {
    SlotRoundTrip(offset, length);
  }

  lemma PutExtent(bytes: seq<byte>, count: nat, target: nat, value: u64, count': nat)
    requires target <= count && count' == (if target == count then count + 1 else count) && SlotPos(count') <= |bytes|
    ensures Extents(Put(bytes, SlotPos(target), U64Bytes(value)), count')
         == SetExtent(Extents(bytes, count), target, Decode(value))
  {
    var bytes' := Put(bytes, SlotPos(target), U64Bytes(value));
    forall j: nat | j < count' ensures SlotAt(bytes', j) == if j == target then value else SlotAt(bytes, j) {
      PutSlot(bytes, target, value, j);
    }
  }

  /** Slot writes do not reach the data area. */
  lemma PutBelow(bytes: seq<byte>, at: nat, block: seq<byte>, x: Extent)
    requires at + |block| <= |bytes| && x.Extent? && x.start <= x.end <= |bytes|
    requires x.end <= at || at + |block| <= x.start
    ensures Content(Put(bytes, at, block), x) == Content(bytes, x)
  {
  }

  lemma StartIsOffset(value: u64)
    ensures Decode(value).Extent? ==> Decode(value).start == SlotOffset(value)
  {
  }

  lemma PutInside(bytes: seq<byte>, at: nat, block: seq<byte>, x: Extent)
    requires x.Extent? && x.start == at && at + |block| <= x.end <= |bytes|
    ensures Content(Put(bytes, at, block), x) == block + Content(bytes, x)[|block|..]
  {
  }

  lemma WriteKeepsExtents(bytes: seq<byte>, count: nat, at: nat, block: seq<byte>)
    requires SlotPos(count) <= at && at + |block| <= |bytes|
    ensures Extents(Put(bytes, at, block), count) == Extents(bytes, count)
  {
    forall j: nat | j < count ensures SlotAt(Put(bytes, at, block), j) == SlotAt(bytes, j) {
      PutBehindSlots(bytes, at, block, j);
    }
  }

  ghost predicate IsFirstFree(e: seq<Extent>, free: nat) {
    && free <= |e|
    && (free < |e| ==> e[free].Free?)
    && (forall j :: 0 <= j < free ==> e[j].Extent?)
  }

  ghost predicate LayoutOf(e: seq<Extent>, free: nat, start: nat, space: nat, total: nat) {
    && SlotPos(|e|) <= start <= total
    && space == start - SlotPos(|e|)
    && Separate(e, start, total)
    && IsFirstFree(e, free)
  }

  /** Allocation keeps the layout if and only if the slot array stays below the data. */
  lemma AllocateLayout(e: seq<Extent>, free: nat, start: nat, space: nat, total: nat, size: nat, free': nat,
      space': nat)
    requires LayoutOf(e, free, start, space, total) && size <= space
    requires var e' := SetExtent(e, free, Extent(start - size, start));
      total < 0x100_0000 && |e'| < 0x1_0000 && IsFirstFree(e', free') && space' == Wrap32(start - size - SlotPos(|e'|))
    ensures var e' := SetExtent(e, free, Extent(start - size, start));
      && (LayoutOf(e', free', start - size, space', total) <==> free < |e| || size + SLOT_SIZE <= space)
      && (!LayoutOf(e', free', start - size, space', total) ==> space' >= 0x1_0000_0000 - SLOT_SIZE)
  {
  }

  class Page {
    const overallPageId: u64
    var slotCount: nat
    var firstFreeSlot: nat
    var dataStart: nat
    var freeSpace: nat
    var bytes: seq<byte>

    /** Header, slots and records are consistent. */
    ghost predicate Layout()
      reads this
    {
      && |bytes| < 0x100_0000 && slotCount < 0x1_0000 && SlotPos(slotCount) <= |bytes|
      && LayoutOf(Extents(bytes, slotCount), firstFreeSlot, dataStart, freeSpace, |bytes|)
    }

    /** The slot to be written lies in the page, and its number in 16 bits. */
    predicate SlotInPage()
      reads this
    {
      firstFreeSlot < slotCount || (SlotPos(slotCount + 1) <= |bytes| && slotCount < 0xFFFF)
    }

    constructor (overallPageId: u64, bytes: seq<byte>)
      requires HEADER_SIZE <= |bytes| < 0x100_0000
      ensures Layout() && slotCount == 0 && this.bytes == bytes && this.overallPageId == overallPageId
      ensures freeSpace == |bytes| - HEADER_SIZE
    {
      this.overallPageId, this.bytes := overallPageId, bytes;
      slotCount, firstFreeSlot, dataStart, freeSpace := 0, 0, |bytes|, |bytes| - HEADER_SIZE;
    }

    /** Slot `i` holds a record. */
    ghost predicate Live(i: nat)
      requires Layout()
      reads this
    {
      i < slotCount && Extents(bytes, slotCount)[i].Extent?
    }

    ghost function Record(i: nat): seq<byte>
      requires Layout() && Live(i)
      reads this
    {
      Content(bytes, Extents(bytes, slotCount)[i])
    }

    /** Allocates a record of `size` bytes; `ok` is false when the original exits. The space
        check ignores the new slot entry, so the page keeps its layout if and only if a slot
        is reused or there is room for the record and 8 more bytes; otherwise the free space
        wraps around to almost 2^32. */
    method AddSlot(size: nat) returns (ok: bool, tid: u64)
      requires Layout() && size < 0x1_0000_0000 && SlotInPage()
      modifies this
      ensures ok <==> size <= old(freeSpace)
      ensures ok ==> tid == MakeTid(overallPageId, old(firstFreeSlot)) && |bytes| == |old(bytes)|
      ensures ok ==> (Layout() <==> old(firstFreeSlot < slotCount) || size + SLOT_SIZE <= old(freeSpace))
      ensures ok && !Layout() ==> freeSpace >= 0x1_0000_0000 - SLOT_SIZE
      ensures ok && Layout() ==> dataStart == old(dataStart) - size
      ensures ok && Layout() ==>
        Extents(bytes, slotCount) ==
          SetExtent(old(Extents(bytes, slotCount)), old(firstFreeSlot), Extent(dataStart, old(dataStart)))
      ensures ok && Layout() ==> forall i :: old(Live(i)) ==> Live(i) && Record(i) == old(Record(i))
    {
      tid := 0;
      if size > freeSpace {
        dataStart := Wrap32(dataStart - size);
        return false, tid;
      }
      ok := true;
      ghost var was, start := Extents(bytes, slotCount), dataStart;
      tid := Allocate(size);
      if Layout() {
        KeepContents(was, old(bytes), start, |bytes|);
      }
    }

    method Allocate(size: nat) returns (tid: u64)
      requires Layout() && size <= freeSpace && SlotInPage()
      modifies this
      ensures tid == MakeTid(overallPageId, old(firstFreeSlot))
      ensures Layout() <==> old(firstFreeSlot < slotCount) || size + SLOT_SIZE <= old(freeSpace)
      ensures !Layout() ==> freeSpace >= 0x1_0000_0000 - SLOT_SIZE
      ensures dataStart == old(dataStart) - size && SlotPos(slotCount) <= |bytes| == |old(bytes)|
      ensures Extents(bytes, slotCount)
           == SetExtent(old(Extents(bytes, slotCount)), old(firstFreeSlot), Extent(dataStart, old(dataStart)))
      ensures forall k :: SlotPos(slotCount) <= k < |bytes| ==> bytes[k] == old(bytes)[k]
    {
      hide Separate, MakeTid, Decode;
      ghost var was, start, space, target := Extents(bytes, slotCount), dataStart, freeSpace, firstFreeSlot;
      var offset := Wrap32(dataStart - size);
      tid := MakeTid(overallPageId, firstFreeSlot);
      dataStart := offset;
      var value := NewSlotValue(offset, size);
      StoreSlot(value);
      freeSpace := Wrap32(dataStart - SLOT_SIZE * slotCount - HEADER_SIZE);
      FindFree();
      ghost var now := Extents(bytes, slotCount);
      assert now == SetExtent(was, target, Extent(start - size, start));
      AllocateLayout(was, target, start, space, |bytes|, size, firstFreeSlot, freeSpace);
      assert Layout() <==> LayoutOf(now, firstFreeSlot, start - size, freeSpace, |bytes|);
    }

    method NewSlotValue(offset: nat, length: nat) returns (value: u64)
      requires offset < 0x100_0000 && length < 0x100_0000
      ensures Decode(value) == Extent(offset, offset + length)
    {
      DecodePacked(offset, length);
      value := PackSlot(offset, length);
    }

    /** Contents behind `start` survive a change below it. */
    lemma KeepContents(was: seq<Extent>, before: seq<byte>, start: nat, total: nat)
      requires |bytes| == |before| == total && Separate(was, start, total)
      requires forall k :: start <= k < total ==> bytes[k] == before[k]
      ensures forall i :: 0 <= i < |was| && was[i].Extent? ==> Content(bytes, was[i]) == Content(before, was[i])
    {
    }

    /** Writes a slot value: into the first free slot, or behind the last one. */
    method StoreSlot(value: u64)
      requires firstFreeSlot <= slotCount && SlotPos(slotCount) <= |bytes| && SlotInPage()
      modifies this`bytes, this`slotCount
      ensures slotCount == if firstFreeSlot == old(slotCount) then old(slotCount) + 1 else old(slotCount)
      ensures |bytes| == |old(bytes)| && SlotPos(slotCount) <= |bytes|
      ensures forall k :: SlotPos(slotCount) <= k < |bytes| ==> bytes[k] == old(bytes)[k]
      ensures Extents(bytes, slotCount) == SetExtent(old(Extents(bytes, slotCount)), firstFreeSlot, Decode(value))
    {
      PutExtent(bytes, slotCount, firstFreeSlot, value, if firstFreeSlot == slotCount then slotCount + 1
        else slotCount);
      if firstFreeSlot == slotCount {
        bytes := Put(bytes, SlotPos(slotCount), U64Bytes(value));
        slotCount := slotCount + 1;
      } else {
        bytes := Put(bytes, SlotPos(firstFreeSlot), U64Bytes(value));
      }
    }

    /** The scan for the first empty slot. */
    method FindFree()
      requires SlotPos(slotCount) <= |bytes|
      modifies this`firstFreeSlot
      ensures IsFirstFree(Extents(bytes, slotCount), firstFreeSlot)
    {
      for i := 0 to slotCount
        invariant forall j :: 0 <= j < i ==> Extents(bytes, slotCount)[j].Extent?
      {
        if SlotAt(bytes, i) == 0 {
          firstFreeSlot := i;
          return;
        }
      }
      firstFreeSlot := slotCount;
    }

    /** Where record `i` starts. */
    ghost function Start(i: nat): nat
      requires Layout() && Live(i)
      reads this
    {
      Extents(bytes, slotCount)[i].start
    }

    /** Writing `n` bytes at `at` does not reach record `j`. */
    ghost predicate Clear(j: nat, at: nat, n: nat)
      requires Layout() && Live(j)
      reads this
    {
      var x := Extents(bytes, slotCount)[j];
      x.end <= at || at + n <= x.start
    }

    /** `HeapSegment::write` on this page: the record's slot gives the offset, nothing checks
        the length. The slots stay, and so does every record that the written bytes do not
        reach; up to the slot's length they reach no other record. */
    method Write(tid: u64, record: seq<byte>)
      requires Layout() && Live(TidSlot(tid)) && Start(TidSlot(tid)) + |record| <= |bytes|
      modifies this`bytes
      ensures Layout() && Extents(bytes, slotCount) == old(Extents(bytes, slotCount)) && |bytes| == |old(bytes)|
      ensures bytes == Put(old(bytes), old(Start(TidSlot(tid))), record)
      ensures forall j :: Live(j) <==> old(Live(j))
      ensures forall j :: Live(j) && old(Clear(j, Start(TidSlot(tid)), |record|)) ==> Record(j) == old(Record(j))
      ensures |record| <= |old(Record(TidSlot(tid)))| ==>
        && Record(TidSlot(tid)) == record + old(Record(TidSlot(tid)))[|record|..]
        && forall j :: Live(j) && j != TidSlot(tid) ==> Record(j) == old(Record(j))
    {
      hide Decode, SlotAt, Put;
      var i := TidSlot(tid);
      var at := SlotOffset(SlotAt(bytes, i));
      ghost var e, was := Extents(bytes, slotCount), bytes;
      StartIsOffset(SlotAt(bytes, i));
      WriteKeepsExtents(bytes, slotCount, at, record);
      bytes := Put(bytes, at, record);
      forall j | 0 <= j < slotCount && e[j].Extent? && (e[j].end <= at || at + |record| <= e[j].start)
        ensures Content(bytes, e[j]) == Content(was, e[j])
      {
        PutBelow(was, at, record, e[j]);
      }
      if |record| <= e[i].end - e[i].start {
        PutInside(was, at, record, e[i]);
      }
    }

    /** `HeapSegment::read` on this page; fails when more is asked for than the slot holds. */
    method Read(tid: u64, capacity: nat) returns (ok: bool, record: seq<byte>, length: nat)
      requires Layout() && Live(TidSlot(tid))
      ensures length == |Record(TidSlot(tid))|
      ensures ok <==> capacity <= length
      ensures ok ==> record == Record(TidSlot(tid))[..capacity]
    {
      var value := SlotAt(bytes, TidSlot(tid));
      ghost var x := Extents(bytes, slotCount)[TidSlot(tid)];
      length := SlotLength(value);
      ok := capacity <= length;
      record := if ok then bytes[SlotOffset(value)..SlotOffset(value) + capacity] else [];
      assert x == Extent(SlotOffset(value), SlotOffset(value) + length);
      if ok {
        TakeOfContent(bytes, x, capacity);
      }
    }
  }

  /** A page of 40 bytes has 8 bytes of free space, and accepts a record of 8 bytes. Its slot
      entry takes them, too: the free space wraps around. */
  method RecordWithoutRoomForItsSlot() returns (page: Page, ok: bool)
    ensures ok && !page.Layout() && page.freeSpace >= 0x1_0000_0000 - SLOT_SIZE
  {
    page := new Page(0, Zeros(40));
    var tid;
    ok, tid := page.AddSlot(8);
  }
}
