/** A heap segment: a growing list of slotted pages, records named by tuple ids. */
module HeapSegments {
  import opened Bytes
  import opened PageIds
  import opened SlottedPage

  class HeapSegment {
    const segmentId: nat
    const pageSize: nat
    var pages: seq<Page>

    ghost predicate Valid()
      reads this, pages
    {
      && segmentId < 0x1_0000 && HEADER_SIZE <= pageSize < 0x100_0000 && |pages| <= 0x1_0000_0000_0000
      && (forall i, j :: 0 <= i < j < |pages| ==> pages[i] != pages[j])
      && (forall i :: 0 <= i < |pages| ==> PageOk(pages[i], i))
    }

    ghost predicate PageOk(p: Page, i: nat)
      requires segmentId < 0x1_0000
      reads p
    {
      p.Layout() && |p.bytes| == pageSize && i < 0x1_0000_0000_0000 && p.overallPageId == OverallPageId(segmentId, i)
    }

    /** The tuple id names a record of this segment. */
    ghost predicate Holds(tid: u64)
      requires Valid()
      reads this, pages
    {
      TidPage(tid) < |pages| && pages[TidPage(tid)].Live(TidSlot(tid))
    }

    ghost function RecordOf(tid: u64): seq<byte>
      requires Valid() && Holds(tid)
      reads this, pages
    {
      pages[TidPage(tid)].Record(TidSlot(tid))
    }

    constructor (segmentId: nat, pageSize: nat)
      requires segmentId < 0x1_0000 && HEADER_SIZE <= pageSize < 0x100_0000
      ensures Valid() && pages == [] && this.segmentId == segmentId && this.pageSize == pageSize
    {
      this.segmentId, this.pageSize, pages := segmentId, pageSize, [];
    }

    /** The pages before this one have too little free space. */
    ghost predicate NoneBefore(i: nat, size: nat)
      requires i <= |pages|
      reads this, pages
    {
      forall k :: 0 <= k < i ==> pages[k].freeSpace < size
    }

    /** The first page whose free space is enough. */
    ghost predicate Target(i: nat, size: nat)
      reads this, pages
    {
      i < |pages| && NoneBefore(i, size) && size <= pages[i].freeSpace
    }

    /** The slot entry that the allocation writes lies inside its page. */
    ghost predicate SlotInPage(size: nat)
      reads this, pages
    {
      && (forall i: nat :: Target(i, size) ==> pages[i].SlotInPage())
      && (NoneBefore(|pages|, size) && size <= pageSize - HEADER_SIZE ==> SlotPos(1) <= pageSize)
    }

    ghost predicate Reuses(p: Page)
      reads p
    {
      p.firstFreeSlot < p.slotCount
    }

    /** A slot is reused, or the record and a slot entry fit. */
    ghost predicate HasRoom(size: nat)
      reads this, pages
    {
      && (forall i: nat :: Target(i, size) ==> Reuses(pages[i]) || size + SLOT_SIZE <= pages[i].freeSpace)
      && (NoneBefore(|pages|, size) ==> size + SLOT_SIZE <= pageSize - HEADER_SIZE)
    }

    lemma TargetRoom(i: nat, size: nat)
      requires Target(i, size)
      ensures HasRoom(size) <==> Reuses(pages[i]) || size + SLOT_SIZE <= pages[i].freeSpace
      ensures !NoneBefore(|pages|, size) && (SlotInPage(size) ==> pages[i].SlotInPage())
      ensures forall k: nat :: Target(k, size) ==> k == i
    {
    }

    lemma NoTarget(size: nat)
      requires NoneBefore(|pages|, size)
      ensures HasRoom(size) <==> size + SLOT_SIZE <= pageSize - HEADER_SIZE
    {
    }

    /** `allocate`: the first page whose free space is enough, else a new page. `ok` is false
        when the original exits: an empty page is too small. The segment stays consistent if
        and only if there is room for the slot entry, too; then the new record is live under a
        tuple id that was not, and all other records stay. */
    method Allocate(size: nat) returns (ok: bool, tid: u64)
      requires Valid() && size < 0x1_0000_0000 && |pages| < 0x1_0000_0000_0000 && SlotInPage(size)
      modifies this`pages, pages
      ensures ok <==> size <= pageSize - HEADER_SIZE || !old(NoneBefore(|pages|, size))
      ensures ok ==> old(pages) <= pages && (Valid() <==> old(HasRoom(size)))
      ensures ok && old(NoneBefore(|pages|, size)) ==> TidPage(tid) == |old(pages)| == |pages| - 1
      ensures ok && !old(NoneBefore(|pages|, size)) ==> pages == old(pages) && old(Target(TidPage(tid), size))
      ensures ok && Valid() ==> Holds(tid) && !old(Holds(tid)) && |RecordOf(tid)| == size
      ensures ok && Valid() ==> forall other: u64 :: old(Holds(other)) ==>
        Holds(other) && RecordOf(other) == old(RecordOf(other))
    {
      hide HasRoom;
      for i := 0 to |pages|
        invariant pages == old(pages)
        invariant NoneBefore(i, size)
      {
        if size <= pages[i].freeSpace {
          ok := true;
          TargetRoom(i, size);
          tid := AllocateIn(i, size);
          return;
        }
      }
      if size > pageSize - HEADER_SIZE {
        return false, 0;
      }
      NoTarget(size);
      AddPage();
      tid := AllocateIn(|pages| - 1, size);
      ok := true;
    }

    /** A page for the next page number; nothing is live on it. */
    method AddPage()
      requires Valid() && |pages| < 0x1_0000_0000_0000
      modifies this`pages
      ensures Valid() && |pages| == |old(pages)| + 1 && pages[..|old(pages)|] == old(pages) &&
        fresh(pages[|old(pages)|])
      ensures pages[|old(pages)|].slotCount == 0 && pages[|old(pages)|].freeSpace == pageSize - HEADER_SIZE
      ensures pages[|old(pages)|].SlotInPage() <==> SlotPos(1) <= pageSize
      ensures forall tid: u64 :: Holds(tid) <==> old(Holds(tid))
      ensures forall tid: u64 :: old(Holds(tid)) ==> RecordOf(tid) == old(RecordOf(tid))
    {
      var page := new Page(OverallPageId(segmentId, |pages|), Zeros(pageSize));
      pages := pages + [page];
    }

    method AllocateIn(i: nat, size: nat) returns (tid: u64)
      requires Valid() && i < |pages| && size <= pages[i].freeSpace && size < 0x1_0000_0000 && pages[i].SlotInPage()
      modifies pages[i]
      ensures TidPage(tid) == i
      ensures Valid() <==> old(Reuses(pages[i]) || size + SLOT_SIZE <= pages[i].freeSpace)
      ensures Valid() ==> Holds(tid) && !old(Holds(tid)) && |RecordOf(tid)| == size
      ensures Valid() ==> forall other: u64 :: old(Holds(other)) ==>
        Holds(other) && RecordOf(other) == old(RecordOf(other))
    {
      hide OverallPageId, MakeTid;
      var ok;
      ok, tid := pages[i].AddSlot(size);
      TidRoundTrip(segmentId, i, old(pages[i].firstFreeSlot));
    }

    /** Where the record of a tuple id starts in its page. */
    ghost function StartOf(tid: u64): nat
      requires Valid() && Holds(tid)
      reads this, pages
    {
      pages[TidPage(tid)].Start(TidSlot(tid))
    }

    /** Writing `n` bytes to `tid` does not reach the other record. */
    ghost predicate OutOfReach(other: u64, tid: u64, n: nat)
      requires Valid() && Holds(other) && Holds(tid)
      reads this, pages
    {
      TidPage(other) != TidPage(tid) || pages[TidPage(tid)].Clear(TidSlot(other), StartOf(tid), n)
    }

    /** Writes a record in place. Other pages stay, and on its page every record that the
        written bytes do not reach; up to the slot's length they reach no other record. */
    method Write(tid: u64, record: seq<byte>)
      requires Valid() && Holds(tid) && StartOf(tid) + |record| <= pageSize
      modifies pages[TidPage(tid)]
      ensures Valid() && forall other: u64 :: Holds(other) <==> old(Holds(other))
      ensures forall other: u64 :: Holds(other) && old(Holds(other) && OutOfReach(other, tid, |record|)) ==>
        RecordOf(other) == old(RecordOf(other))
      ensures |record| <= |old(RecordOf(tid))| ==>
        && RecordOf(tid) == record + old(RecordOf(tid))[|record|..]
        && forall other: u64 :: Holds(other) && other != tid ==> RecordOf(other) == old(RecordOf(other))
    {
      hide TidPage, TidSlot, Page.Layout, Page.Live, Page.Record, Page.Start, Page.Clear;
      forall other: u64 | other != tid ensures TidPage(other) != TidPage(tid) || TidSlot(other) != TidSlot(tid) {
        SameTid(other, tid);
      }
      pages[TidPage(tid)].Write(tid, record);
    }

    method Read(tid: u64, capacity: nat) returns (ok: bool, record: seq<byte>, length: nat)
      requires Valid() && Holds(tid)
      ensures length == |RecordOf(tid)| && (ok <==> capacity <= length)
      ensures ok ==> record == RecordOf(tid)[..capacity]
    {
      ok, record, length := pages[TidPage(tid)].Read(tid, capacity);
    }

    lemma InsidePage(tid: u64, n: nat)
      requires Valid() && Holds(tid) && n <= |RecordOf(tid)|
      ensures StartOf(tid) + n <= pageSize
    {
    }

    /** What was written to a tuple id is read back, also after a write to another one. */
    method ReadsLastWrite(tid: u64, record: seq<byte>, other: u64, noise: seq<byte>) returns (ok: bool, back: seq<byte>)
      requires Valid() && Holds(tid) && Holds(other) && tid != other
      requires |record| <= |RecordOf(tid)| && |noise| <= |RecordOf(other)|
      modifies pages
      ensures Valid() && ok && back == record
    {
      hide Page.Layout, Page.Live, Page.Record, Page.Clear, OutOfReach, TidPage, TidSlot;
      InsidePage(tid, |record|);
      Write(tid, record);
      InsidePage(other, |noise|);
      Write(other, noise);
      var length;
      ok, back, length := Read(tid, |record|);
    }
  }
}
