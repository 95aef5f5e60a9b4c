/** The buffer manager of the logging lab: a pool of frames that caches pages of segment
    files, without eviction. It is a plain map from addresses to bytes, twice: as readers of
    the pool see it, and as the disk holds it. */
module BufferPool {
  import opened Bytes
  import opened PageIds
  import opened RecoverySpec

  const INVALID_PAGE_ID: u64 := 0xFFFF_FFFF_FFFF_FFFF

  datatype Option<T> = None | Some(value: T)

  datatype Frame = Frame(pageId: u64, data: seq<byte>, dirty: bool)

  type Files = map<nat, seq<byte>>

  /** Where a page starts in its file. */
  function PagePos(page: u64, pageSize: nat): nat { PageInSegment(page) * pageSize }

  function FileOf(files: Files, page: u64): seq<byte> {
    if SegmentOf(page) in files then files[SegmentOf(page)] else []
  }

  function DiskByte(files: Files, pageSize: nat, a: Addr): byte {
    if a.off >= pageSize then 0 else FileByte(FileOf(files, a.page), PagePos(a.page, pageSize) + a.off)
  }

  /** The first frame that holds `page`. */
  function FrameOf(pool: seq<Frame>, page: u64): (r: Option<nat>)
    ensures r.Some? ==> r.value < |pool| && pool[r.value].pageId == page
    ensures r.None? ==> forall f :: 0 <= f < |pool| ==> pool[f].pageId != page
  {
    if pool == [] then None
    else if pool[0].pageId == page then Some(0)
    else match FrameOf(pool[1..], page)
      case None => assert forall f :: 1 <= f < |pool| ==> pool[f] == pool[1..][f - 1]; None
      case Some(f) => Some(f + 1)
  }

  /** The byte a reader of the pool gets. */
  function SeenByte(pool: seq<Frame>, files: Files, pageSize: nat, a: Addr): byte {
    match FrameOf(pool, a.page)
    case Some(f) => if a.off < pageSize then FileByte(pool[f].data, a.off) else 0
    case None => DiskByte(files, pageSize, a)
  }

  /** The byte at `a`, `v` before, after `block` is copied to `offset` of `page`. */
  function Patched(page: u64, offset: nat, block: seq<byte>, a: Addr, v: byte): byte {
    if a.page == page && offset <= a.off < offset + |block| then block[a.off - offset] else v
  }

  /** A clean frame equals the disk. */
  ghost predicate CleanOk(frame: Frame, files: Files, pageSize: nat) {
    && |frame.data| == pageSize
    && (frame.pageId == INVALID_PAGE_ID ==> !frame.dirty)
    && (frame.pageId != INVALID_PAGE_ID && !frame.dirty ==>
          forall i :: 0 <= i < pageSize ==> frame.data[i] == DiskByte(files, pageSize, Addr(frame.pageId, i)))
  }

  /** Every page is in at most one frame. */
  ghost predicate OneFramePerPage(pool: seq<Frame>) {
    forall f, g :: 0 <= f < |pool| && 0 <= g < |pool| && pool[f].pageId == pool[g].pageId != INVALID_PAGE_ID ==> f == g
  }

  // ---------- Pages in their files ----------

  /** The byte of a segment's file; zero past its end, and where there is no such file. */
  function SegmentByte(files: Files, segment: nat, pos: nat): byte {
    if segment in files && pos < |files[segment]| then files[segment][pos] else 0
  }

  /** `data` is what the segment's file holds for the page: pages lie one after the other. */
  ghost predicate IsOnFile(files: Files, pageSize: nat, id: u64, data: seq<byte>) {
    |data| == pageSize &&
    forall segment, page :: 0 <= segment < SEGMENTS && 0 <= page < PAGES && OverallPageId(segment, page) == id ==>
      forall off :: 0 <= off < pageSize ==> data[off] == SegmentByte(files, segment, page * pageSize + off)
  }

  /** Page `page` of a segment starts at byte `page * pageSize` of the segment's file. */
  lemma PageOnDisk(files: Files, pageSize: nat, segment: nat, page: nat, off: nat)
    requires segment < SEGMENTS && page < PAGES && OverallPageId(segment, page) != INVALID_PAGE_ID && off < pageSize
    ensures DiskByte(files, pageSize, Addr(OverallPageId(segment, page), off))
         == SegmentByte(files, segment, page * pageSize + off)
  {
    PageIdRoundTrip(segment, page, OverallPageId(segment, page));
  }

  lemma DiskIsOnFile(files: Files, pageSize: nat, id: u64, data: seq<byte>)
    requires |data| == pageSize
    requires forall off :: 0 <= off < pageSize ==>
      data[off] == FileByte(FileOf(files, id), PagePos(id, pageSize) + off)
    ensures IsOnFile(files, pageSize, id, data)
  {
    hide OverallPageId, SegmentOf, PageInSegment;
    forall segment, page, off |
      0 <= segment < SEGMENTS && 0 <= page < PAGES && OverallPageId(segment, page) == id && 0 <= off < pageSize
      ensures data[off] == SegmentByte(files, segment, page * pageSize + off)
    {
      PageIdRoundTrip(segment, page, id);
    }
  }

  // ---------- Room for pages ----------

  /** Which pages are resident and how many frames were handed out. Frames are never taken
      back, so a page that is absent costs one. */
  datatype Room = Room(held: set<u64>, used: nat, capacity: nat)

  /** All these pages can be fixed, one after the other. */
  ghost predicate Enough(room: Room, pages: set<u64>) {
    INVALID_PAGE_ID !in pages && (pages <= room.held || room.used + |pages - room.held| < room.capacity)
  }

  /** These pages were fixed: they are resident now, and no set that contains them has become
      easier or harder to fix. */
  ghost predicate Fixed(room: Room, room': Room, pages: set<u64>) {
    && INVALID_PAGE_ID !in pages && pages <= room'.held && room.held <= room'.held
    && forall more: set<u64> {:trigger Enough(room', more)} :: pages <= more ==>
         (Enough(room, more) <==> Enough(room', more))
  }

  function HeldPages(pool: seq<Frame>): set<u64> {
    set f | 0 <= f < |pool| && pool[f].pageId != INVALID_PAGE_ID :: pool[f].pageId
  }

  lemma EnoughForFewer(room: Room, pages: set<u64>, fewer: set<u64>)
    requires Enough(room, pages) && fewer <= pages
    ensures Enough(room, fewer)
  {
    var rest := pages - room.held;
    assert fewer - room.held <= rest && rest == (fewer - room.held) + (rest - fewer);
  }

  /** An absent page takes the next frame. */
  lemma FixedAbsent(room: Room, room': Room, page: u64)
    requires page != INVALID_PAGE_ID && page !in room.held && room.used + 1 < room.capacity
    requires room' == Room(room.held + {page}, room.used + 1, room.capacity)
    ensures Fixed(room, room', {page})
  {
    forall more: set<u64> | {page} <= more ensures Enough(room, more) <==> Enough(room', more) {
      assert more - room.held == (more - room'.held) + {page};
      assert more <= room'.held <==> more - room'.held == {};
    }
  }

  lemma FixedNone(room: Room)
    ensures Fixed(room, room, {})
  {
  }

  lemma FixedResident(room: Room, page: u64)
    requires page != INVALID_PAGE_ID && page in room.held
    ensures Fixed(room, room, {page})
  {
  }

  lemma EnoughForOne(room: Room, page: u64)
    ensures Enough(room, {page}) <==> page != INVALID_PAGE_ID && (page in room.held || room.used + 1 < room.capacity)
  {
    if page !in room.held {
      assert {page} - room.held == {page};
    }
  }

  lemma FixedTwice(room: Room, room': Room, room'': Room, pages: set<u64>, more: set<u64>)
    requires Fixed(room, room', pages) && Fixed(room', room'', more)
    ensures Fixed(room, room'', pages + more)
  {
    forall all: set<u64> | pages + more <= all ensures Enough(room, all) <==> Enough(room'', all) {
      assert Enough(room', all) <==> Enough(room, all);
    }
  }

  /** After some pages were fixed, a further page that cannot be is missing for all of them
      together. */
  lemma NotEnough(room: Room, room': Room, pages: set<u64>, next: set<u64>, all: set<u64>)
    requires Fixed(room, room', pages) && !Enough(room', next) && pages + next <= all
    ensures !Enough(room, all)
  {
    if Enough(room, all) {
      assert Enough(room', all);
      EnoughForFewer(room', all, next);
    }
  }

  lemma FixedIsEnough(room: Room, room': Room, pages: set<u64>)
    requires Fixed(room, room', pages)
    ensures Enough(room, pages)
  {
    assert Enough(room', pages);
  }

  lemma ResidentIsHeld(pool: seq<Frame>, page: u64)
    requires page != INVALID_PAGE_ID
    ensures page in HeldPages(pool) <==> FrameOf(pool, page).Some?
  {
  }

  // ---------- Frames ----------

  lemma FrameOfUnique(pool: seq<Frame>, f: nat)
    requires OneFramePerPage(pool) && f < |pool| && pool[f].pageId != INVALID_PAGE_ID
    ensures FrameOf(pool, pool[f].pageId) == Some(f)
  {
  }

  /** Pages of one file occupy disjoint ranges. */
  lemma PagesDisjoint(i: nat, j: nat, pageSize: nat, x: nat)
    requires i != j && x < pageSize
    ensures !(i * pageSize <= j * pageSize + x < i * pageSize + pageSize)
  {
    var k := if i < j then j - i else i - j;
    MultipleAtLeast(k, pageSize);
    Distributes(if i < j then i else j, k, pageSize);
  }

  lemma MultipleAtLeast(k: nat, n: nat)
    requires k > 0
    ensures k * n >= n
  {
  }

  lemma Distributes(i: nat, k: nat, n: nat)
    ensures (i + k) * n == i * n + k * n
  {
  }

  function WritePage(files: Files, pageSize: nat, page: u64, data: seq<byte>): Files {
    files[SegmentOf(page) := WriteBlock(FileOf(files, page), PagePos(page, pageSize), data)]
  }

  /** Writing a page changes that page's bytes and no others. */
  lemma WritePageBytes(files: Files, pageSize: nat, page: PageId, data: seq<byte>, a: Addr)
    requires |data| == pageSize
    ensures DiskByte(WritePage(files, pageSize, page, data), pageSize, a)
         == if a.page == page && a.off < pageSize then data[a.off] else DiskByte(files, pageSize, a)
  {
    var base, pos := PagePos(page, pageSize), PagePos(a.page, pageSize) + a.off;
    if a.off < pageSize && SegmentOf(a.page) == SegmentOf(page) {
      SamePageOnly(page, a.page, pageSize, a.off);
      assert FileByte(WriteBlock(FileOf(files, page), base, data), pos)
          == if base <= pos < base + |data| then data[pos - base] else FileByte(FileOf(files, page), pos);
    }
  }

  lemma SamePageOnly(page: u64, page': u64, pageSize: nat, x: nat)
    requires SegmentOf(page') == SegmentOf(page) && x < pageSize
    ensures PagePos(page, pageSize) <= PagePos(page', pageSize) + x < PagePos(page, pageSize) + pageSize <==>
      page == page'
  {
    if page != page' {
      assert PageInSegment(page') != PageInSegment(page);
      PagesDisjoint(PageInSegment(page), PageInSegment(page'), pageSize, x);
    }
  }

  class BufferManager {
    const capacity: nat
    const pageSize: nat
    var pool: seq<Frame>
    var pageCounter: nat
    var files: Files

    ghost predicate Valid()
      reads this
    {
      && |pool| == capacity
      && OneFramePerPage(pool)
      && (forall f :: 0 <= f < capacity ==> CleanOk(pool[f], files, pageSize))
      && (forall f :: pageCounter <= f < capacity ==>
           pool[f].pageId == INVALID_PAGE_ID && pool[f].data == Zeros(pageSize))
    }

    ghost function SeenAt(a: Addr): byte
      reads this
    {
      SeenByte(pool, files, pageSize, a)
    }

    ghost function DiskAt(a: Addr): byte
      reads this
    {
      DiskByte(files, pageSize, a)
    }

    ghost function RoomNow(): Room
      reads this
    {
      Room(HeldPages(pool), pageCounter, capacity)
    }

    /** All bytes as seen through the pool. */
    ghost function View(): (v: Addr -> byte)
      reads this
      ensures forall a :: v(a) == SeenAt(a)
    {
      var p, fs, n := pool, files, pageSize;
      (a: Addr) => SeenByte(p, fs, n, a)
    }

    ghost function Disk(): (d: Addr -> byte)
      reads this
      ensures forall a :: d(a) == DiskAt(a)
    {
      var fs, n := files, pageSize;
      (a: Addr) => DiskByte(fs, n, a)
    }

    constructor (pageSize: nat, pageCount: nat, files: Files)
      ensures Valid() && this.pageSize == pageSize && capacity == pageCount && this.files == files && pageCounter == 0
      ensures forall a :: SeenAt(a) == DiskAt(a)
    {
      this.pageSize, capacity, this.files, pageCounter := pageSize, pageCount, files, 0;
      pool := seq(pageCount, _ => Frame(INVALID_PAGE_ID, Zeros(pageSize), false));
    }

    method GetFrameIdOfPage(page: u64) returns (r: Option<nat>)
      requires |pool| == capacity
      ensures r == FrameOf(pool, page)
    {
      var f := 0;
      while f < capacity
        invariant f <= capacity
        invariant match FrameOf(pool[f..], page)
          case None => FrameOf(pool, page) == None
          case Some(g) => FrameOf(pool, page) == Some(f + g)
      {
        assert pool[f..][1..] == pool[f + 1..];
        if pool[f].pageId == page {
          return Some(f);
        }
        f := f + 1;
      }
      r := None;
    }

    /** Bring a page into the pool. `ok` is false when the original calls `exit`: the page id
        is the invalid one, or the page is absent and the frames are used up. A page that was
        absent shows the bytes of its file. */
    method FixPage(page: u64) returns (ok: bool, f: nat)
      requires Valid()
      modifies this
      ensures ok <==> page != INVALID_PAGE_ID && (old(FrameOf(pool, page)).Some? || old(pageCounter) + 1 < capacity)
      ensures ok <==> Enough(old(RoomNow()), {page})
      ensures ok ==> Valid() && f < capacity && pool[f].pageId == page && Fixed(old(RoomNow()), RoomNow(), {page})
      ensures !ok ==> page == INVALID_PAGE_ID || pageCounter >= capacity
      ensures files == old(files)
      ensures ok ==> forall a :: SeenAt(a) == old(SeenAt(a))
      ensures ok && old(FrameOf(pool, page)).None? ==> IsOnFile(files, pageSize, page, pool[f].data)
    {
      hide Enough, Fixed, IsOnFile;
      f := 0;
      EnoughForOne(RoomNow(), page);
      if page == INVALID_PAGE_ID {
        return false, f;
      }
      var found := GetFrameIdOfPage(page);
      ResidentIsHeld(pool, page);
      if found.Some? {
        FixedResident(RoomNow(), page);
        return true, found.value;
      }
      f := pageCounter;
      pageCounter := pageCounter + 1;
      if pageCounter >= capacity {
        return false, f;
      }
      ghost var before := pool;
      assert pool[f].data == Zeros(pageSize);
      var data := ReadBlock(FileOf(files, page), PagePos(page, pageSize), pool[f].data);
      pool := pool[f := Frame(page, data, false)];
      assert forall i :: 0 <= i < pageSize ==> data[i] == DiskByte(files, pageSize, Addr(page, i));
      forall a: Addr ensures SeenAt(a) == old(SeenAt(a)) {
        LoadKeepsSeen(before, files, pageSize, f, Frame(page, data, false), a);
      }
      DiskIsOnFile(files, pageSize, page, data);
      LoadHolds(before, f, Frame(page, data, false));
      FixedAbsent(old(RoomNow()), RoomNow(), page);
      ok := true;
    }

    method UnfixPage(f: nat, isDirty: bool)
      requires |pool| == capacity && f < capacity
      modifies this`pool
      ensures pool == old(pool)[f := old(pool)[f].(dirty := old(pool)[f].dirty || isDirty)]
    {
      if !pool[f].dirty {
        pool := pool[f := pool[f].(dirty := isDirty)];
      }
      assert pool == old(pool)[f := old(pool)[f].(dirty := old(pool)[f].dirty || isDirty)];
    }

    /** memcpy into a fixed frame, then unfix_page(dirty). */
    method CopyIn(f: nat, offset: nat, block: seq<byte>)
      requires Valid() && f < capacity && pool[f].pageId != INVALID_PAGE_ID && offset + |block| <= pageSize
      modifies this`pool
      ensures Valid() && RoomNow() == old(RoomNow())
      ensures forall a :: SeenAt(a) == Patched(old(pool)[f].pageId, offset, block, a, old(SeenAt(a)))
    {
      ghost var before, page := pool, pool[f].pageId;
      var data := pool[f].data;
      pool := pool[f := pool[f].(data := data[..offset] + block + data[offset + |block|..])];
      UnfixPage(f, true);
      ghost var frame := pool[f];
      assert pool == before[f := frame];
      SamePagesHeld(before, pool);
      forall a: Addr ensures SeenAt(a) == Patched(page, offset, block, a, old(SeenAt(a))) {
        ReplaceKeepsSeen(before, files, pageSize, f, frame, a);
      }
    }

    /** fix_page, memcpy into the frame, unfix_page(dirty). */
    method Modify(page: u64, offset: nat, block: seq<byte>) returns (ok: bool)
      requires Valid() && offset + |block| <= pageSize
      modifies this
      ensures ok <==> page != INVALID_PAGE_ID && (old(FrameOf(pool, page)).Some? || old(pageCounter) + 1 < capacity)
      ensures files == old(files)
      ensures ok <==> Enough(old(RoomNow()), {page})
      ensures ok ==> Valid() && Fixed(old(RoomNow()), RoomNow(), {page})
      ensures !ok ==> page == INVALID_PAGE_ID || pageCounter >= capacity
      ensures ok ==> forall a :: SeenAt(a) == Patched(page, offset, block, a, old(SeenAt(a)))
    {
      hide Enough, Fixed;
      var f;
      ok, f := FixPage(page);
      if ok {
        CopyIn(f, offset, block);
      }
    }

    method WriteFrame(f: nat)
      requires Valid() && f < capacity && pool[f].pageId != INVALID_PAGE_ID
      modifies this`files
      ensures Valid()
      ensures forall a :: DiskAt(a) == if a.page == pool[f].pageId then SeenAt(a) else old(DiskAt(a))
      ensures forall a :: SeenAt(a) == old(SeenAt(a))
    {
      var frame := pool[f];
      files := WritePage(files, pageSize, frame.pageId, frame.data);
      forall a: Addr ensures DiskAt(a) ==
        if a.page == frame.pageId && a.off < pageSize then frame.data[a.off] else old(DiskAt(a))
      {
        WritePageBytes(old(files), pageSize, frame.pageId, frame.data, a);
      }
      FrameOfUnique(pool, f);
      forall g | 0 <= g < capacity ensures CleanOk(pool[g], files, pageSize) {
        assert CleanOk(pool[g], old(files), pageSize);
        assert pool[g].pageId == frame.pageId ==> g == f;
      }
    }

    method FlushPage(page: PageId)
      requires Valid()
      modifies this`files
      ensures Valid()
      ensures forall a :: SeenAt(a) == old(SeenAt(a))
      ensures forall a :: DiskAt(a) == if a.page == page then SeenAt(a) else old(DiskAt(a))
    {
      var found := GetFrameIdOfPage(page);
      if found.Some? && pool[found.value].dirty {
        WriteFrame(found.value);
      } else {
        forall a: Addr | a.page == page ensures DiskAt(a) == SeenAt(a) { CleanIsDisk(a); }
      }
    }

    /** A page that is absent or clean is on disk as seen. */
    lemma CleanIsDisk(a: Addr)
      requires Valid()
      requires FrameOf(pool, a.page).Some? ==> !pool[FrameOf(pool, a.page).value].dirty
      ensures SeenAt(a) == DiskAt(a)
    {
      if FrameOf(pool, a.page).Some? {
        assert CleanOk(pool[FrameOf(pool, a.page).value], files, pageSize);
      }
    }

    method FlushAllPages()
      requires Valid()
      modifies this`files
      ensures Valid()
      ensures forall a :: SeenAt(a) == old(SeenAt(a)) && DiskAt(a) == SeenAt(a)
    {
      var f := 0;
      while f < capacity
        invariant f <= capacity && Valid()
        invariant forall a :: SeenAt(a) == old(SeenAt(a))
        invariant forall a: Addr :: FrameOf(pool, a.page).Some? && FrameOf(pool, a.page).value < f ==>
          DiskAt(a) == SeenAt(a)
      {
        if pool[f].dirty {
          assert CleanOk(pool[f], files, pageSize);
          FrameOfUnique(pool, f);
          WriteFrame(f);
        } else {
          forall a: Addr | FrameOf(pool, a.page) == Some(f) ensures DiskAt(a) == SeenAt(a) { CleanIsDisk(a); }
        }
        f := f + 1;
      }
    }

    method DiscardPage(page: PageId)
      requires Valid()
      modifies this`pool
      ensures Valid() && RoomNow() == old(RoomNow()).(held := old(RoomNow()).held - {page})
      ensures forall a :: SeenAt(a) == if a.page == page then DiskAt(a) else old(SeenAt(a))
    {
      var found := GetFrameIdOfPage(page);
      ResidentIsHeld(pool, page);
      if found.Some? {
        ghost var before := pool;
        DropHolds(pool, found.value, Frame(INVALID_PAGE_ID, Zeros(pageSize), false));
        pool := pool[found.value := Frame(INVALID_PAGE_ID, Zeros(pageSize), false)];
        forall a: Addr ensures SeenAt(a) == if a.page == page then DiskAt(a) else old(SeenAt(a)) {
          DropKeepsSeen(before, files, pageSize, found.value, pool[found.value], a);
        }
      }
    }

    method DiscardAllPages()
      requires Valid()
      modifies this`pool
      ensures Valid() && RoomNow() == old(RoomNow()).(held := {})
      ensures forall a :: SeenAt(a) == DiskAt(a)
    {
      var f := 0;
      ghost var before := pool;
      while f < capacity
        invariant f <= capacity && |pool| == capacity
        invariant forall g :: 0 <= g < f ==> pool[g] == Frame(INVALID_PAGE_ID, Zeros(pageSize), false)
        invariant forall g :: f <= g < capacity ==> pool[g] == before[g]
      {
        pool := pool[f := Frame(INVALID_PAGE_ID, Zeros(pageSize), false)];
        f := f + 1;
      }
    }
  }

  /** Loading a page from disk into an empty frame does not change what is seen. */
  lemma LoadKeepsSeen(pool: seq<Frame>, files: Files, pageSize: nat, f: nat, frame: Frame, a: Addr)
    requires f < |pool| && pool[f].pageId == INVALID_PAGE_ID && frame.pageId != INVALID_PAGE_ID
    requires OneFramePerPage(pool) && FrameOf(pool, frame.pageId).None? && |frame.data| == pageSize
    requires forall i :: 0 <= i < pageSize ==> frame.data[i] == DiskByte(files, pageSize, Addr(frame.pageId, i))
    ensures OneFramePerPage(pool[f := frame])
    ensures SeenByte(pool[f := frame], files, pageSize, a) == SeenByte(pool, files, pageSize, a)
  {
    var pool' := pool[f := frame];
    assert OneFramePerPage(pool');
    if a.page == frame.pageId {
      FrameOfUnique(pool', f);
    } else {
      match FrameOf(pool, a.page)
      case Some(g) => assert pool'[g] == pool[g]; FrameOfUnique(pool', g);
      case None => assert forall g :: 0 <= g < |pool| ==> pool'[g].pageId != a.page;
    }
  }

  lemma LoadHolds(pool: seq<Frame>, f: nat, frame: Frame)
    requires f < |pool| && pool[f].pageId == INVALID_PAGE_ID && frame.pageId != INVALID_PAGE_ID
    ensures HeldPages(pool[f := frame]) == HeldPages(pool) + {frame.pageId}
  {
    var pool' := pool[f := frame];
    forall page ensures page in HeldPages(pool') <==> page in HeldPages(pool) || page == frame.pageId {
      if page in HeldPages(pool) {
        var g :| 0 <= g < |pool| && pool[g].pageId == page && page != INVALID_PAGE_ID;
        assert pool'[g].pageId == page;
      }
      if page == frame.pageId {
        assert pool'[f].pageId == page;
      }
    }
  }

  lemma DropHolds(pool: seq<Frame>, f: nat, empty: Frame)
    requires OneFramePerPage(pool) && f < |pool| && pool[f].pageId != INVALID_PAGE_ID && empty.pageId == INVALID_PAGE_ID
    ensures HeldPages(pool[f := empty]) == HeldPages(pool) - {pool[f].pageId}
  {
    var pool' := pool[f := empty];
    forall page | page in HeldPages(pool) && page != pool[f].pageId ensures page in HeldPages(pool') {
      var g :| 0 <= g < |pool| && pool[g].pageId == page && page != INVALID_PAGE_ID;
      assert pool'[g].pageId == page;
    }
  }

  lemma SamePagesHeld(pool: seq<Frame>, pool': seq<Frame>)
    requires |pool'| == |pool| && forall f :: 0 <= f < |pool| ==> pool'[f].pageId == pool[f].pageId
    ensures HeldPages(pool') == HeldPages(pool)
  {
  }

  /** Changing the content of a resident page changes what is seen of that page only. */
  lemma ReplaceKeepsSeen(pool: seq<Frame>, files: Files, pageSize: nat, f: nat, frame: Frame, a: Addr)
    requires OneFramePerPage(pool) && f < |pool| && pool[f].pageId == frame.pageId != INVALID_PAGE_ID
    ensures OneFramePerPage(pool[f := frame])
    ensures SeenByte(pool[f := frame], files, pageSize, a)
         == if a.page == frame.pageId then (if a.off < pageSize then FileByte(frame.data, a.off) else 0)
            else SeenByte(pool, files, pageSize, a)
  {
    var pool' := pool[f := frame];
    assert forall g :: 0 <= g < |pool| ==> pool'[g].pageId == pool[g].pageId;
    if a.page == frame.pageId {
      FrameOfUnique(pool', f);
    } else {
      match FrameOf(pool, a.page)
      case Some(g) => assert pool'[g] == pool[g]; FrameOfUnique(pool', g);
      case None => assert forall g :: 0 <= g < |pool| ==> pool'[g].pageId != a.page;
    }
  }

  /** Emptying a frame leaves its page as it is on disk and all other pages alone. */
  lemma DropKeepsSeen(pool: seq<Frame>, files: Files, pageSize: nat, f: nat, empty: Frame, a: Addr)
    requires OneFramePerPage(pool) && f < |pool| && pool[f].pageId != INVALID_PAGE_ID && empty.pageId == INVALID_PAGE_ID
    ensures OneFramePerPage(pool[f := empty])
    ensures SeenByte(pool[f := empty], files, pageSize, a)
         == if a.page == pool[f].pageId then DiskByte(files, pageSize, a) else SeenByte(pool, files, pageSize, a)
  {
    var pool' := pool[f := empty];
    match FrameOf(pool, a.page)
    case Some(g) => if g != f { assert pool'[g] == pool[g]; FrameOfUnique(pool', g); }
    case None => assert forall g :: 0 <= g < |pool| ==> pool'[g].pageId != a.page;
  }
}
