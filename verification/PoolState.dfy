/** The transactional buffer pool as a value, the ideal store it implements, and why each
    pool operation keeps the two together. */
module PoolState {
  import opened Bytes
  import opened BufferPool
  import opened PageIds
  import opened FrameLocks
  import opened TwoPhase

  /** Frames, free frames in queue order, the page table, the pages each transaction fixed,
      and the segment files. */
  datatype Pool = Pool(frames: seq<Frame>, free: seq<nat>, pages: map<u64, nat>, txnPages: map<nat, set<u64>>,
      files: Files)

  /** The files at the start, the page contents committed since, and each transaction's
      private writes; and the resident pages that show something else, because the fault that
      loaded them left old bytes in the frame. */
  datatype Ideal = Ideal(initial: Files, committed: map<u64, seq<byte>>, work: map<(nat, u64), seq<byte>>,
      stale: set<u64>)

  // ---------- The ideal store ----------

  /** A page as its file holds it; bytes past the end count as zero. */
  function PageBytes(files: Files, pageSize: nat, p: u64): (b: seq<byte>)
    ensures |b| == pageSize
    ensures forall k :: 0 <= k < pageSize ==> b[k] == FileByte(FileOf(files, p), PagePos(p, pageSize) + k)
  {
    seq<byte>(pageSize, k requires 0 <= k < pageSize => FileByte(FileOf(files, p), PagePos(p, pageSize) + k))
  }

  /** They are the bytes of its segment's file from `page * pageSize` on, and no others. */
  lemma PageBytesOnFile(files: Files, pageSize: nat, p: u64, data: seq<byte>)
    ensures data == PageBytes(files, pageSize, p) <==> IsOnFile(files, pageSize, p, data)
  {
    DiskIsOnFile(files, pageSize, p, PageBytes(files, pageSize, p));
    if IsOnFile(files, pageSize, p, data) {
      var segment, page := SegmentOf(p), PageInSegment(p);
      PageIdRoundTrip(segment, page, p);
      assert OverallPageId(segment, page) == p;
      assert data == PageBytes(files, pageSize, p);
    }
  }

  function CommittedOf(i: Ideal, pageSize: nat, p: u64): seq<byte> {
    if p in i.committed then i.committed[p] else PageBytes(i.initial, pageSize, p)
  }

  function WriteIdeal(i: Ideal, t: nat, p: u64, data: seq<byte>): Ideal {
    i.(work := i.work[(t, p) := data], stale := i.stale - {p})
  }

  function CommitIdeal(i: Ideal, t: nat): Ideal {
    i.(committed := i.committed + (map p | p in WrittenBy(i, t) :: i.work[(t, p)]), work := OthersWork(i, t))
  }

  function WrittenBy(i: Ideal, t: nat): (pages: set<u64>)
    ensures forall p :: p in pages <==> (t, p) in i.work
  {
    var pages := set k | k in i.work && k.0 == t :: k.1;
    assert forall p :: (t, p) in i.work ==> (t, p).1 in pages;
    pages
  }

  /** The pages `t` fixed leave the pool, and with them its writes. */
  function AbortIdeal(i: Ideal, t: nat, pages: set<u64>): Ideal {
    i.(work := OthersWork(i, t), stale := i.stale - pages)
  }

  function OthersWork(i: Ideal, t: nat): map<(nat, u64), seq<byte>> {
    map k | k in i.work && k.0 != t :: i.work[k]
  }

  function FaultIdeal(i: Ideal, p: u64, clean: bool): Ideal {
    if clean then i else i.(stale := i.stale + {p})
  }

  /** What `t` should see on page `p`: its own writes, else the committed content. */
  function ReadIdeal(i: Ideal, pageSize: nat, t: nat, p: u64): seq<byte> {
    if (t, p) in i.work then i.work[(t, p)] else CommittedOf(i, pageSize, p)
  }

  // ---------- The pool ----------

  function PagesOf(txnPages: map<nat, set<u64>>, t: nat): set<u64> {
    if t in txnPages then txnPages[t] else {}
  }

  /** The whole page lies inside its file. */
  predicate OnFile(files: Files, pageSize: nat, p: u64) {
    PagePos(p, pageSize) + pageSize <= |FileOf(files, p)|
  }

  function DiskPage(files: Files, pageSize: nat, p: u64): seq<byte>
    requires OnFile(files, pageSize, p)
  {
    FileOf(files, p)[PagePos(p, pageSize)..PagePos(p, pageSize) + pageSize]
  }

  /** Where the file ends before the page does, the frame holds zeros. */
  predicate CleanFault(files: Files, pageSize: nat, p: u64, leftover: seq<byte>)
    requires |leftover| == pageSize
  {
    forall k :: 0 <= k < pageSize && |FileOf(files, p)| <= PagePos(p, pageSize) + k ==> leftover[k] == 0
  }

  /** A free frame is taken for the page; its old data is still in it. */
  function TakeFrame(s: Pool, p: u64): Pool
    requires s.free != [] && s.free[0] < |s.frames|
  {
    var f := s.free[0];
    s.(free := s.free[1..], pages := s.pages[p := f], frames := s.frames[f := s.frames[f].(pageId := p)])
  }

  /** `read_frame`: past the end of the file the data stays as it was. */
  function ReadFrame(s: Pool, pageSize: nat, f: nat): Pool
    requires f < |s.frames|
  {
    var frame := s.frames[f];
    s.(frames := s.frames[f := frame.(data := ReadBlock(FileOf(s.files, frame.pageId),
      PagePos(frame.pageId, pageSize), frame.data))])
  }

  function FlushOne(s: Pool, pageSize: nat, p: u64): Pool
    requires p in s.pages ==> s.pages[p] < |s.frames|
  {
    if p in s.pages && s.frames[s.pages[p]].dirty then
      var f := s.pages[p];
      s.(files := WritePage(s.files, pageSize, s.frames[f].pageId, s.frames[f].data),
         frames := s.frames[f := s.frames[f].(dirty := false)])
    else s
  }

  function DiscardOne(s: Pool, p: u64): Pool
    requires p in s.pages ==> s.pages[p] < |s.frames|
  {
    if p in s.pages then
      var f := s.pages[p];
      s.(frames := s.frames[f := s.frames[f].(pageId := INVALID_PAGE_ID, dirty := false)],
         pages := s.pages - {p}, free := s.free + [f])
    else s
  }

  // ---------- The invariant ----------

  /** Every frame is either free, once, or holds exactly one page of the table: all these
      frame numbers are different and there are as many as frames. */
  ghost predicate Partition(pages: map<u64, nat>, free: seq<nat>, frames: nat) {
    && (forall p :: p in pages ==> pages[p] < frames)
    && (forall i :: 0 <= i < |free| ==> free[i] < frames)
    && (forall p, q :: p in pages && q in pages && pages[p] == pages[q] ==> p == q)
    && (forall i, j :: 0 <= i < j < |free| ==> free[i] != free[j])
    && (forall p, i :: p in pages && 0 <= i < |free| ==> pages[p] != free[i])
    && |pages| + |free| == frames
  }

  ghost predicate FramesOk(frames: seq<Frame>, pages: map<u64, nat>, free: seq<nat>, pageSize: nat) {
    && (forall f :: 0 <= f < |frames| ==> |frames[f].data| == pageSize)
    && (forall p :: p in pages ==> pages[p] < |frames| && frames[pages[p]].pageId == p)
    && (forall i :: 0 <= i < |free| ==> free[i] < |frames| && !frames[free[i]].dirty)
  }

  /** What the resident frames hold, page by page. */
  ghost function Resident(s: Pool): map<u64, Frame>
    requires Partition(s.pages, s.free, |s.frames|)
  {
    ResidentOf(s.frames, s.pages)
  }

  ghost function ResidentOf(frames: seq<Frame>, pages: map<u64, nat>): map<u64, Frame>
    requires forall p :: p in pages ==> pages[p] < |frames|
  {
    map p | p in pages :: frames[pages[p]]
  }

  /** The disk holds the committed contents. */
  ghost predicate DiskIsCommitted(files: Files, i: Ideal, pageSize: nat) {
    forall p: u64 :: PageBytes(files, pageSize, p) == CommittedOf(i, pageSize, p)
  }

  /** A page that got a frame for a transaction whose lock request then failed: tracked, but
      neither locked nor read. */
  type Failed = Option<(nat, u64)>

  /** A clean resident page that was read holds the committed content, unless it is stale:
      then it holds something else. */
  ghost predicate CleanIsCommitted(resident: map<u64, Frame>, i: Ideal, pageSize: nat, bad: Failed) {
    && (forall p :: p in resident && !resident[p].dirty && !(bad.Some? && bad.value.1 == p) ==>
          (resident[p].data == CommittedOf(i, pageSize, p) <==> p !in i.stale))
    && (forall p :: p in i.stale ==> p in resident && !resident[p].dirty && !(bad.Some? && bad.value.1 == p))
  }

  /** A dirty page belongs to a transaction that wrote it. */
  ghost predicate DirtyIsOwned(resident: map<u64, Frame>, i: Ideal) {
    forall p :: p in resident && resident[p].dirty ==> exists t :: (t, p) in i.work
  }

  /** Private writes are in the pool, under an exclusive lock, and tracked. */
  ghost predicate WorkIsInPool(resident: map<u64, Frame>, i: Ideal, table: Table, txnPages: map<nat, set<u64>>) {
    forall t, p :: (t, p) in i.work ==>
      && p in resident && resident[p].dirty && resident[p].data == i.work[(t, p)]
      && HasMode(At(table, p), t, Exclusive) && p in PagesOf(txnPages, t)
  }

  ghost predicate TrackedIsLocked(txnPages: map<nat, set<u64>>, table: Table, bad: Failed) {
    forall t, p :: p in PagesOf(txnPages, t) && bad != Some((t, p)) ==> HasEntry(At(table, p), t)
  }

  ghost predicate FailedIsClean(resident: map<u64, Frame>, txnPages: map<nat, set<u64>>, bad: Failed) {
    bad.Some? ==> var (t, p) := bad.value; (p in resident ==> !resident[p].dirty) && p in PagesOf(txnPages, t)
  }

  ghost predicate Shape(s: Pool, pageSize: nat) {
    Partition(s.pages, s.free, |s.frames|) && FramesOk(s.frames, s.pages, s.free, pageSize)
  }

  /** The contents of the pool, the disk and the lock table fit the ideal store. */
  ghost predicate Contents(resident: map<u64, Frame>, files: Files, txnPages: map<nat, set<u64>>, table: Table,
      i: Ideal,
                           pageSize: nat, bad: Failed)
  {
    && DiskIsCommitted(files, i, pageSize) && CleanIsCommitted(resident, i, pageSize, bad) && DirtyIsOwned(resident, i)
    && WorkIsInPool(resident, i, table, txnPages) && TrackedIsLocked(txnPages, table, bad)
    && FailedIsClean(resident, txnPages, bad)
  }

  ghost predicate Inv(s: Pool, table: Table, i: Ideal, pageSize: nat, bad: Failed) {
    && Shape(s, pageSize) && AllSafe(table)
    && Contents(Resident(s), s.files, s.txnPages, table, i, pageSize, bad)
  }

  // ---------- The shape of the pool ----------

  lemma TakeShape(s: Pool, p: u64, pageSize: nat)
    requires Shape(s, pageSize) && p !in s.pages && s.free != []
    ensures var s' := TakeFrame(s, p);
      Shape(s', pageSize) && Resident(s') == Resident(s)[p := s.frames[s.free[0]].(pageId := p)]
      && !s.frames[s.free[0]].dirty
  {
    TakePartition(s.pages, s.free, |s.frames|, p);
    TakeFrames(s.frames, s.pages, s.free, pageSize, p);
    TakeResident(s.frames, s.pages, s.free[0], p, s.frames[s.free[0]].(pageId := p));
  }

  lemma TakeResident(frames: seq<Frame>, pages: map<u64, nat>, f: nat, p: u64, frame: Frame)
    requires f < |frames| && p !in pages && forall q :: q in pages ==> pages[q] < |frames| && pages[q] != f
    ensures ResidentOf(frames[f := frame], pages[p := f]) == ResidentOf(frames, pages)[p := frame]
  {
  }

  lemma TakeFrames(frames: seq<Frame>, pages: map<u64, nat>, free: seq<nat>, pageSize: nat, p: u64)
    requires FramesOk(frames, pages, free, pageSize) && Partition(pages, free, |frames|) && free != []
    ensures FramesOk(frames[free[0] := frames[free[0]].(pageId := p)], pages[p := free[0]], free[1..], pageSize)
  {
  }

  lemma TakePartition(pages: map<u64, nat>, free: seq<nat>, frames: nat, p: u64)
    requires Partition(pages, free, frames) && p !in pages && free != []
    ensures Partition(pages[p := free[0]], free[1..], frames)
  {
    assert pages[p := free[0]].Keys == pages.Keys + {p};
  }

  lemma UpdateShape(s: Pool, p: u64, frame: Frame, pageSize: nat)
    requires Shape(s, pageSize) && p in s.pages && frame.pageId == p && |frame.data| == pageSize
    ensures var s' := s.(frames := s.frames[s.pages[p] := frame]);
      Shape(s', pageSize) && Resident(s') == Resident(s)[p := frame]
  {
  }

  lemma DiscardShape(s: Pool, p: u64, pageSize: nat)
    requires Shape(s, pageSize) && p in s.pages
    ensures var s' := DiscardOne(s, p); Shape(s', pageSize) && Resident(s') == Resident(s) - {p}
  {
    hide FramesOk;
    DiscardPartition(s.pages, s.free, |s.frames|, p);
    DiscardFrames(s.frames, s.pages, s.free, pageSize, p);
    assert Resident(DiscardOne(s, p)) == Resident(s) - {p};
  }

  lemma DiscardFrames(frames: seq<Frame>, pages: map<u64, nat>, free: seq<nat>, pageSize: nat, p: u64)
    requires FramesOk(frames, pages, free, pageSize) && Partition(pages, free, |frames|) && p in pages
    ensures var f := pages[p];
      FramesOk(frames[f := frames[f].(pageId := INVALID_PAGE_ID, dirty := false)], pages - {p}, free + [f], pageSize)
  {
  }

  lemma DiscardPartition(pages: map<u64, nat>, free: seq<nat>, frames: nat, p: u64)
    requires Partition(pages, free, frames) && p in pages
    ensures Partition(pages - {p}, free + [pages[p]], frames)
  {
    var pages', free' := pages - {p}, free + [pages[p]];
    SizeMinus(pages, p);
    forall q | q in pages' ensures q in pages && pages'[q] == pages[q] != pages[p] {}
    forall i | 0 <= i < |free'| ensures free'[i] == (if i < |free| then free[i] else pages[p]) {}
  }

  lemma SizeMinus(pages: map<u64, nat>, p: u64)
    requires p in pages
    ensures |pages - {p}| == |pages| - 1
  {
    assert (pages - {p}).Keys == pages.Keys - {p};
  }

  // ---------- The disk ----------

  lemma WriteDisk(files: Files, pageSize: nat, p: u64, data: seq<byte>, q: u64)
    requires |data| == pageSize
    ensures PageBytes(WritePage(files, pageSize, p, data), pageSize, q) == if q == p then data
      else PageBytes(files, pageSize, q)
  {
    var files' := WritePage(files, pageSize, p, data);
    if SegmentOf(q) == SegmentOf(p) && q != p {
      PagesApart(p, q, pageSize);
    }
    forall k | 0 <= k < pageSize
      ensures PageBytes(files', pageSize, q)[k] == if q == p then data[k] else PageBytes(files, pageSize, q)[k]
    {
      assert PageBytes(files', pageSize, q)[k] == FileByte(FileOf(files', q), PagePos(q, pageSize) + k);
    }
  }

  lemma PagesApart(p: u64, q: u64, pageSize: nat)
    requires SegmentOf(q) == SegmentOf(p) && p != q
    ensures PagePos(q, pageSize) + pageSize <= PagePos(p, pageSize)
         || PagePos(p, pageSize) + pageSize <= PagePos(q, pageSize)
  {
    var i, j := PageInSegment(p), PageInSegment(q);
    assert i != j;
    var k := if i < j then j - i else i - j;
    MultipleAtLeast(k, pageSize);
    Distributes(if i < j then i else j, k, pageSize);
  }

  /** A page fault shows what the file holds exactly if it is clean. */
  lemma FaultIff(files: Files, pageSize: nat, p: u64, leftover: seq<byte>)
    requires |leftover| == pageSize
    ensures ReadBlock(FileOf(files, p), PagePos(p, pageSize), leftover) == PageBytes(files, pageSize, p)
        <==> CleanFault(files, pageSize, p, leftover)
  {
    var read, page := ReadBlock(FileOf(files, p), PagePos(p, pageSize), leftover), PageBytes(files, pageSize, p);
    if CleanFault(files, pageSize, p, leftover) {
      assert read == page;
    } else {
      var k :| 0 <= k < pageSize && |FileOf(files, p)| <= PagePos(p, pageSize) + k && leftover[k] != 0;
      assert read[k] != page[k];
    }
  }

  /** A page that lies in its file is a slice of it. */
  lemma OnFileIsSlice(files: Files, pageSize: nat, p: u64)
    requires OnFile(files, pageSize, p)
    ensures PageBytes(files, pageSize, p) == DiskPage(files, pageSize, p)
  {
  }

  // ---------- Contents ----------

  lemma TrackContents(resident: map<u64, Frame>, files: Files, txnPages: map<nat, set<u64>>, table: Table, i: Ideal,
                      pageSize: nat, t: nat, p: u64)
    requires Contents(resident, files, txnPages, table, i, pageSize, None) && HasEntry(At(table, p), t)
    ensures Contents(resident, files, txnPages[t := PagesOf(txnPages, t) + {p}], table, i, pageSize, None)
  {
    hide PageBytes;
  }

  lemma GrantContents(resident: map<u64, Frame>, files: Files, txnPages: map<nat, set<u64>>, table: Table,
      table': Table,
                      i: Ideal, pageSize: nat, t: nat, bad: Failed)
    requires Contents(resident, files, txnPages, table, i, pageSize, bad) && Grew(table, table', t)
    ensures Contents(resident, files, txnPages, table', i, pageSize, bad)
  {
    forall u, p | HasEntry(At(table, p), u) ensures HasEntry(At(table', p), u) { GrewEntry(table, table', t, p, u); }
    forall u, p | HasMode(At(table, p), u, Exclusive) ensures HasMode(At(table', p), u, Exclusive) {
      GrewEntry(table, table', t, p, u);
    }
  }

  lemma GrewEntry(table: Table, table': Table, t: nat, p: nat, u: nat)
    requires Grew(table, table', t)
    ensures HasEntry(At(table, p), u) ==> HasEntry(At(table', p), u)
    ensures HasMode(At(table, p), u, Exclusive) ==> HasMode(At(table', p), u, Exclusive)
  {
    EntryIsMode(At(table, p), u);
    EntryIsMode(At(table', p), u);
    assert OthersKept(At(table, p), At(table', p), t);
    assert Covers(At(table, p), t, Exclusive) ==> Covers(At(table', p), t, Exclusive);
    assert Covers(At(table, p), t, Shared) ==> Covers(At(table', p), t, Shared);
  }

  /** A frame for an absent page, before the lock request. */
  lemma TakeContents(resident: map<u64, Frame>, files: Files, txnPages: map<nat, set<u64>>, table: Table, i: Ideal,
                     pageSize: nat, t: nat, p: u64, frame: Frame)
    requires Contents(resident, files, txnPages, table, i, pageSize, None) && p !in resident && !frame.dirty
    ensures Contents(resident[p := frame], files, txnPages[t := PagesOf(txnPages, t) + {p}], table, i, pageSize,
      Some((t, p)))
  {
    hide PageBytes;
  }

  /** After the lock is granted, the read makes the page usable; an unclean one makes it stale. */
  lemma ReadContents(resident: map<u64, Frame>, files: Files, txnPages: map<nat, set<u64>>, table: Table, i: Ideal,
                     pageSize: nat, t: nat, p: u64, frame: Frame, clean: bool)
    requires Contents(resident, files, txnPages, table, i, pageSize, Some((t, p))) && HasEntry(At(table, p), t)
    requires !frame.dirty && (clean <==> frame.data == PageBytes(files, pageSize, p))
    ensures Contents(resident[p := frame], files, txnPages, table, FaultIdeal(i, p, clean), pageSize, None)
  {
    hide PageBytes;
  }

  /** Only one transaction can have written a page on which `t` has an entry: `t`. */
  lemma OwnWork(resident: map<u64, Frame>, txnPages: map<nat, set<u64>>, table: Table, i: Ideal, t: nat, p: u64, u: nat)
    requires WorkIsInPool(resident, i, table, txnPages) && AllSafe(table)
    requires HasEntry(At(table, p), t) && (u, p) in i.work
    ensures u == t
  {
    EntryIsMode(At(table, p), t);
    assert Safe(At(table, p));
    assert Covers(At(table, p), t, Shared) && Covers(At(table, p), u, Exclusive);
    if u != t {
      SafeExcludes(At(table, p), t, u, Shared, Exclusive);
    }
  }

  lemma WriteContents(resident: map<u64, Frame>, files: Files, txnPages: map<nat, set<u64>>, table: Table, i: Ideal,
                      pageSize: nat, t: nat, p: u64, frame: Frame)
    requires Contents(resident, files, txnPages, table, i, pageSize, None) && AllSafe(table)
    requires p in resident && p in PagesOf(txnPages, t) && HasMode(At(table, p), t, Exclusive) && frame.dirty
    ensures Contents(resident[p := frame], files, txnPages, table, WriteIdeal(i, t, p, frame.data), pageSize, None)
  {
    hide PageBytes, AllSafe, DiskIsCommitted, CleanIsCommitted, DirtyIsOwned;
    EntryIsMode(At(table, p), t);
    forall u | (u, p) in i.work ensures u == t { OwnWork(resident, txnPages, table, i, t, p, u); }
    WriteClean(resident, files, i, pageSize, t, p, frame);
    WriteWork(resident, i, table, txnPages, t, p, frame);
  }

  lemma WriteClean(resident: map<u64, Frame>, files: Files, i: Ideal, pageSize: nat, t: nat, p: u64, frame: Frame)
    requires DiskIsCommitted(files, i, pageSize) && CleanIsCommitted(resident, i, pageSize, None) && frame.dirty
    ensures DiskIsCommitted(files, WriteIdeal(i, t, p, frame.data), pageSize)
    ensures CleanIsCommitted(resident[p := frame], WriteIdeal(i, t, p, frame.data), pageSize, None)
  {
    var i' := WriteIdeal(i, t, p, frame.data);
    forall q: u64 ensures CommittedOf(i', pageSize, q) == CommittedOf(i, pageSize, q) {}
  }

  lemma WriteWork(resident: map<u64, Frame>, i: Ideal, table: Table, txnPages: map<nat, set<u64>>, t: nat, p: u64,
                  frame: Frame)
    requires DirtyIsOwned(resident, i) && WorkIsInPool(resident, i, table, txnPages) && frame.dirty
    requires HasMode(At(table, p), t, Exclusive) && p in PagesOf(txnPages, t)
    requires forall u :: (u, p) in i.work ==> u == t
    ensures DirtyIsOwned(resident[p := frame], WriteIdeal(i, t, p, frame.data))
    ensures WorkIsInPool(resident[p := frame], WriteIdeal(i, t, p, frame.data), table, txnPages)
  {
    var i' := WriteIdeal(i, t, p, frame.data);
    assert (t, p) in i'.work;
    forall q | q in resident && q != p && resident[q].dirty ensures exists v :: (v, q) in i'.work {
      var v :| (v, q) in i.work;
      assert (v, q) in i'.work;
    }
  }

  /** One page of a committing transaction reaches the disk. */
  function PublishOne(i: Ideal, t: nat, p: u64): Ideal {
    if (t, p) in i.work then i.(committed := i.committed[p := i.work[(t, p)]], work := i.work - {(t, p)}) else i
  }

  lemma PublishContents(resident: map<u64, Frame>, files: Files, txnPages: map<nat, set<u64>>, table: Table, i: Ideal,
                        pageSize: nat, t: nat, p: u64)
    requires Contents(resident, files, txnPages, table, i, pageSize, None) && AllSafe(table)
    requires p in PagesOf(txnPages, t) && p in resident && resident[p].dirty && |resident[p].data| == pageSize
    ensures (t, p) in i.work
    ensures Contents(resident[p := resident[p].(dirty := false)], WritePage(files, pageSize, p, resident[p].data),
      txnPages,
                     table, PublishOne(i, t, p), pageSize, None)
  {
    assert HasEntry(At(table, p), t);
    var u :| (u, p) in i.work;
    forall v | (v, p) in i.work ensures v == t { OwnWork(resident, txnPages, table, i, t, p, v); }
    PublishDisk(files, i, pageSize, t, p, resident[p].data);
    PublishClean(resident, i, pageSize, t, p);
    PublishWork(resident, i, table, txnPages, t, p);
  }

  lemma PublishDisk(files: Files, i: Ideal, pageSize: nat, t: nat, p: u64, data: seq<byte>)
    requires DiskIsCommitted(files, i, pageSize) && (t, p) in i.work && i.work[(t, p)] == data && |data| == pageSize
    ensures DiskIsCommitted(WritePage(files, pageSize, p, data), PublishOne(i, t, p), pageSize)
  {
    var i' := PublishOne(i, t, p);
    forall q: u64 ensures PageBytes(WritePage(files, pageSize, p, data), pageSize, q) == CommittedOf(i', pageSize, q) {
      assert PageBytes(files, pageSize, q) == CommittedOf(i, pageSize, q);
      WriteDisk(files, pageSize, p, data, q);
    }
  }

  lemma PublishClean(resident: map<u64, Frame>, i: Ideal, pageSize: nat, t: nat, p: u64)
    requires CleanIsCommitted(resident, i, pageSize, None) && p in resident && resident[p].dirty
    requires (t, p) in i.work && i.work[(t, p)] == resident[p].data
    ensures CleanIsCommitted(resident[p := resident[p].(dirty := false)], PublishOne(i, t, p), pageSize, None)
  {
    var i', resident' := PublishOne(i, t, p), resident[p := resident[p].(dirty := false)];
    forall q | q in resident' && !resident'[q].dirty
      ensures resident'[q].data == CommittedOf(i', pageSize, q) <==> q !in i'.stale
    {
      assert q != p ==> CommittedOf(i', pageSize, q) == CommittedOf(i, pageSize, q);
    }
  }

  lemma PublishWork(resident: map<u64, Frame>, i: Ideal, table: Table, txnPages: map<nat, set<u64>>, t: nat, p: u64)
    requires DirtyIsOwned(resident, i) && WorkIsInPool(resident, i, table, txnPages) && p in resident
    requires (t, p) in i.work && forall v :: (v, p) in i.work ==> v == t
    ensures var i', resident' := PublishOne(i, t, p), resident[p := resident[p].(dirty := false)];
      DirtyIsOwned(resident', i') && WorkIsInPool(resident', i', table, txnPages)
  {
    var i' := PublishOne(i, t, p);
    forall q | q in resident && q != p && resident[q].dirty ensures exists v :: (v, q) in i'.work {
      var v :| (v, q) in i.work;
      assert (v, q) in i'.work;
    }
  }

  function DropOne(i: Ideal, t: nat, p: u64): Ideal {
    i.(work := i.work - {(t, p)}, stale := i.stale - {p})
  }

  lemma DropContents(resident: map<u64, Frame>, files: Files, txnPages: map<nat, set<u64>>, table: Table, i: Ideal,
                     pageSize: nat, t: nat, p: u64, bad: Failed)
    requires Contents(resident, files, txnPages, table, i, pageSize, bad) && AllSafe(table)
    requires p in PagesOf(txnPages, t) && (bad.Some? ==> bad.value.0 == t)
    ensures Contents(resident - {p}, files, txnPages, table, DropOne(i, t, p), pageSize, bad)
  {
    hide PageBytes, AllSafe, CleanIsCommitted, DirtyIsOwned;
    assert bad != Some((t, p)) ==> HasEntry(At(table, p), t);
    forall u | (u, p) in i.work ensures u == t {
      assert resident[p].dirty;
      OwnWork(resident, txnPages, table, i, t, p, u);
    }
    DropClean(resident, i, pageSize, t, p, bad);
    DropWork(resident, i, table, txnPages, t, p);
  }

  lemma DropClean(resident: map<u64, Frame>, i: Ideal, pageSize: nat, t: nat, p: u64, bad: Failed)
    requires CleanIsCommitted(resident, i, pageSize, bad)
    ensures CleanIsCommitted(resident - {p}, DropOne(i, t, p), pageSize, bad)
  {
    var i' := DropOne(i, t, p);
    forall q | q in resident - {p} ensures CommittedOf(i', pageSize, q) == CommittedOf(i, pageSize, q) {}
  }

  lemma DropWork(resident: map<u64, Frame>, i: Ideal, table: Table, txnPages: map<nat, set<u64>>, t: nat, p: u64)
    requires DirtyIsOwned(resident, i) && WorkIsInPool(resident, i, table, txnPages)
    requires forall u :: (u, p) in i.work ==> u == t
    ensures DirtyIsOwned(resident - {p}, DropOne(i, t, p))
    ensures WorkIsInPool(resident - {p}, DropOne(i, t, p), table, txnPages)
  {
    forall q | q in resident && q != p && resident[q].dirty ensures exists v :: (v, q) in DropOne(i, t, p).work {
      var v :| (v, q) in i.work;
      assert (v, q) in DropOne(i, t, p).work;
    }
  }

  /** A transaction that has a lock entry on a resident page sees what the ideal store says
      exactly if the page is not stale. */
  lemma SeesIdeal(resident: map<u64, Frame>, files: Files, txnPages: map<nat, set<u64>>, table: Table, i: Ideal,
                  pageSize: nat, t: nat, p: u64)
    requires Contents(resident, files, txnPages, table, i, pageSize, None) && AllSafe(table)
    requires p in resident && HasEntry(At(table, p), t)
    ensures resident[p].data == ReadIdeal(i, pageSize, t, p) <==> p !in i.stale
  {
    if (t, p) !in i.work && resident[p].dirty {
      var u :| (u, p) in i.work;
      OwnWork(resident, txnPages, table, i, t, p, u);
      assert false;
    }
  }

  /** A transaction without private writes leaves: its locks and its page list go. */
  lemma EndContents(resident: map<u64, Frame>, files: Files, txnPages: map<nat, set<u64>>, table: Table, table': Table,
                    i: Ideal, pageSize: nat, t: nat, bad: Failed)
    requires Contents(resident, files, txnPages, table, i, pageSize, bad)
    requires forall k :: k in i.work ==> k.0 != t
    requires bad.Some? ==> bad.value.0 == t && bad.value.1 !in resident
    requires forall q :: OthersKept(At(table, q), At(table', q), t)
    ensures Contents(resident, files, txnPages - {t}, table', i, pageSize, None)
  {
    hide PageBytes;
    EndTracked(txnPages, table, table', t, bad);
    EndWork(resident, txnPages, table, table', i, t);
    assert FailedIsClean(resident, txnPages - {t}, None);
  }

  lemma EndTracked(txnPages: map<nat, set<u64>>, table: Table, table': Table, t: nat, bad: Failed)
    requires TrackedIsLocked(txnPages, table, bad) && (bad.Some? ==> bad.value.0 == t)
    requires forall q :: OthersKept(At(table, q), At(table', q), t)
    ensures TrackedIsLocked(txnPages - {t}, table', None)
  {
    forall u, p | p in PagesOf(txnPages - {t}, u) ensures HasEntry(At(table', p), u) {
      assert p in PagesOf(txnPages, u);
      KeptEntry(table, table', t, p, u);
    }
  }

  lemma EndWork(resident: map<u64, Frame>, txnPages: map<nat, set<u64>>, table: Table, table': Table, i: Ideal, t: nat)
    requires WorkIsInPool(resident, i, table, txnPages) && forall k :: k in i.work ==> k.0 != t
    requires forall q :: OthersKept(At(table, q), At(table', q), t)
    ensures WorkIsInPool(resident, i, table', txnPages - {t})
  {
    forall u, p | (u, p) in i.work ensures HasMode(At(table', p), u, Exclusive) && p in PagesOf(txnPages - {t}, u) {
      assert (u, p).0 != t;
      KeptEntry(table, table', t, p, u);
    }
  }

  lemma KeptEntry(table: Table, table': Table, t: nat, p: nat, u: nat)
    requires u != t && OthersKept(At(table, p), At(table', p), t)
    ensures HasEntry(At(table, p), u) ==> HasEntry(At(table', p), u)
    ensures HasMode(At(table, p), u, Exclusive) ==> HasMode(At(table', p), u, Exclusive)
  {
    EntryIsMode(At(table, p), u);
    EntryIsMode(At(table', p), u);
  }

  // ---------- Committing page by page ----------

  /** `t`'s writes to the pages in `done` are committed, the others still private. */
  ghost predicate Published(before: Ideal, now: Ideal, t: nat, done: set<u64>) {
    && now.initial == before.initial && now.stale == before.stale
    && (forall k :: k in now.work <==> k in before.work && !(k.0 == t && k.1 in done))
    && (forall k :: k in now.work ==> now.work[k] == before.work[k])
    && (forall p :: p in now.committed <==> p in before.committed || (p in done && (t, p) in before.work))
    && (forall p :: p in now.committed ==>
          now.committed[p] == if p in done && (t, p) in before.work then before.work[(t, p)] else before.committed[p])
  }

  lemma PublishNext(before: Ideal, now: Ideal, t: nat, done: set<u64>, p: u64)
    requires Published(before, now, t, done) && p !in done
    ensures Published(before, PublishOne(now, t, p), t, done + {p})
  {
  }

  lemma PublishedAll(before: Ideal, now: Ideal, t: nat, done: set<u64>)
    requires Published(before, now, t, done) && forall k :: k in before.work && k.0 == t ==> k.1 in done
    ensures now == CommitIdeal(before, t)
  {
    assert now.work == OthersWork(before, t);
    forall p | (t, p) in before.work ensures p in done {
      assert (t, p).1 == p;
    }
    var own := map p | p in WrittenBy(before, t) :: before.work[(t, p)];
    MergeIs(before.committed, own, now.committed);
  }

  lemma MergeIs(base: map<u64, seq<byte>>, own: map<u64, seq<byte>>, merged: map<u64, seq<byte>>)
    requires forall p :: p in merged <==> p in base || p in own
    requires forall p :: p in merged ==> merged[p] == if p in own then own[p] else base[p]
    ensures merged == base + own
  {
  }

  lemma PublishedNone(i: Ideal, t: nat)
    ensures Published(i, i, t, {})
  {
  }

  /** `t`'s writes to the pages in `done` are dropped. */
  ghost predicate Dropped(before: Ideal, now: Ideal, t: nat, done: set<u64>) {
    && now.initial == before.initial && now.committed == before.committed && now.stale == before.stale - done
    && (forall k :: k in now.work <==> k in before.work && !(k.0 == t && k.1 in done))
    && (forall k :: k in now.work ==> now.work[k] == before.work[k])
  }

  lemma DroppedNone(i: Ideal, t: nat)
    ensures Dropped(i, i, t, {})
  {
  }

  lemma DropNext(before: Ideal, now: Ideal, t: nat, done: set<u64>, p: u64)
    requires Dropped(before, now, t, done)
    ensures Dropped(before, DropOne(now, t, p), t, done + {p})
  {
  }

  lemma DroppedAll(before: Ideal, now: Ideal, t: nat, done: set<u64>)
    requires Dropped(before, now, t, done) && forall k :: k in before.work && k.0 == t ==> k.1 in done
    ensures now == AbortIdeal(before, t, done)
  {
    assert now.work == AbortIdeal(before, t, done).work;
  }

  // ---------- Whole-state versions ----------

  function Track(s: Pool, t: nat, p: u64): Pool {
    s.(txnPages := s.txnPages[t := PagesOf(s.txnPages, t) + {p}])
  }

  function SetFrame(s: Pool, p: u64, frame: Frame): Pool
    requires p in s.pages && s.pages[p] < |s.frames|
  {
    s.(frames := s.frames[s.pages[p] := frame])
  }

  lemma TrackInv(s: Pool, table: Table, i: Ideal, pageSize: nat, t: nat, p: u64)
    requires Inv(s, table, i, pageSize, None) && HasEntry(At(table, p), t)
    ensures Inv(Track(s, t, p), table, i, pageSize, None)
  {
    TrackContents(Resident(s), s.files, s.txnPages, table, i, pageSize, t, p);
  }

  lemma GrantInv(s: Pool, table: Table, table': Table, i: Ideal, pageSize: nat, t: nat, bad: Failed)
    requires Inv(s, table, i, pageSize, bad) && AllSafe(table') && Grew(table, table', t)
    ensures Inv(s, table', i, pageSize, bad)
  {
    GrantContents(Resident(s), s.files, s.txnPages, table, table', i, pageSize, t, bad);
  }

  lemma TakeInv(s: Pool, table: Table, i: Ideal, pageSize: nat, t: nat, p: u64)
    requires Inv(s, table, i, pageSize, None) && p !in s.pages && s.free != []
    ensures s.free[0] < |s.frames| && Inv(Track(TakeFrame(s, p), t, p), table, i, pageSize, Some((t, p)))
  {
    hide DiskIsCommitted, CleanIsCommitted, DirtyIsOwned, WorkIsInPool, TrackedIsLocked, FailedIsClean, AllSafe;
    TakeShape(s, p, pageSize);
    TakeContents(Resident(s), s.files, s.txnPages, table, i, pageSize, t, p, s.frames[s.free[0]].(pageId := p));
  }

  lemma ReadInv(s: Pool, table: Table, i: Ideal, pageSize: nat, t: nat, p: u64)
    requires Inv(s, table, i, pageSize, Some((t, p))) && HasEntry(At(table, p), t) && p in s.pages
    ensures s.pages[p] < |s.frames| && |s.frames[s.pages[p]].data| == pageSize
    ensures var clean := CleanFault(s.files, pageSize, p, s.frames[s.pages[p]].data);
      Inv(ReadFrame(s, pageSize, s.pages[p]), table, FaultIdeal(i, p, clean), pageSize, None)
  {
    hide DiskIsCommitted, CleanIsCommitted, DirtyIsOwned, WorkIsInPool, TrackedIsLocked, AllSafe;
    var f := s.pages[p];
    var frame := ReadFrame(s, pageSize, f).frames[f];
    FaultIff(s.files, pageSize, p, s.frames[f].data);
    UpdateShape(s, p, frame, pageSize);
    ReadContents(Resident(s), s.files, s.txnPages, table, i, pageSize, t, p, frame,
                 CleanFault(s.files, pageSize, p, s.frames[f].data));
  }

  lemma WriteInv(s: Pool, table: Table, i: Ideal, pageSize: nat, t: nat, p: u64, frame: Frame)
    requires Inv(s, table, i, pageSize, None) && p in s.pages && frame.pageId == p && |frame.data| == pageSize &&
      frame.dirty
    requires HasMode(At(table, p), t, Exclusive) && p in PagesOf(s.txnPages, t)
    ensures Inv(SetFrame(s, p, frame), table, WriteIdeal(i, t, p, frame.data), pageSize, None)
  {
    hide DiskIsCommitted, CleanIsCommitted, DirtyIsOwned, WorkIsInPool, TrackedIsLocked, FailedIsClean, AllSafe;
    UpdateShape(s, p, frame, pageSize);
    WriteContents(Resident(s), s.files, s.txnPages, table, i, pageSize, t, p, frame);
  }

  lemma PageHasFrame(s: Pool, table: Table, i: Ideal, pageSize: nat, p: u64)
    requires Inv(s, table, i, pageSize, None) && p in s.pages
    ensures s.pages[p] < |s.frames| && s.frames[s.pages[p]].pageId == p
  {
  }

  lemma FlushInv(s: Pool, table: Table, i: Ideal, pageSize: nat, t: nat, p: u64)
    requires Inv(s, table, i, pageSize, None) && p in PagesOf(s.txnPages, t)
    ensures p in s.pages ==> s.pages[p] < |s.frames|
    ensures Inv(FlushOne(s, pageSize, p), table, PublishOne(i, t, p), pageSize, None)
  {
    hide DiskIsCommitted, CleanIsCommitted, DirtyIsOwned, WorkIsInPool, TrackedIsLocked, FailedIsClean, AllSafe;
    if p in s.pages && s.frames[s.pages[p]].dirty {
      var frame := s.frames[s.pages[p]];
      PublishContents(Resident(s), s.files, s.txnPages, table, i, pageSize, t, p);
      UpdateShape(s, p, frame.(dirty := false), pageSize);
    } else {
      NoOwnWork(Resident(s), i, table, s.txnPages, t, p);
    }
  }

  lemma NoOwnWork(resident: map<u64, Frame>, i: Ideal, table: Table, txnPages: map<nat, set<u64>>, t: nat, p: u64)
    requires WorkIsInPool(resident, i, table, txnPages) && (p in resident ==> !resident[p].dirty)
    ensures (t, p) !in i.work
  {
  }

  lemma DiscardInv(s: Pool, table: Table, i: Ideal, pageSize: nat, t: nat, p: u64, bad: Failed)
    requires Inv(s, table, i, pageSize, bad) && p in PagesOf(s.txnPages, t) && (bad.Some? ==> bad.value.0 == t)
    ensures p in s.pages ==> s.pages[p] < |s.frames|
    ensures Inv(DiscardOne(s, p), table, DropOne(i, t, p), pageSize, bad)
  {
    hide DiskIsCommitted, CleanIsCommitted, DirtyIsOwned, WorkIsInPool, TrackedIsLocked, FailedIsClean, AllSafe;
    DropContents(Resident(s), s.files, s.txnPages, table, i, pageSize, t, p, bad);
    if p in s.pages {
      DiscardShape(s, p, pageSize);
    } else {
      assert Resident(s) - {p} == Resident(s);
    }
  }

  lemma EndInv(s: Pool, table: Table, table': Table, i: Ideal, pageSize: nat, t: nat, bad: Failed)
    requires Inv(s, table, i, pageSize, bad) && AllSafe(table')
    requires forall k :: k in i.work ==> k.0 != t
    requires bad.Some? ==> bad.value.0 == t && bad.value.1 !in s.pages
    requires forall q :: OthersKept(At(table, q), At(table', q), t)
    ensures Inv(s.(txnPages := s.txnPages - {t}), table', i, pageSize, None)
  {
    EndContents(Resident(s), s.files, s.txnPages, table, table', i, pageSize, t, bad);
  }

  /** A fixed page shows its transaction what the ideal store says exactly if it is not stale. */
  lemma SeesIdealInv(s: Pool, table: Table, i: Ideal, pageSize: nat, t: nat, p: u64)
    requires Inv(s, table, i, pageSize, None) && p in s.pages && HasEntry(At(table, p), t)
    ensures s.pages[p] < |s.frames|
    ensures s.frames[s.pages[p]].data == ReadIdeal(i, pageSize, t, p) <==> p !in i.stale
  {
    SeesIdeal(Resident(s), s.files, s.txnPages, table, i, pageSize, t, p);
  }

  /** A clean page that was read shows what the disk holds exactly if it is not stale. */
  lemma CleanShowsDisk(s: Pool, table: Table, i: Ideal, pageSize: nat, p: u64)
    requires Inv(s, table, i, pageSize, None) && p in s.pages
    ensures s.pages[p] < |s.frames|
    ensures !s.frames[s.pages[p]].dirty ==>
      (s.frames[s.pages[p]].data == PageBytes(s.files, pageSize, p) <==> p !in i.stale)
  {
    assert PageBytes(s.files, pageSize, p) == CommittedOf(i, pageSize, p);
  }

  /** Every page a transaction wrote is on its list. */
  lemma WorkIsTracked(s: Pool, table: Table, i: Ideal, pageSize: nat, bad: Failed, t: nat)
    requires Inv(s, table, i, pageSize, bad)
    ensures forall k :: k in i.work && k.0 == t ==> k.1 in PagesOf(s.txnPages, t)
  {
    forall k | k in i.work && k.0 == t ensures k.1 in PagesOf(s.txnPages, t) {
      assert (t, k.1) in i.work;
    }
  }
}
