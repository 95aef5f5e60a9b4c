/** The transactional buffer manager: pages are locked when fixed, locks are held to the end
    of the transaction, commit flushes, abort discards. */
module LockingPool {
  import opened Bytes
  import opened BufferPool
  import opened FrameLocks
  import opened TwoPhase
  import opened LockManagement
  import opened PoolState

  const INVALID_TXN_ID: nat := 0xFFFF_FFFF_FFFF_FFFF

  datatype FixResult = Fixed(frame: nat) | BufferFull | Aborted

  class TransactionalBuffer {
    const capacity: nat
    const pageSize: nat
    const locks: LockManager
    var frames: seq<Frame>
    var free: seq<nat>
    var pages: map<u64, nat>
    var txnPages: map<nat, set<u64>>
    var files: Files
    ghost var ideal: Ideal

    ghost function Now(): Pool
      reads this
    {
      Pool(frames, free, pages, txnPages, files)
    }

    /** The pool implements the ideal store. */
    ghost predicate Implements(table: Table, bad: Failed)
      reads this
    {
      |frames| == capacity && Inv(Now(), table, ideal, pageSize, bad)
    }

    ghost predicate Valid()
      reads this, locks, locks.pageLocks.Values
    {
      locks.Valid() && Implements(locks.table, None)
    }

    /** Everything on disk at the start counts as committed. */
    constructor (pageSize: nat, capacity: nat, files: Files)
      ensures Valid() && ideal == Ideal(files, map[], map[], {}) && this.files == files && this.pageSize == pageSize
      ensures fresh(locks) && fresh(locks.pageLocks.Values) && locks.history == []
      ensures pages == map[] && |free| == |frames| == capacity && this.capacity == capacity && locks.table == map[]
      ensures free == seq(capacity, i => i) && forall f :: 0 <= f < capacity ==> frames[f].data == Zeros(pageSize)
    {
      this.pageSize, this.capacity, this.files := pageSize, capacity, files;
      locks := new LockManager();
      frames := seq(capacity, _ => Frame(INVALID_PAGE_ID, Zeros(pageSize), false));
      free := seq(capacity, i => i);
      pages, txnPages := map[], map[];
      ideal := Ideal(files, map[], map[], {});
    }

    /** `acquire_lock` as the pool calls it: nothing else happens to the locks meanwhile, so a
        wait can only end in a timeout. */
    method Lock(t: nat, p: nat, mode: LockMode) returns (ok: bool)
      requires locks.Valid()
      modifies locks, locks.pageLocks.Values
      ensures locks.Valid() && AllSafe(locks.table) && fresh(locks.pageLocks.Values - old(locks.pageLocks.Values))
      ensures ok <==> !Conflict(At(old(locks.table), p), t, mode)
      ensures ok ==> GrantedTo(old(locks.table), locks.table, t, p, mode)
      ensures ok ==> locks.history == old(locks.history) + [Access(t, p, mode)]
      ensures !ok ==> SameTable(old(locks.table), locks.table) && locks.history == old(locks.history)
    {
      var r := locks.AcquireLock(t, p, mode);
      ok := r == Acquired;
      if r.Waiting? {
        ok := locks.ResumeAcquire(t, p, mode, r.upgrade);
      }
    }

    /** Fixes a page for a transaction. It fails when no frame is left. A shared fix also fails
        when another transaction has an exclusive entry on the page, an exclusive fix when
        another transaction has any. A fixed page shows the transaction its own writes, else
        the committed content, which is what the disk holds, unless the page is stale: then it
        shows something else. A page becomes stale exactly when a fault loads it into a frame
        that holds other bytes than zero where the file ends before the page does. */
    method FixPage(t: nat, p: u64, exclusive: bool) returns (r: FixResult)
      requires Valid() && t != INVALID_TXN_ID
      modifies this, locks, locks.pageLocks.Values
      ensures locks.Valid() && fresh(locks.pageLocks.Values - old(locks.pageLocks.Values))
      ensures forall q :: OthersKept(At(old(locks.table), q), At(locks.table, q), t)
      ensures files == old(files)
      ensures r == BufferFull <==> p !in old(pages) && old(free) == []
      ensures !exclusive ==>
        (r == Aborted <==> r != BufferFull && exists u :: u != t && HasMode(At(old(locks.table), p), u, Exclusive))
      ensures exclusive ==>
        (r == Aborted <==> r != BufferFull && exists u :: u != t && HasEntry(At(old(locks.table), p), u))
      ensures r == BufferFull ==> Valid() && locks.table == old(locks.table) && Now() == old(Now())
      ensures r == Aborted ==> Implements(locks.table, if p in old(pages) then None else Some((t, p)))
      ensures r == Aborted ==> pages == if p in old(pages) then old(pages) else old(pages)[p := old(free)[0]]
      ensures !r.Fixed? ==> locks.history == old(locks.history) && ideal == old(ideal)
      ensures r.Fixed? ==> Valid() && p in PagesOf(txnPages, t)
      ensures r.Fixed? && !exclusive ==> locks.history == old(locks.history) + [Access(t, p, Shared)]
      ensures r.Fixed? && !exclusive ==> GrantedTo(old(locks.table), locks.table, t, p, Shared)
      ensures r.Fixed? && exclusive ==> locks.history == old(locks.history) + [Access(t, p, Exclusive)]
      ensures r.Fixed? && exclusive ==> GrantedTo(old(locks.table), locks.table, t, p, Exclusive)
      ensures r.Fixed? ==> r.frame < capacity == |frames| && pages == old(pages)[p := r.frame]
      ensures r.Fixed? ==> (frames[r.frame].data == ReadIdeal(ideal, pageSize, t, p) <==> p !in ideal.stale)
      ensures r.Fixed? && p in old(pages) ==>
        r.frame == old(pages)[p] && frames == old(frames) && free == old(free) && ideal == old(ideal)
      ensures r.Fixed? && p !in old(pages) ==> old(free) != [] && r.frame == old(free)[0] && free == old(free)[1..]
      ensures r.Fixed? && p !in old(pages) ==> Faulted(old(frames), frames, r.frame, old(ideal), p)
    {
      hide Inv, LockManager.Valid, Conflict, HasMode, HasEntry, GrantedTo;
      ConflictByMode(At(locks.table, p), t);
      var mode := if exclusive then Exclusive else Shared;
      if p in pages {
        r := FixResident(t, p, mode);
      } else if free == [] {
        r := BufferFull;
      } else {
        r := FixAbsent(t, p, mode);
      }
    }

    /** What a page fault does to the frames, and whether it leaves the page stale. */
    ghost predicate Faulted(before: seq<Frame>, after: seq<Frame>, f: nat, was: Ideal, p: u64)
      reads this
    {
      && f < |before| == |after| && |before[f].data| == pageSize
      && after == before[f := Frame(p, ReadBlock(FileOf(files, p), PagePos(p, pageSize), before[f].data),
           before[f].dirty)]
      && ideal == FaultIdeal(was, p, CleanFault(files, pageSize, p, before[f].data))
    }

    method FixResident(t: nat, p: u64, mode: LockMode) returns (r: FixResult)
      requires Valid() && p in pages
      modifies this`txnPages, locks, locks.pageLocks.Values
      ensures forall q :: OthersKept(At(old(locks.table), q), At(locks.table, q), t)
      ensures Valid() && fresh(locks.pageLocks.Values - old(locks.pageLocks.Values))
      ensures r == if Conflict(At(old(locks.table), p), t, mode) then Aborted else Fixed(pages[p])
      ensures r.Fixed? ==> GrantedTo(old(locks.table), locks.table, t, p, mode)
      ensures r.Fixed? ==> p in PagesOf(txnPages, t) && r.frame < |frames|
      ensures r.Fixed? ==> locks.history == old(locks.history) + [Access(t, p, mode)]
      ensures !r.Fixed? ==> locks.history == old(locks.history)
      ensures r.Fixed? ==> (frames[r.frame].data == ReadIdeal(ideal, pageSize, t, p) <==> p !in ideal.stale)
    {
      hide Inv, LockManager.Valid, OthersKept, Conflict, Grew, SameTable, GrantedTo, ReadIdeal;
      ghost var table := locks.table;
      var ok := Lock(t, p, mode);
      AfterLock(table, locks.table, t, p, mode);
      GrantInv(Now(), table, locks.table, ideal, pageSize, t, None);
      if !ok {
        return Aborted;
      }
      GrantedEntry(table, locks.table, t, p, mode);
      TrackInv(Now(), locks.table, ideal, pageSize, t, p);
      SeesIdealInv(Now(), locks.table, ideal, pageSize, t, p);
      txnPages := txnPages[t := PagesOf(txnPages, t) + {p}];
      r := Fixed(pages[p]);
    }

    method FixAbsent(t: nat, p: u64, mode: LockMode) returns (r: FixResult)
      requires Valid() && p !in pages && free != []
      modifies this, locks, locks.pageLocks.Values
      ensures locks.Valid() && fresh(locks.pageLocks.Values - old(locks.pageLocks.Values))
      ensures forall q :: OthersKept(At(old(locks.table), q), At(locks.table, q), t)
      ensures files == old(files)
      ensures r == if Conflict(At(old(locks.table), p), t, mode) then Aborted else Fixed(old(free)[0])
      ensures r == Aborted ==> Implements(locks.table, Some((t, p))) && pages == old(pages)[p := old(free)[0]]
      ensures r == Aborted ==> locks.history == old(locks.history) && ideal == old(ideal)
      ensures r.Fixed? ==> Valid() && locks.history == old(locks.history) + [Access(t, p, mode)]
      ensures r.Fixed? ==> GrantedTo(old(locks.table), locks.table, t, p, mode) && p in PagesOf(txnPages, t)
      ensures r.Fixed? ==> r.frame < capacity == |frames| && pages == old(pages)[p := r.frame] && free == old(free)[1..]
      ensures r.Fixed? ==> (frames[r.frame].data == ReadIdeal(ideal, pageSize, t, p) <==> p !in ideal.stale)
      ensures r.Fixed? ==> Faulted(old(frames), frames, r.frame, old(ideal), p)
    {
      hide Inv, LockManager.Valid, OthersKept, Conflict, Grew, SameTable, GrantedTo;
      ghost var table := locks.table;
      var f := TakeFreeFrame(t, p);
      var ok := Lock(t, p, mode);
      AfterLock(table, locks.table, t, p, mode);
      GrantInv(Now(), table, locks.table, ideal, pageSize, t, Some((t, p)));
      if !ok {
        return Aborted;
      }
      GrantedEntry(table, locks.table, t, p, mode);
      ReadIn(t, p, f);
      SeesIdealInv(Now(), locks.table, ideal, pageSize, t, p);
      r := Fixed(f);
    }

    /** The bookkeeping of a page fault: free list, page table, frame, page list. */
    method TakeFreeFrame(t: nat, p: u64) returns (f: nat)
      requires Implements(locks.table, None) && p !in pages && free != []
      modifies this`free, this`pages, this`frames, this`txnPages
      ensures Implements(locks.table, Some((t, p)))
      ensures f == old(free)[0] < capacity && free == old(free)[1..] && pages == old(pages)[p := f]
      ensures f < |old(frames)| && frames == old(frames)[f := old(frames)[f].(pageId := p)] && p in PagesOf(txnPages, t)
    {
      hide Inv;
      TakeInv(Now(), locks.table, ideal, pageSize, t, p);
      ghost var next := Track(TakeFrame(Now(), p), t, p);
      f := free[0];
      free := free[1..];
      pages := pages[p := f];
      frames := frames[f := frames[f].(pageId := p)];
      txnPages := txnPages[t := PagesOf(txnPages, t) + {p}];
      assert Now() == next;
    }

    /** read_frame after the lock was granted. */
    method ReadIn(t: nat, p: u64, f: nat)
      requires Implements(locks.table, Some((t, p))) && HasEntry(At(locks.table, p), t) && p in pages && pages[p] == f
      requires f < capacity && frames[f].pageId == p
      modifies this`frames, this`ideal
      ensures Implements(locks.table, None)
      ensures f < |old(frames)| && |old(frames)[f].data| == pageSize
      ensures frames == old(frames)[f := old(frames)[f].(data := ReadBlock(FileOf(files, p), PagePos(p, pageSize),
        old(frames)[f].data))]
      ensures ideal == FaultIdeal(old(ideal), p, CleanFault(files, pageSize, p, old(frames)[f].data))
    {
      hide Inv, CleanFault;
      ReadInv(Now(), locks.table, ideal, pageSize, t, p);
      ghost var next := ReadFrame(Now(), pageSize, f);
      ideal := FaultIdeal(ideal, p, CleanFault(files, pageSize, p, frames[f].data));
      frames := frames[f := frames[f].(data := ReadBlock(FileOf(files, p), PagePos(p, pageSize), frames[f].data))];
      assert Now() == next;
    }

    /** A transaction changes a page it fixed exclusively and unfixes it as dirty. No lock is
        released. */
    method WritePinned(t: nat, p: u64, data: seq<byte>)
      requires Valid() && p in pages && |data| == pageSize
      requires HasMode(At(locks.table, p), t, Exclusive) && p in PagesOf(txnPages, t)
      modifies this`frames, this`ideal
      ensures Valid() && ideal == WriteIdeal(old(ideal), t, p, data)
      ensures frames == old(frames)[pages[p] := old(frames)[pages[p]].(data := data, dirty := true)]
    {
      hide Inv, LockManager.Valid;
      PageHasFrame(Now(), locks.table, ideal, pageSize, p);
      var f := pages[p];
      var frame := frames[f].(data := data, dirty := true);
      WriteInv(Now(), locks.table, ideal, pageSize, t, p, frame);
      ghost var next := SetFrame(Now(), p, frame);
      frames := frames[f := frame];
      ideal := WriteIdeal(ideal, t, p, data);
      assert Now() == next;
    }

    /** flush_page for one page of a committing transaction. */
    method FlushOwn(t: nat, p: u64)
      requires Implements(locks.table, None) && p in PagesOf(txnPages, t)
      modifies this`frames, this`files, this`ideal
      ensures Implements(locks.table, None) && ideal == PublishOne(old(ideal), t, p) && DataKept(old(frames), frames)
    {
      hide Inv;
      FlushInv(Now(), locks.table, ideal, pageSize, t, p);
      FlushPage(p);
      ideal := PublishOne(ideal, t, p);
    }

    /** Writes the page's frame to its file if it is dirty. */
    method FlushPage(p: u64)
      requires p in pages ==> pages[p] < |frames|
      modifies this`frames, this`files
      ensures Now() == FlushOne(old(Now()), pageSize, p) && DataKept(old(frames), frames)
    {
      if p in pages && frames[pages[p]].dirty {
        var f := pages[p];
        files := WritePage(files, pageSize, frames[f].pageId, frames[f].data);
        frames := frames[f := frames[f].(dirty := false)];
      }
    }

    method FlushPages(t: nat)
      requires Implements(locks.table, None)
      modifies this`frames, this`files, this`ideal
      ensures Implements(locks.table, None) && ideal == CommitIdeal(old(ideal), t)
      ensures DataKept(old(frames), frames)
      ensures unchanged(locks) && (PagesOf(txnPages, t) == {} ==> files == old(files))
    {
      hide Inv, Published;
      WorkIsTracked(Now(), locks.table, ideal, pageSize, None, t);
      ghost var before, done := ideal, {};
      PublishedNone(ideal, t);
      var todo := PagesOf(txnPages, t);
      while todo != {}
        invariant todo <= PagesOf(txnPages, t) && done == PagesOf(txnPages, t) - todo
        invariant Implements(locks.table, None) && Published(before, ideal, t, done)
        invariant DataKept(old(frames), frames) && (done == {} ==> files == old(files))
        decreases todo
      {
        var p :| p in todo;
        PublishNext(before, ideal, t, done, p);
        FlushOwn(t, p);
        todo := todo - {p};
        done := done + {p};
      }
      PublishedAll(before, ideal, t, done);
    }

    /** Commit: flush, release everything, forget. From here on the disk shows the writes. */
    method TransactionComplete(t: nat)
      requires Valid()
      modifies this, locks, locks.pageLocks.Values
      ensures forall q :: OthersKept(At(old(locks.table), q), At(locks.table, q), t)
      ensures Valid() && locks.pageLocks == old(locks.pageLocks)
      ensures ideal == CommitIdeal(old(ideal), t) && pages == old(pages) && free == old(free) &&
        txnPages == old(txnPages) - {t}
      ensures DataKept(old(frames), frames) && (PagesOf(old(txnPages), t) == {} ==> files == old(files))
      ensures locks.history == old(locks.history) + [End(t)]
      ensures forall q :: !HasEntry(At(locks.table, q), t)
    {
      hide Inv;
      FlushPages(t);
      EndNow(t, None);
    }

    method EndNow(t: nat, ghost bad: Failed)
      requires locks.Valid() && Implements(locks.table, bad) && forall k :: k in ideal.work ==> k.0 != t
      requires bad.Some? ==> bad.value.0 == t && bad.value.1 !in pages
      modifies this`txnPages, locks, locks.pageLocks.Values
      ensures txnPages == old(txnPages) - {t}
      ensures forall q :: OthersKept(At(old(locks.table), q), At(locks.table, q), t)
      ensures Valid() && locks.pageLocks == old(locks.pageLocks)
      ensures locks.history == old(locks.history) + [End(t)]
      ensures forall q :: !HasEntry(At(locks.table, q), t)
    {
      hide Inv;
      ghost var table := locks.table;
      locks.ReleaseAllLocks(t);
      forall q ensures OthersKept(At(table, q), At(locks.table, q), t) {
        WithoutKeepsOthers(At(table, q), t);
      }
      EndInv(Now(), table, locks.table, ideal, pageSize, t, bad);
      txnPages := txnPages - {t};
    }

    method DiscardOwn(t: nat, p: u64, ghost bad: Failed)
      requires Implements(locks.table, bad) && p in PagesOf(txnPages, t) && (bad.Some? ==> bad.value.0 == t)
      modifies this`frames, this`free, this`pages, this`ideal
      ensures Implements(locks.table, bad) && ideal == DropOne(old(ideal), t, p)
      ensures pages == old(pages) - {p} && old(free) <= free && DataKept(old(frames), frames)
    {
      hide Inv;
      DiscardInv(Now(), locks.table, ideal, pageSize, t, p, bad);
      DropFrame(p);
      ideal := DropOne(ideal, t, p);
    }

    /** The frame of a page goes back to the end of the free list, with its data. */
    method DropFrame(p: u64)
      requires p in pages ==> pages[p] < |frames|
      modifies this`frames, this`free, this`pages
      ensures Now() == DiscardOne(old(Now()), p)
      ensures pages == old(pages) - {p} && old(free) <= free && DataKept(old(frames), frames)
    {
      if p in pages {
        var f := pages[p];
        frames := frames[f := frames[f].(pageId := INVALID_PAGE_ID, dirty := false)];
        pages := pages - {p};
        free := free + [f];
      }
    }

    method DiscardPages(t: nat, ghost bad: Failed)
      requires Implements(locks.table, bad) && (bad.Some? ==> bad.value.0 == t)
      modifies this`frames, this`free, this`pages, this`ideal
      ensures Implements(locks.table, bad) && ideal == AbortIdeal(old(ideal), t, PagesOf(old(txnPages), t))
      ensures pages == old(pages) - PagesOf(txnPages, t) && old(free) <= free && DataKept(old(frames), frames)
    {
      hide Inv, Dropped;
      WorkIsTracked(Now(), locks.table, ideal, pageSize, bad, t);
      ghost var before, done := ideal, {};
      DroppedNone(ideal, t);
      var todo := PagesOf(txnPages, t);
      while todo != {}
        invariant todo <= PagesOf(txnPages, t) && done == PagesOf(txnPages, t) - todo
        invariant Implements(locks.table, bad) && Dropped(before, ideal, t, done)
        invariant pages == old(pages) - done && old(free) <= free && DataKept(old(frames), frames)
        decreases todo
      {
        var p :| p in todo;
        DropNext(before, ideal, t, done, p);
        DiscardOwn(t, p, bad);
        todo := todo - {p};
        done := done + {p};
      }
      assert done == PagesOf(txnPages, t);
      DroppedAll(before, ideal, t, done);
    }

    /** transaction_abort, also after a failed fix: discard everything the transaction fixed,
        release everything, forget. Its writes are gone. */
    method TransactionAbort(t: nat, ghost bad: Failed)
      requires locks.Valid() && Implements(locks.table, bad) && (bad.Some? ==> bad.value.0 == t)
      modifies this, locks, locks.pageLocks.Values
      ensures forall q :: OthersKept(At(old(locks.table), q), At(locks.table, q), t)
      ensures Valid() && locks.pageLocks == old(locks.pageLocks)
      ensures ideal == AbortIdeal(old(ideal), t, PagesOf(old(txnPages), t)) && files == old(files)
      ensures pages == old(pages) - PagesOf(old(txnPages), t) && old(free) <= free && DataKept(old(frames), frames)
      ensures locks.history == old(locks.history) + [End(t)]
      ensures forall q :: !HasEntry(At(locks.table, q), t)
    {
      hide Inv;
      FailedIsTracked(Now(), locks.table, ideal, pageSize, bad);
      DiscardPages(t, bad);
      EndNow(t, bad);
    }

    /** discard_pages as the transaction manager calls it: the page list is erased, the locks
        stay. */
    method DiscardAndForget(t: nat, ghost bad: Failed)
      requires Implements(locks.table, bad) && (bad.Some? ==> bad.value.0 == t)
      modifies this`frames, this`free, this`pages, this`ideal, this`txnPages
      ensures Implements(locks.table, None) && ideal == AbortIdeal(old(ideal), t, PagesOf(old(txnPages), t))
      ensures PagesOf(txnPages, t) == {} && DataKept(old(frames), frames)
      ensures pages == old(pages) - PagesOf(old(txnPages), t)
    {
      hide Inv, AbortIdeal;
      FailedIsTracked(Now(), locks.table, ideal, pageSize, bad);
      DiscardPages(t, bad);
      ForgetInv(Now(), locks.table, old(ideal), pageSize, t, PagesOf(txnPages, t), bad);
      txnPages := txnPages - {t};
    }
  }

  /** The bytes in the frames stay. */
  predicate DataKept(before: seq<Frame>, after: seq<Frame>) {
    |after| == |before| && forall f :: 0 <= f < |before| ==> after[f].data == before[f].data
  }

  lemma ForgetInv(s: Pool, table: Table, i: Ideal, pageSize: nat, t: nat, pages: set<u64>, bad: Failed)
    requires Inv(s, table, AbortIdeal(i, t, pages), pageSize, bad)
    requires bad.Some? ==> bad.value.0 == t && bad.value.1 !in s.pages
    ensures Inv(s.(txnPages := s.txnPages - {t}), table, AbortIdeal(i, t, pages), pageSize, None)
  {
    EndInv(s, table, table, AbortIdeal(i, t, pages), pageSize, t, bad);
  }

  lemma FailedIsTracked(s: Pool, table: Table, i: Ideal, pageSize: nat, bad: Failed)
    requires Inv(s, table, i, pageSize, bad)
    ensures bad.Some? ==> bad.value.1 in PagesOf(s.txnPages, bad.value.0)
  {
  }

  lemma GrantedEntry(before: Table, after: Table, t: nat, p: nat, mode: LockMode)
    requires GrantedTo(before, after, t, p, mode)
    ensures HasEntry(At(after, p), t)
  {
    EntryIsMode(At(after, p), t);
  }

  lemma AfterLock(before: Table, after: Table, t: nat, p: nat, mode: LockMode)
    requires GrantedTo(before, after, t, p, mode) || SameTable(before, after)
    ensures Grew(before, after, t) && forall q :: OthersKept(At(before, q), At(after, q), t)
  {
  }

  /** Two transactions fix a page that nobody holds exclusively, and hold it together. */
  method FixTogether(pool: TransactionalBuffer, t: nat, u: nat, p: u64) returns (r: FixResult, r': FixResult)
    requires pool.Valid() && t != u && t != INVALID_TXN_ID && u != INVALID_TXN_ID
    requires p in pool.pages || pool.free != []
    requires forall w :: !HasMode(At(pool.locks.table, p), w, Exclusive)
    modifies pool, pool.locks, pool.locks.pageLocks.Values
    ensures pool.Valid() && r.Fixed? && r' == r
    ensures HasMode(At(pool.locks.table, p), t, Shared) && HasMode(At(pool.locks.table, p), u, Shared)
    ensures pool.locks.history == old(pool.locks.history) + [Access(t, p, Shared), Access(u, p, Shared)]
  {
    hide Inv, LockManager.Valid, HasMode, HasEntry;
    r := pool.FixPage(t, p, false);
    r' := pool.FixPage(u, p, false);
  }
}
