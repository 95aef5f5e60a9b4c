/** The transaction manager on top of the locking pool. */
module LockingTransactions {
  import opened Bytes
  import opened BufferPool
  import opened FrameLocks
  import opened TwoPhase
  import opened PoolState
  import opened LockManagement
  import opened LockingPool

  datatype Outcome = Done | NotStarted | Unknown

  class TransactionManager {
    const pool: TransactionalBuffer
    var counter: nat
    var started: map<nat, bool>

    constructor (pool: TransactionalBuffer)
      ensures this.pool == pool && started == map[] && counter == 0
    {
      this.pool := pool;
      counter, started := 0, map[];
    }

    method StartTxn() returns (t: nat)
      modifies this
      ensures t == old(counter) + 1 == counter && started == old(started)[t := true]
    {
      counter := counter + 1;
      t := counter;
      started := started[t := true];
    }

    /** Flushes the pages, then completes: the transaction's writes become the committed
        contents, all of them together, and nothing else changes. `Unknown` stands for the
        exit of the program. */
    method CommitTxn(t: nat) returns (r: Outcome)
      requires pool.Valid()
      modifies this, pool, pool.locks, pool.locks.pageLocks.Values
      ensures pool.Valid()
      ensures r == if t !in old(started) then Unknown else if !old(started)[t] then NotStarted else Done
      ensures r == Done ==> pool.ideal == CommitIdeal(old(pool.ideal), t) && started == old(started)[t := false]
      ensures r == Done ==> pool.locks.history == old(pool.locks.history) + [End(t)]
      ensures r == Done ==> forall q :: !HasEntry(At(pool.locks.table, q), t)
      ensures r != Done ==>
        pool.ideal == old(pool.ideal) && pool.locks.table == old(pool.locks.table) && started == old(started)
    {
      hide Inv, CommitIdeal, AbortIdeal, LockManager.Valid, HasEntry;
      if t !in started {
        return Unknown;
      }
      if !started[t] {
        return NotStarted;
      }
      FlushAndComplete(t);
      started := started[t := false];
      r := Done;
    }

    /** Discards the pages before it releases the locks; what is left for the flush of
        `transaction_complete` is nothing. Also the way out after a fix that failed. */
    method AbortTxn(t: nat, ghost bad: Failed) returns (r: Outcome)
      requires pool.locks.Valid() && pool.Implements(pool.locks.table, bad) && (bad.Some? ==> bad.value.0 == t)
      modifies this, pool, pool.locks, pool.locks.pageLocks.Values
      ensures r == if t !in old(started) then Unknown else if !old(started)[t] then NotStarted else Done
      ensures pool.files == old(pool.files)
      ensures r == Done ==> pool.Valid() && started == old(started)[t := false]
      ensures r == Done ==> pool.ideal == AbortIdeal(old(pool.ideal), t, PagesOf(old(pool.txnPages), t))
      ensures r == Done ==> pool.locks.history == old(pool.locks.history) + [End(t)]
      ensures r == Done ==> forall q :: !HasEntry(At(pool.locks.table, q), t)
      ensures r != Done ==>
        pool.ideal == old(pool.ideal) && pool.locks.table == old(pool.locks.table) && started == old(started)
    {
      hide Inv, CommitIdeal, AbortIdeal, LockManager.Valid, HasEntry;
      if t !in started {
        return Unknown;
      }
      if !started[t] {
        return NotStarted;
      }
      DiscardAndComplete(t, bad);
      started := started[t := false];
      r := Done;
    }

    method FlushAndComplete(t: nat)
      requires pool.Valid()
      modifies pool, pool.locks, pool.locks.pageLocks.Values
      ensures pool.Valid() && pool.ideal == CommitIdeal(old(pool.ideal), t)
      ensures pool.locks.history == old(pool.locks.history) + [End(t)]
      ensures forall q :: !HasEntry(At(pool.locks.table, q), t)
    {
      hide Inv, CommitIdeal, LockManager.Valid;
      pool.FlushPages(t);
      CommitTwice(old(pool.ideal), t);
      pool.TransactionComplete(t);
    }

    method DiscardAndComplete(t: nat, ghost bad: Failed)
      requires pool.locks.Valid() && pool.Implements(pool.locks.table, bad) && (bad.Some? ==> bad.value.0 == t)
      modifies pool, pool.locks, pool.locks.pageLocks.Values
      ensures pool.files == old(pool.files)
      ensures pool.Valid() && pool.ideal == AbortIdeal(old(pool.ideal), t, PagesOf(old(pool.txnPages), t))
      ensures pool.locks.history == old(pool.locks.history) + [End(t)]
      ensures forall q :: !HasEntry(At(pool.locks.table, q), t)
    {
      hide Inv, AbortIdeal, CommitIdeal, LockManager.Valid;
      pool.DiscardAndForget(t, bad);
      CommitNothing(old(pool.ideal), t, PagesOf(old(pool.txnPages), t));
      pool.TransactionComplete(t);
    }
  }

  lemma CommitTwice(i: Ideal, t: nat)
    ensures CommitIdeal(CommitIdeal(i, t), t) == CommitIdeal(i, t)
  {
    assert OthersWork(CommitIdeal(i, t), t) == OthersWork(i, t);
    assert WrittenBy(CommitIdeal(i, t), t) == {};
  }

  /** After an abort there is nothing left to commit. */
  lemma CommitNothing(i: Ideal, t: nat, pages: set<u64>)
    ensures CommitIdeal(AbortIdeal(i, t, pages), t) == AbortIdeal(i, t, pages)
  {
    assert OthersWork(AbortIdeal(i, t, pages), t) == OthersWork(i, t);
    assert WrittenBy(AbortIdeal(i, t, pages), t) == {};
  }

  // ---------- Frames are not cleared ----------

  /** A page fault is clean whatever the frame held exactly if the whole page lies in the
      file. */
  lemma OnFileIff(files: Files, pageSize: nat, p: u64)
    ensures OnFile(files, pageSize, p) <==>
      forall leftover: seq<byte> :: |leftover| == pageSize ==> CleanFault(files, pageSize, p, leftover)
  {
    NoPageAtZero(p, pageSize);
    if !OnFile(files, pageSize, p) {
      var ones := seq<byte>(pageSize, _ => 1);
      assert ones[pageSize - 1] != 0 && !CleanFault(files, pageSize, p, ones);
    }
  }

  /** What a page fault shows depends on the file alone exactly when the whole page lies in
      the file. */
  lemma StaleBytesIff(files: Files, pageSize: nat, p: u64)
    ensures OnFile(files, pageSize, p) <==>
      forall a: seq<byte>, b: seq<byte> :: |a| == |b| == pageSize ==>
        ReadBlock(FileOf(files, p), PagePos(p, pageSize), a) == ReadBlock(FileOf(files, p), PagePos(p, pageSize), b)
  {
    var file, pos := FileOf(files, p), PagePos(p, pageSize);
    if !OnFile(files, pageSize, p) {
      var zeros, ones := Zeros(pageSize), seq(pageSize, _ => 1 as byte);
      NoPageAtZero(p, pageSize);
      assert ReadBlock(file, pos, zeros)[pageSize - 1] != ReadBlock(file, pos, ones)[pageSize - 1];
    }
  }

  lemma NoPageAtZero(p: u64, pageSize: nat)
    ensures pageSize == 0 ==> PagePos(p, pageSize) == 0
  {
  }

  ghost predicate NobodyIn(granted: seq<Lock>) {
    forall u, m :: !HasMode(granted, u, m)
  }

  lemma NobodyHasEntry(granted: seq<Lock>)
    requires NobodyIn(granted)
    ensures forall u :: !HasEntry(granted, u)
  {
    forall u ensures !HasEntry(granted, u) {
      EntryIsMode(granted, u);
    }
  }

  /** An empty pool has only free frames, each once. */
  lemma AllFramesFree(s: Pool, table: Table, i: Ideal, pageSize: nat)
    requires Inv(s, table, i, pageSize, None) && s.pages == map[]
    ensures |s.free| == |s.frames| && forall k :: 0 <= k < |s.free| ==> s.free[k] < |s.frames|
    ensures forall j, k :: 0 <= j < k < |s.free| ==> s.free[j] != s.free[k]
  {
  }

  /** A pool over empty files, after a transaction wrote a page and aborted: the first frame
      is last in line, with the aborted bytes in it. */
  method WriteAndAbort(pageSize: nat, capacity: nat, p: u64, data: seq<byte>) returns (pool: TransactionalBuffer)
    requires |data| == pageSize && 1 <= capacity <= 2
    ensures fresh(pool) && fresh(pool.locks) && fresh(pool.locks.pageLocks.Values)
    ensures pool.Valid() && pool.pages == map[] && pool.free == (if capacity == 1 then [0] else [1, 0])
    ensures pool.files == map[] && pool.ideal == Ideal(map[], map[], map[], {}) && pool.capacity == capacity
    ensures pool.pageSize == pageSize && |pool.frames| == capacity && pool.frames[0].data == data
    ensures capacity == 2 ==> pool.frames[1].data == Zeros(pageSize)
    ensures forall k :: NobodyIn(At(pool.locks.table, k))
  {
    hide Inv, LockManager.Valid;
    pool := new TransactionalBuffer(pageSize, capacity, map[]);
    var r := pool.FixPage(1, p, true);
    assert HasMode(At(pool.locks.table, p), 1, Exclusive);
    ghost var ideal, rest := pool.ideal, pool.free;
    assert capacity == 2 ==> rest[0] == 1;
    pool.WritePinned(1, p, data);
    pool.TransactionAbort(1, None);
    NothingLeft(ideal, p, data);
    AllFramesFree(pool.Now(), pool.locks.table, pool.ideal, pageSize);
    OneLeft(rest, pool.free, capacity);
  }

  lemma OneLeft(rest: seq<nat>, free: seq<nat>, capacity: nat)
    requires rest <= free && |free| == capacity && forall k :: 0 <= k < |free| ==> free[k] < capacity
    requires forall j, k :: 0 <= j < k < |free| ==> free[j] != free[k]
    ensures capacity == 1 ==> free == [0]
    ensures capacity == 2 && |rest| == 1 && rest[0] == 1 ==> free == [1, 0]
  {
    if capacity == 2 && |rest| == 1 && rest[0] == 1 {
      assert free[0] == 1;
    }
  }

  lemma NothingLeft(i: Ideal, p: u64, data: seq<byte>)
    requires i.initial == map[] && i.committed == map[] && i.work == map[] && i.stale <= {p}
    ensures forall pages :: p in pages ==>
      AbortIdeal(WriteIdeal(i, 1, p, data), 1, pages) == Ideal(map[], map[], map[], {})
  {
    assert OthersWork(WriteIdeal(i, 1, p, data), 1) == map[];
  }

  /** Whatever a transaction wrote before it aborted, the next one may read from its page. */
  method ReadsAbortedWrite(pageSize: nat, p: u64, q: u64, data: seq<byte>) returns (seen: seq<byte>)
    requires |data| == pageSize
    ensures seen == data
  {
    hide Inv, LockManager.Valid;
    var pool := WriteAndAbort(pageSize, 1, p, data);
    var r := pool.FixPage(2, q, false);
    seen := pool.frames[r.frame].data;
  }

  ghost predicate OnlyIn(granted: seq<Lock>, t: nat) {
    forall u, m :: u != t ==> !HasMode(granted, u, m)
  }

  lemma NobodyLeft(granted: seq<Lock>, t: nat)
    requires OnlyIn(granted, t) && !HasEntry(granted, t)
    ensures NobodyIn(granted)
  {
    EntryIsMode(granted, t);
  }

  /** The second transaction fixes page 1 in the second frame and writes it. */
  method LoadNext(pool: TransactionalBuffer, x: byte, y: byte)
    requires pool.Valid() && pool.pages == map[] && pool.free == [1, 0] && pool.files == map[]
    requires pool.pageSize == 1 && pool.capacity == 2 == |pool.frames| && pool.frames[0].data == [x]
    requires pool.ideal == Ideal(map[], map[], map[], {}) && pool.frames[1].data == [0]
    requires forall k :: NobodyIn(At(pool.locks.table, k))
    modifies pool, pool.locks, pool.locks.pageLocks.Values
    ensures fresh(pool.locks.pageLocks.Values - old(pool.locks.pageLocks.Values))
    ensures pool.Valid() && pool.pages == map[1 := 1] && pool.free == [0] && pool.files == map[]
    ensures |pool.frames| == 2 && pool.frames[0].data == [x] &&
      pool.ideal == Ideal(map[], map[], map[(2, 1) := [y]], {})
    ensures forall k :: OnlyIn(At(pool.locks.table, k), 2)
  {
    hide Inv, LockManager.Valid, HasMode;
    NobodyHasEntry(At(pool.locks.table, 1));
    var r := pool.FixPage(2, 1, true);
    NoFile(1, [0]);
    ExclusiveIsMode(At(pool.locks.table, 1), 2);
    pool.WritePinned(2, 1, [y]);
  }

  /** Then it fixes page 0 in the first frame. */
  method LoadAgain(pool: TransactionalBuffer, x: byte, y: byte)
    requires pool.Valid() && pool.pages == map[1 := 1] && pool.free == [0] && pool.files == map[]
    requires pool.pageSize == 1 && pool.capacity == 2 == |pool.frames| && pool.frames[0].data == [x] && x != 0
    requires pool.ideal == Ideal(map[], map[], map[(2, 1) := [y]], {})
    requires forall k :: OnlyIn(At(pool.locks.table, k), 2)
    modifies pool, pool.locks, pool.locks.pageLocks.Values
    ensures fresh(pool.locks.pageLocks.Values - old(pool.locks.pageLocks.Values))
    ensures pool.Valid() && pool.pages == map[1 := 1, 0 := 0] && |pool.frames| == 2 && pool.frames[0].data == [x]
    ensures pool.ideal == Ideal(map[], map[], map[(2, 1) := [y]], {0})
    ensures forall k :: OnlyIn(At(pool.locks.table, k), 2)
  {
    hide Inv, LockManager.Valid, HasMode, Covers, HasEntry;
    var r := pool.FixPage(2, 0, false);
    NoFile(0, [x]);
  }

  lemma ExclusiveIsMode(granted: seq<Lock>, t: nat)
    requires Covers(granted, t, Exclusive)
    ensures HasMode(granted, t, Exclusive)
  {
  }

  /** Without a file a one-byte page shows what the frame held. */
  lemma NoFile(p: u64, leftover: seq<byte>)
    requires |leftover| == 1
    ensures ReadBlock(FileOf(map[], p), PagePos(p, 1), leftover) == leftover
    ensures CleanFault(map[], 1, p, leftover) <==> leftover[0] == 0
  {
    if leftover[0] != 0 {
      assert |FileOf(map[], p)| <= PagePos(p, 1) + 0;
    }
  }

  /** The page also shows them when it lies in its file by now: two frames, pages of one byte.
      A transaction writes `x` to page 0 and aborts. The next one fixes page 1 in the other
      frame and writes `y`, fixes page 0 in the first frame again, and commits; that puts page
      0 on file as a zero byte. A third transaction reads `x` from it. */
  method ReadsAbortedWriteOnFile(x: byte, y: byte) returns (seen: seq<byte>, files: Files)
    requires x != 0 && y != 0
    ensures seen == [x] && OnFile(files, 1, 0) && DiskPage(files, 1, 0) == [0]
  {
    hide Inv, LockManager.Valid;
    var pool := WriteAndAbort(1, 2, 0, [x]);
    LoadNext(pool, x, y);
    LoadAgain(pool, x, y);
    pool.TransactionComplete(2);
    CommitOne(y);
    ZeroOnFile(pool.Now(), pool.locks.table, pool.ideal, y);
    NobodyLeft(At(pool.locks.table, 0), 2);
    var r := pool.FixPage(3, 0, false);
    seen, files := pool.frames[r.frame].data, pool.files;
  }

  lemma CommitOne(y: byte)
    ensures CommitIdeal(Ideal(map[], map[], map[(2, 1) := [y]], {0}), 2) == Ideal(map[], map[1 := [y]], map[], {0})
  {
    var i := Ideal(map[], map[], map[(2, 1) := [y]], {0});
    assert WrittenBy(i, 2) == {1};
    assert (map p | p in WrittenBy(i, 2) :: i.work[(2, p)]) == map[1 := [y]];
    assert OthersWork(i, 2) == map[];
  }

  /** With page 1 on disk, the file is long enough for page 0, which nobody committed. */
  lemma ZeroOnFile(s: Pool, table: Table, i: Ideal, y: byte)
    requires Inv(s, table, i, 1, None) && i.initial == map[] && i.committed == map[1 := [y]] && y != 0
    ensures OnFile(s.files, 1, 0) && DiskPage(s.files, 1, 0) == [0]
  {
    assert PageBytes(s.files, 1, 1) == CommittedOf(i, 1, 1) == [y];
    assert PageBytes(s.files, 1, 0) == CommittedOf(i, 1, 0) == PageBytes(map[], 1, 0);
    assert PageBytes(s.files, 1, 1)[0] == FileByte(FileOf(s.files, 1), 1);
    assert PageBytes(map[], 1, 0)[0] == 0;
    OnFileIsSlice(s.files, 1, 0);
  }
}
