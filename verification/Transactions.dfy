/** The transaction manager and the heap segment drive the log and the pool. Every call is a
    step of the state machine of RecoveryRuns, which says when a crash between calls is
    recoverable. */
module Transactions {
  import opened Bytes
  import opened LogRecord
  import opened PageIds
  import opened RecoverySpec
  import opened RecoveryRuns
  import opened SafeRuns
  import opened BufferPool
  import opened WriteAheadLog
  import opened SlottedPage

  datatype Transaction = Transaction(started: bool, modifiedPages: seq<PageId>)

  /** The tables agree with the log: where transactions begin, who is unfinished, and that
      every id in the log was handed out by the counter. */
  ghost predicate Tables(log: seq<Record>, first: map<u64, nat>, counter: nat, table: map<u64, Transaction>) {
    && first == Analyse(log).first
    && (forall i :: 0 <= i < |log| && !log[i].Checkpoint? ==> log[i].txn <= counter)
    && (forall t :: t in table && table[t].started ==> t <= counter && t in Unfinished(log))
  }

  lemma TablesBegin(log: seq<Record>, first: map<u64, nat>, counter: nat, table: map<u64, Transaction>, t: u64)
    requires Tables(log, first, counter, table) && t == counter + 1
    ensures Fresh(log, t)
    ensures Tables(log + [Begin(t)], first[t := |log|], t, table[t := Transaction(true, [])])
  {
    FreshBegin(log, t);
  }

  lemma TablesEnd(log: seq<Record>, first: map<u64, nat>, counter: nat, table: map<u64, Transaction>, t: u64, r: Record)
    requires Tables(log, first, counter, table) && t in table && t <= counter && (r == Commit(t) || r == Abort(t))
    ensures Tables(log + [r], first, counter, table[t := table[t].(started := false)])
  {
    AnalyseSnoc(log, r);
  }

  lemma TablesOther(log: seq<Record>, first: map<u64, nat>, counter: nat, table: map<u64, Transaction>, r: Record)
    requires Tables(log, first, counter, table) && (r.Checkpoint? || (r.Update? && r.txn <= counter))
    ensures Tables(log + [r], first, counter, table)
  {
    AnalyseSnoc(log, r);
  }

  class Database {
    const log: LogManager
    const buffer: BufferManager
    var transactionCounter: nat
    var transactionTable: map<u64, Transaction>

    ghost predicate Valid()
      reads this, log, buffer
    {
      && log.Valid() && buffer.Valid() && AllFit(log.records, buffer.pageSize)
      && Tables(log.records, log.firstIndex, transactionCounter, transactionTable)
    }

    /** Log, bytes seen through the pool, bytes on disk. */
    ghost function Abs(): State
      reads log, buffer
    {
      State(log.records, buffer.View(), buffer.Disk())
    }

    constructor (log: LogManager, buffer: BufferManager)
      requires log.Valid() && log.records == [] && log.firstIndex == map[]
      requires buffer.Valid() && forall a :: buffer.SeenAt(a) == buffer.DiskAt(a)
      ensures Valid() && this.log == log && this.buffer == buffer
      ensures Initial(Abs(), buffer.Disk()) && Inv(Abs(), buffer.Disk()) && SafeInv(Abs(), buffer.Disk())
    {
      this.log, this.buffer := log, buffer;
      transactionCounter, transactionTable := 0, map[];
      new;
      assert forall t, a :: !CoveredBy([], t, a);
    }

    method StartTxn() returns (t: u64)
      requires Valid() && transactionCounter < 0xFFFF_FFFF_FFFF_FFFF
      modifies this, log
      ensures Valid() && t == old(transactionCounter) + 1 == transactionCounter
      ensures transactionTable == old(transactionTable)[t := Transaction(true, [])]
      ensures BeginStep(old(Abs()), Abs(), t) && Fresh(old(log.records), t)
    {
      t := Register();
      assert buffer.View() == old(buffer.View()) && buffer.Disk() == old(buffer.Disk());
    }

    method Register() returns (t: u64)
      requires log.Valid() && transactionCounter < 0xFFFF_FFFF_FFFF_FFFF
      requires Tables(log.records, log.firstIndex, transactionCounter, transactionTable)
      modifies this, log
      ensures log.Valid() && Tables(log.records, log.firstIndex, transactionCounter, transactionTable)
      ensures t == old(transactionCounter) + 1 == transactionCounter
      ensures transactionTable == old(transactionTable)[t := Transaction(true, [])]
      ensures log.records == old(log.records) + [Begin(t)] && Fresh(old(log.records), t)
    {
      TablesBegin(log.records, log.firstIndex, transactionCounter, transactionTable, transactionCounter + 1);
      t := transactionCounter + 1;
      log.LogTxnBegin(t);
      transactionCounter := t;
      transactionTable := transactionTable[t := Transaction(true, [])];
    }

    /** Registers a page. An unknown id gets an entry that is not started. */
    method AddModifiedPage(t: u64, page: PageId)
      requires Valid()
      modifies this`transactionTable
      ensures Valid()
      ensures var txn := if t in old(transactionTable) then old(transactionTable)[t] else Transaction(false, []);
        transactionTable == old(transactionTable)[t := txn.(modifiedPages := txn.modifiedPages + [page])]
    {
      var txn := if t in transactionTable then transactionTable[t] else Transaction(false, []);
      transactionTable := transactionTable[t := txn.(modifiedPages := txn.modifiedPages + [page])];
    }

    /** Flushes the pages registered for the transaction, then logs COMMIT. `ok` is false when
        the original exits: the transaction is unknown. */
    method CommitTxn(t: u64) returns (ok: bool)
      requires Valid()
      modifies this, log, buffer
      ensures ok <==> t in old(transactionTable)
      ensures Valid()
      ensures ok && old(transactionTable)[t].started ==>
        CommitStep(old(Abs()), Abs(), t, PageSet(old(transactionTable)[t].modifiedPages))
      ensures ok ==> transactionTable == old(transactionTable)[t := old(transactionTable)[t].(started := false)]
      ensures !(ok && old(transactionTable)[t].started) ==> Unchanged(old(Abs()), Abs())
    {
      if t !in transactionTable {
        return false;
      }
      ok := true;
      var txn := transactionTable[t];
      if txn.started {
        FlushModified(txn.modifiedPages);
        TablesEnd(log.records, log.firstIndex, transactionCounter, transactionTable, t, Commit(t));
        log.LogCommit(t);
        transactionTable := transactionTable[t := txn.(started := false)];
      }
    }

    method FlushModified(pages: seq<PageId>)
      requires buffer.Valid()
      modifies buffer`files
      ensures buffer.Valid()
      ensures forall a :: buffer.SeenAt(a) == old(buffer.SeenAt(a))
      ensures forall a: Addr :: buffer.DiskAt(a) == if a.page in pages then buffer.SeenAt(a) else old(buffer.DiskAt(a))
    {
      for k := 0 to |pages|
        invariant buffer.Valid()
        invariant forall a :: buffer.SeenAt(a) == old(buffer.SeenAt(a))
        invariant forall a: Addr :: buffer.DiskAt(a) == if a.page in pages[..k] then buffer.SeenAt(a)
          else old(buffer.DiskAt(a))
      {
        assert pages[..k + 1] == pages[..k] + [pages[k]];
        buffer.FlushPage(pages[k]);
      }
      assert pages[..|pages|] == pages;
    }

    method DiscardModified(pages: seq<PageId>)
      requires buffer.Valid()
      modifies buffer`pool
      ensures buffer.Valid() && buffer.RoomNow() == WithoutPages(old(buffer.RoomNow()), PageSet(pages))
      ensures forall a: Addr :: buffer.SeenAt(a) == if a.page in pages then buffer.DiskAt(a) else old(buffer.SeenAt(a))
    {
      for k := 0 to |pages|
        invariant buffer.Valid() && buffer.RoomNow() == WithoutPages(old(buffer.RoomNow()), PageSet(pages[..k]))
        invariant forall a: Addr :: buffer.SeenAt(a) == if a.page in pages[..k] then buffer.DiskAt(a)
          else old(buffer.SeenAt(a))
      {
        assert pages[..k + 1] == pages[..k] + [pages[k]];
        buffer.DiscardPage(pages[k]);
      }
      assert pages[..|pages|] == pages;
    }

    /** Drops the registered pages from the pool, rolls back, flushes, then logs ABORT. `known`
        is false when the transaction is unknown, `ok` when rollback ran out of frames. */
    method AbortTxn(t: u64) returns (known: bool, ok: bool)
      requires Valid()
      modifies this, log, buffer
      ensures known <==> t in old(transactionTable)
      ensures known && old(transactionTable)[t].started ==>
        (ok <==> AbortHasFrames(t, PageSet(old(transactionTable)[t].modifiedPages), old(log.records),
                                old(buffer.RoomNow())))
      ensures known && !ok ==> log.Exhausted(buffer)
      ensures known && ok ==> Valid()
      ensures known && ok && old(transactionTable)[t].started ==>
        AbortStep(old(Abs()), Abs(), t, PageSet(old(transactionTable)[t].modifiedPages))
      ensures known && ok ==>
        transactionTable == old(transactionTable)[t := old(transactionTable)[t].(started := false)]
      ensures !(known && old(transactionTable)[t].started) ==> Unchanged(old(Abs()), Abs())
    {
      ok := true;
      known := t in transactionTable;
      if known && transactionTable[t].started {
        ok := AbortStarted(t);
      }
    }

    method AbortStarted(t: u64) returns (ok: bool)
      requires Valid() && t in transactionTable && transactionTable[t].started
      modifies this, log, buffer
      ensures ok <==> AbortHasFrames(t, PageSet(old(transactionTable)[t].modifiedPages), old(log.records),
        old(buffer.RoomNow()))
      ensures !ok ==> log.Exhausted(buffer)
      ensures ok ==> Valid()
      ensures ok ==> AbortStep(old(Abs()), Abs(), t, PageSet(old(transactionTable)[t].modifiedPages))
      ensures ok ==> transactionTable == old(transactionTable)[t := old(transactionTable)[t].(started := false)]
    {
      hide BufferManager.Valid, LogManager.Valid, Enough, UndoPages;
      var txn := transactionTable[t];
      DiscardModified(txn.modifiedPages);
      TablesEnd(log.records, log.firstIndex, transactionCounter, transactionTable, t, Abort(t));
      UnfinishedHasFirst(log.records, t);
      ok := log.LogAbort(t, buffer);
      if ok {
        transactionTable := transactionTable[t := txn.(started := false)];
      }
    }

    /** The content of a page as seen through the pool. */
    ghost function SeenPage(page: PageId): (bytes: seq<byte>)
      reads this, buffer
      ensures |bytes| == buffer.pageSize && forall i :: 0 <= i < |bytes| ==> bytes[i] == buffer.SeenAt(Addr(page, i))
    {
      seq(buffer.pageSize, i requires 0 <= i < buffer.pageSize reads buffer => buffer.SeenAt(Addr(page, i)))
    }

    /** Where the record of a tuple id starts, according to its slot. */
    ghost function RecordStart(page: PageId, slot: nat): nat
      requires SlotPos(slot + 1) <= buffer.pageSize
      reads this, buffer
    {
      SlotOffset(SlotAt(SeenPage(page), slot))
    }

    /** `HeapSegment::write`: find the record through its slot, save the before image, copy
        the record in, log the update. `ok` is false when the original exits: the page id is
        invalid, or the page is absent and no frame is left. */
    method HeapWrite(segment: nat, tid: u64, record: seq<byte>, txn: u64) returns (ok: bool)
      requires Valid() && segment < 0x1_0000 && |record| < 0x1_0000_0000
      requires SlotPos(TidSlot(tid) + 1) <= buffer.pageSize
      requires var page := OverallPageId(segment, TidPage(tid));
        page != INVALID_PAGE_ID ==> RecordStart(page, TidSlot(tid)) + |record| <= buffer.pageSize
      modifies log, buffer
      ensures ok <==> Enough(old(buffer.RoomNow()), {OverallPageId(segment, TidPage(tid))})
      ensures ok ==> OverallPageId(segment, TidPage(tid)) != INVALID_PAGE_ID
      ensures ok ==> log.Valid() && buffer.Valid() && (txn <= transactionCounter ==> Valid())
      ensures ok ==>
        var page: PageId := OverallPageId(segment, TidPage(tid));
        var at := old(RecordStart(page, TidSlot(tid)));
        Written(old(Abs()), Abs(), Update(txn, page, at, old(SeenPage(page))[at..at + |record|], record))
    {
      hide Written, Unchanged, TidSlot, OverallPageId, SlotAt, Unfinished, BufferManager.Valid, LogManager.Valid,
        Tables, Enough, Fixed;
      EnoughForOne(buffer.RoomNow(), OverallPageId(segment, TidPage(tid)));
      if OverallPageId(segment, TidPage(tid)) == INVALID_PAGE_ID {
        return false;
      }
      ghost var s, bytes := Abs(), SeenPage(OverallPageId(segment, TidPage(tid)));
      var page, f, at := OverallPageId(segment, TidPage(tid)), 0, 0;
      ok, f, at := Locate(page, TidSlot(tid));
      if ok {
        ghost var r := WriteAt(page, f, at, record, txn, bytes);
        WriteStepFrom(s, Abs(), r);
      }
    }

    /** Fixes the page and reads the start of the record from its slot. */
    method Locate(page: PageId, slot: nat) returns (ok: bool, f: nat, at: nat)
      requires Valid() && SlotPos(slot + 1) <= buffer.pageSize
      modifies buffer
      ensures ok <==> Enough(old(buffer.RoomNow()), {page})
      ensures !ok ==> buffer.pageCounter >= buffer.capacity
      ensures ok ==> Valid() && f < buffer.capacity && buffer.pool[f].pageId == page
      ensures ok ==> SeenPage(page) == old(SeenPage(page)) && at == old(RecordStart(page, slot))
      ensures ok ==> Unchanged(old(Abs()), Abs())
    {
      at := 0;
      ok, f := buffer.FixPage(page);
      if ok {
        FrameIsSeen(page, f);
        assert SeenPage(page) == old(SeenPage(page));
        at := SlotOffset(SlotAt(buffer.pool[f].data, slot));
      }
    }

    lemma FrameIsSeen(page: PageId, f: nat)
      requires buffer.Valid() && f < buffer.capacity && buffer.pool[f].pageId == page
      ensures f < |buffer.pool| && buffer.pool[f].data == SeenPage(page)
    {
      FrameOfUnique(buffer.pool, f);
      forall i | 0 <= i < buffer.pageSize ensures buffer.pool[f].data[i] == SeenPage(page)[i] {
        assert SeenPage(page)[i] == buffer.SeenAt(Addr(page, i));
      }
    }

    method WriteAt(page: PageId, f: nat, at: nat, record: seq<byte>, txn: u64, ghost bytes: seq<byte>)
        returns (ghost r: Record)
      requires Valid() && |record| < 0x1_0000_0000 && at < 0x1_0000_0000
      requires f < buffer.capacity && buffer.pool[f].pageId == page && at + |record| <= buffer.pageSize
      requires bytes == SeenPage(page)
      modifies log, buffer
      ensures log.Valid() && buffer.Valid() && (txn <= transactionCounter ==> Valid())
      ensures r == Update(txn, page, at, bytes[at..at + |record|], record) && Written(old(Abs()), Abs(), r)
    {
      hide Tables, LogManager.Valid, Unfinished, SeenPage, BufferManager.Valid;
      FrameIsSeen(page, f);
      var before := buffer.pool[f].data[at..at + |record|];
      buffer.CopyIn(f, at, record);
      r := Update(txn, page, at, before, record);
      if txn <= transactionCounter {
        TablesOther(log.records, log.firstIndex, transactionCounter, transactionTable, r);
      }
      log.LogUpdate(txn, page, at, before, record);
    }

    method Checkpoint()
      requires Valid()
      modifies log, buffer
      ensures Valid() && CheckpointStep(old(Abs()), Abs())
    {
      TablesOther(log.records, log.firstIndex, transactionCounter, transactionTable, Record.Checkpoint(0, []));
      log.LogCheckpoint(buffer);
    }

    method FlushPage(page: PageId)
      requires Valid()
      modifies buffer
      ensures Valid() && FlushStep(old(Abs()), Abs(), {page})
    {
      buffer.FlushPage(page);
    }

    /** Crash and recovery: the pool is emptied, the transaction manager starts over, the log
        manager keeps its offset, and recovery rebuilds the pages from the bytes of the log
        file. It succeeds exactly if there are frames for all pages that recovery touches. From
        every state that the steps above can reach, a byte ends up, in the pool and on disk,
        at its last committed value if and only if the live transaction that covers it, if
        any, is undone to that; after safe steps only, every byte does. */
    method CrashAndRecover(ghost initial: Addr -> byte) returns (ok: bool)
      requires Valid() && Inv(Abs(), initial)
      modifies this, log, buffer
      ensures ok <==> Enough(Room({}, old(buffer.pageCounter), buffer.capacity), RecoveryPages(old(log.records)))
      ensures !ok ==> log.Exhausted(buffer)
      ensures ok ==> log.records == old(log.records)
      ensures ok ==> forall a ::
        (IsLastCommitted(log.records, a, initial(a), buffer.SeenAt(a)) <==> UndoneToIdeal(log.records, a, initial(a)))
      ensures ok && old(SafeInv(Abs(), initial)) ==>
        forall a :: IsLastCommitted(log.records, a, initial(a), buffer.SeenAt(a))
      ensures ok ==> forall a :: buffer.DiskAt(a) == buffer.SeenAt(a)
    {
      hide Enough, Fixed, Inv, SafeInv, IsLastCommitted, UndoneToIdeal, Tables;
      ghost var crashed := Abs();
      buffer.DiscardAllPages();
      log.Reset(log.logFile);
      transactionCounter, transactionTable := 0, map[];
      ok := log.Recovery(buffer);
      if ok {
        Recovered(crashed, initial, buffer.View());
      }
    }
  }

  lemma Recovered(crashed: State, initial: Addr -> byte, view: Addr -> byte)
    requires Inv(crashed, initial) && forall a :: view(a) == RecoveredAt(crashed.log, a, crashed.disk(a))
    ensures forall a :: IsLastCommitted(crashed.log, a, initial(a), view(a)) <==>
      UndoneToIdeal(crashed.log, a, initial(a))
    ensures SafeInv(crashed, initial) ==> forall a :: IsLastCommitted(crashed.log, a, initial(a), view(a))
  {
    forall a ensures IsLastCommitted(crashed.log, a, initial(a), view(a)) <==>
      UndoneToIdeal(crashed.log, a, initial(a)) {
      RecoversIff(crashed, initial, a);
    }
    if SafeInv(crashed, initial) {
      SafeIsRecoverable(crashed, initial);
      forall a ensures IsLastCommitted(crashed.log, a, initial(a), view(a)) {
        assert Recovers(crashed, a, initial(a));
      }
    }
  }

  function PageSet(pages: seq<PageId>): set<PageId> {
    set p | p in pages
  }

  function WithoutPages(room: Room, pages: set<u64>): Room {
    room.(held := room.held - pages)
  }

  /** Enough frames to roll `t` back after these pages were discarded. */
  ghost predicate AbortHasFrames(t: u64, discarded: set<PageId>, log: seq<Record>, room: Room) {
    Enough(WithoutPages(room, discarded), UndoPages(log, Analyse(log).first, {t}))
  }

  lemma WriteStepFrom(s: State, s': State, r: Record)
    ensures forall t :: Unchanged(s, t) && Written(t, s', r) ==> Written(s, s', r)
  {
  }

  ghost predicate Unchanged(s: State, s': State) {
    s'.log == s.log && Same(s'.view, s.view) && Same(s'.disk, s.disk)
  }

  lemma UnfinishedHasFirst(log: seq<Record>, t: u64)
    requires t in Unfinished(log)
    ensures t in Analyse(log).first
  {
    ActiveHasFirst(log);
  }
}
