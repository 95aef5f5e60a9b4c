# BuzzDB models

Dafny models of five parts of the BuzzDB course database, each proved against an independent
statement of what it is for. Methods follow the original's control flow on heap state; what
they mean is a function of that state, and the theorems are about those functions.

* **Write-ahead log and crash recovery** (`Bytes`, `LogRecord`, `RecoverySpec`, `RecoveryRuns`,
  `SafeRuns`, `RecoveryTheorems`, `LostUpdate`, `PageIds`, `BufferPool`, `WriteAheadLog`, `Transactions`). The log file is
  bytes; scanning it returns the records that were appended. Runs interleave begin, write, commit,
  abort, checkpoint and flush. A crash at any step boundary followed by recovery gives a byte its last
  committed value exactly if its live writer, if any, found that value when it first wrote the byte;
  recovery may itself be interrupted, and rollback is exact. The methods of the
  log manager, the buffer cache and the transaction manager are proved to take exactly these steps.
* **Slotted pages and heap segments** (`SlottedPage`, `HeapSegment`). Slot and tuple id packing,
  downward allocation, reads that return the last write.
* **Locks and the transactional buffer pool** (`FrameLocks`, `WaitGraph`, `TwoPhase`, `LockManager`,
  `PoolState`, `LockingPool`, `LockingTransactions`). A wait is split into a request and its end, which
  is a grant or a timeout. Lock tables are safe, the wait-for graph is acyclic, histories are conflict
  serializable, and the pool implements a store of committed contents and private writes.
* **External sort** (`WordFile`, `MergeQueue`, `ExternalSort`). Chunks, sorted runs, k-way merge.
* **Query optimizer** (`Subsets`, `JoinPlan`, `Histogram`). Subset enumeration, the plan cache,
  the cost of left-deep plans, and selectivity estimates in exact reals.

`dafny verify dfyconfig.toml` checks everything.

## Where the code does not do what it is for

Each of these has a lemma or method with a concrete input, next to the exact condition.

* `abort_txn` of lab 2 discards the transaction's pages before it rolls back, and with them other
  transactions' unflushed bytes on the same pages (`AbortKeepsOthersIff`). Whether a committed byte is
  lost in a crash depends on who writes it next: `EveryCrashRecoversIff` is the condition,
  `DiscardLosesCommittedUpdate` a run that loses one, `SafeRuns.CrashRecovery` the case without such
  discards.
* `addSlot` compares the record size alone with the free space and forgets the new slot entry, after
  which the free space can wrap around (`AllocateLayout`, `RecordWithoutRoomForItsSlot`).
* The lab 3 pool does not clear a discarded frame, and a read past the end of a file leaves the buffer
  as it was. A page faulted into a frame with other bytes than zero past the end of the file shows
  those, perhaps an aborted transaction's (`FixPage`, `ReadsAbortedWrite`), and it goes on showing them
  while it is resident and nobody writes it, even when the file has grown over it
  (`ReadsAbortedWriteOnFile`). A fault on a page that lies in its file is always clean (`OnFileIff`).
* `compute_cost_and_card_of_subplan` reports success without filling in its result when an attempt is
  not cheaper, so the plan of a set of joins may be lost unless each possible attempt is strictly
  cheaper than the one before it (`PlanIffDescending`, `EqualTablesGetNoPlan`).
* "Greater than" also counts the value itself (`GtIsGe`, `GtLeIff`, `GtAndLeOverlap`), and "equal"
  divides by the full width of a bucket that the range cuts off (`EqGapIff`, `EqMissesGap`).

Where comments and code differ, the model follows the code. The comment above `recovery` says that redo
replays the entire log and rolls back at ABORT records; the code redoes committed transactions only. A
checkpoint's active list is never written to the log file, so the branch of recovery that reads it adds
nobody (`AnalysisPass`).

## Model

| member | source | states |
|---|---|---|
| `LogRecord.ParseEncoded` | lab2_Logging_and_Recovery/src/log/log_manager.cc:298-371 | reading the bytes that were written for a record gives back the record, all fields except a checkpoint's active list |
| `LogRecord.RecordBytes` | lab2_Logging_and_Recovery/src/log/log_manager.cc:298-383 | record i of the log occupies exactly the bytes between its boundary and the next one, `get_record_size` apart |
| `LogRecord.ParseAt` | lab2_Logging_and_Recovery/src/log/log_manager.cc:331-383 | at every boundary of a file that holds a log, reading gives the record there and its size leads to the next boundary |
| `LogRecord.ScanRoundTrip` | lab2_Logging_and_Recovery/src/log/log_manager.cc:331-383 | stepping from any boundary to the log end returns exactly the records from there on, none split, none skipped |
| `WriteAheadLog.LogManager.WriteLogRecord` | lab2_Logging_and_Recovery/src/log/log_manager.cc:298-329 | appends exactly one record at the current offset, advances the offset by its size, and changes no earlier byte |
| `WriteAheadLog.LogManager.ReadLogRecord` | lab2_Logging_and_Recovery/src/log/log_manager.cc:331-383 | at a boundary returns the record that was appended there; its size leads to the next boundary |
| `Bytes.U64RoundTrip` | lab2_Logging_and_Recovery/src/log/log_manager.cc:305-321 | a 64-bit field decodes to the value that was encoded |
| `RecoverySpec.RedoIsLastCommitted` | lab2_Logging_and_Recovery/src/log/log_manager.cc:236-251 | replaying the after images of committed transactions in log order gives each byte the after image of the last committed update covering it, else its initial value; "last committed" is stated independently of the replay |
| `RecoverySpec.CommittedIsHasCommit` | lab2_Logging_and_Recovery/src/log/log_manager.cc:191-224 | the analysis pass finds committed exactly the transactions that have a COMMIT record |
| `RecoverySpec.RedoDepends` | lab2_Logging_and_Recovery/src/log/log_manager.cc:236-251 | what redo leaves in a byte depends on the starting byte only if no winner covers it |
| `RecoverySpec.UndoAllSingle` | lab2_Logging_and_Recovery/src/log/log_manager.cc:253-256 | if only one loser covers a byte, undoing all losers in order is undoing that one |
| `RecoveryRuns.StepKeepsInv` | lab2_Logging_and_Recovery/src/log/log_manager.cc:76-169 | begin, write, commit, abort with any discards, checkpoint and flush each keep the invariant: one live writer per byte, and a byte that no committed update covers has its initial value or is to be undone to it |
| `RecoveryRuns.RunKeepsInv` | lab2_Logging_and_Recovery/src/log/log_manager.cc:76-169 | the invariant holds in every state of every run with new ids and no two unfinished writers of a byte, for any interleaving, flushes and discards |
| `RecoveryRuns.RecoversIff` | lab2_Logging_and_Recovery/src/log/log_manager.cc:182-263 | recovery from a state gives a byte its last committed value if and only if the live transaction that covers it, if any, is undone to that value |
| `RecoveryRuns.FirstWriteLasts` | lab2_Logging_and_Recovery/src/log/log_manager.cc:272-296 | what a live transaction will be undone to is what it saw when it first wrote the byte, and the last committed value has not changed since |
| `RecoveryRuns.CrashRecoveryIff` | lab2_Logging_and_Recovery/src/log/log_manager.cc:182-263 | a crash in any state of any run is recovered at a byte if and only if the unfinished transaction that wrote the byte, if any, found the last committed value there when it first wrote it |
| `RecoveryRuns.EveryCrashRecoversIff` | lab2_Logging_and_Recovery/src/log/log_manager.cc:182-263 | a run recovers a byte wherever it crashes if and only if every first write of the byte by a transaction finds its last committed value |
| `RecoveryRuns.LastCommittedIsUnique` | lab2_Logging_and_Recovery/src/log/log_manager.cc:182-263 | a byte has one last committed value |
| `SafeRuns.StepKeepsSafe` | lab2_Logging_and_Recovery/src/log/log_manager.cc:76-169 | a step that discards nobody else's unflushed bytes keeps every byte as the last committed update left it, or as a live transaction wrote it |
| `SafeRuns.CrashRecovery` | lab2_Logging_and_Recovery/src/log/log_manager.cc:182-263 | in runs without such discards a crash after any number of steps, followed by recovery, leaves every byte at its last committed value |
| `RecoveryRuns.RollbackMeaning` | lab2_Logging_and_Recovery/src/log/log_manager.cc:272-296 | rollback gives each byte the transaction updated the before image of its oldest covering update and changes no other byte, with other transactions interleaved and its own updates overlapping |
| `RecoveryRuns.FreshBegin` | lab2_Logging_and_Recovery/src/log/log_manager.cc:138-148 | a begin record for a new id makes it active, with its first record at the end of the log |
| `RecoveryTheorems.RollbackRestores` | lab2_Logging_and_Recovery/src/log/log_manager.cc:272-296 | in every run an abort restores each byte to what it was before the transaction first wrote it, in the pool and on disk, whatever was discarded |
| `RecoveryTheorems.AbortKeepsOthersIff` | lab2_Logging_and_Recovery/src/transaction/transaction_manager.cc:76-97 | an abort leaves all bytes of other transactions alone if and only if no page it discards holds an unflushed byte of somebody else |
| `RecoveryTheorems.FlushThenAbort` | lab2_Logging_and_Recovery/src/transaction/transaction_manager.cc:76-97 | who flushes the discarded pages before an abort keeps all bytes the transaction did not write, in the pool and on disk |
| `RecoveryTheorems.WritesAreRecovery` | lab2_Logging_and_Recovery/src/log/log_manager.cc:236-256 | the individual page writes of redo and undo, applied in order, are recovery |
| `RecoveryTheorems.RecoveredDepends` | lab2_Logging_and_Recovery/src/log/log_manager.cc:236-262 | bytes that recovery covers end up independent of the starting disk, all others are untouched |
| `RecoveryTheorems.RecoveryRestartable` | lab2_Logging_and_Recovery/src/log/log_manager.cc:236-262 | stopping recovery after any of its writes, with any pages flushed at any time, and running it again gives the disk of one uninterrupted run |
| `RecoveryTheorems.RecoveryIdempotent` | lab2_Logging_and_Recovery/src/log/log_manager.cc:182-263 | recovering twice is recovering once |
| `LostUpdate.RunsToCrash` | lab2_Logging_and_Recovery/src/transaction/transaction_manager.cc:76-97 | a concrete run in which one abort discards a page with another transaction's unflushed byte |
| `LostUpdate.DiscardLosesCommittedUpdate` | lab2_Logging_and_Recovery/src/transaction/transaction_manager.cc:76-97 | after that run recovery replaces a committed byte by its initial value |
| `WriteAheadLog.LogManager.LogTxnBegin` | lab2_Logging_and_Recovery/src/log/log_manager.cc:138-148 | appends BEGIN, makes the transaction active and remembers its first record |
| `WriteAheadLog.LogManager.LogCommit` | lab2_Logging_and_Recovery/src/log/log_manager.cc:93-101 | appends COMMIT; the transaction is no longer active |
| `WriteAheadLog.LogManager.LogUpdate` | lab2_Logging_and_Recovery/src/log/log_manager.cc:113-131 | appends the update with both images |
| `WriteAheadLog.LogManager.LogAbort` | lab2_Logging_and_Recovery/src/log/log_manager.cc:76-86 | rolls back, makes the result durable, then appends ABORT; succeeds exactly if there are frames for the pages of the rollback |
| `WriteAheadLog.LogManager.LogCheckpoint` | lab2_Logging_and_Recovery/src/log/log_manager.cc:155-169 | flushes everything and appends a checkpoint whose active list is lost |
| `WriteAheadLog.LogManager.RollbackTxn` | lab2_Logging_and_Recovery/src/log/log_manager.cc:272-296 | every byte seen afterwards is the rolled back one, and the disk equals it; succeeds exactly if there are frames for the pages the transaction updated |
| `WriteAheadLog.LogManager.AnalysisPass` | lab2_Logging_and_Recovery/src/log/log_manager.cc:183-234 | the scan over the log file computes the analysis of the records; the checkpoint branch adds nobody |
| `WriteAheadLog.LogManager.RedoPass` | lab2_Logging_and_Recovery/src/log/log_manager.cc:236-251 | the second scan leaves every byte as redo of the committed transactions says; succeeds exactly if there are frames for their pages |
| `WriteAheadLog.LogManager.UndoPass` | lab2_Logging_and_Recovery/src/log/log_manager.cc:253-256 | the loop over the losers in ascending order leaves every byte as undoing them all says; succeeds exactly if there are frames for their pages |
| `WriteAheadLog.LogManager.Recovery` | lab2_Logging_and_Recovery/src/log/log_manager.cc:182-263 | on the bytes of the log file and the page frames, recovery turns every byte into the recovered one and makes the disk equal to it; it succeeds exactly if the frames handed out so far and the absent pages to recover are fewer than the capacity, and no page id is invalid |
| `WriteAheadLog.LogManager.Reset` | lab2_Logging_and_Recovery/src/log/log_manager.cc:49-55 | reopening the log file keeps the log end and the tables |
| `PageIds.PageIdRoundTrip` | lab2_Logging_and_Recovery/src/include/buffer/buffer_manager.h:83-98 | segment and page within it make up a page id, and every page id splits into exactly one such pair |
| `BufferPool.PageOnDisk` | lab2_Logging_and_Recovery/src/include/buffer/buffer_manager.h:83-98 | the bytes of page `n` of a segment are those of the segment's own file from `n` times the page size on, zero past its end or without a file |
| `BufferPool.PagesDisjoint` | lab2_Logging_and_Recovery/src/include/buffer/buffer_manager.h:83-98 | distinct pages of a segment occupy disjoint file ranges |
| `BufferPool.WritePageBytes` | lab2_Logging_and_Recovery/src/buffer/buffer_manager.cc:88-96 | writing a frame changes the disk bytes of its page only |
| `BufferPool.FrameOfUnique` | lab2_Logging_and_Recovery/src/buffer/buffer_manager.cc:158-170 | a page is in at most one frame, the one the search returns |
| `BufferPool.BufferManager.FixPage` | lab2_Logging_and_Recovery/src/buffer/buffer_manager.cc:44-76 | brings a page in without changing any byte as seen through the pool; fails exactly for the invalid id or when the frames are used up; a fixed page costs a frame once; a page that was absent shows the bytes of its file |
| `BufferPool.FixedAbsent` | lab2_Logging_and_Recovery/src/buffer/buffer_manager.cc:44-76 | fixing an absent page uses up one frame and makes no set of pages with it easier or harder to fix |
| `BufferPool.BufferManager.CopyIn` | lab2_Logging_and_Recovery/src/heap/heap_file.cc:249-251 | a memcpy into a fixed frame changes exactly those bytes of that page as seen through the pool |
| `BufferPool.BufferManager.UnfixPage` | lab2_Logging_and_Recovery/src/buffer/buffer_manager.cc:98-104 | a frame stays dirty once it is |
| `BufferPool.BufferManager.FlushPage` | lab2_Logging_and_Recovery/src/buffer/buffer_manager.cc:106-118 | the page's disk bytes become the seen ones, nothing else changes |
| `BufferPool.BufferManager.FlushAllPages` | lab2_Logging_and_Recovery/src/buffer/buffer_manager.cc:133-143 | the whole disk becomes what is seen |
| `BufferPool.BufferManager.DiscardPage` | lab2_Logging_and_Recovery/src/buffer/buffer_manager.cc:120-131 | the page falls back to its disk bytes, all others stay as seen |
| `BufferPool.BufferManager.DiscardAllPages` | lab2_Logging_and_Recovery/src/buffer/buffer_manager.cc:145-156 | everything seen falls back to the disk |
| `BufferPool.BufferManager.GetFrameIdOfPage` | lab2_Logging_and_Recovery/src/buffer/buffer_manager.cc:158-170 | finds the frame of a page if and only if it has one |
| `Transactions.Database.StartTxn` | lab2_Logging_and_Recovery/src/transaction/transaction_manager.cc:37-50 | a new id, begun in the log; it is fresh |
| `Transactions.Database.CommitTxn` | lab2_Logging_and_Recovery/src/transaction/transaction_manager.cc:52-74 | flushes the registered pages and logs COMMIT: a commit step of the run; unknown and finished transactions change nothing |
| `Transactions.Database.AbortTxn` | lab2_Logging_and_Recovery/src/transaction/transaction_manager.cc:76-97 | discards the registered pages, rolls back, flushes and logs ABORT: an abort step of the run; succeeds exactly if there are frames to roll back after the discard |
| `Transactions.Database.HeapWrite` | lab2_Logging_and_Recovery/src/heap/heap_file.cc:228-257 | finds the record through its slot, saves the before image, copies the record in and logs the update, under any transaction id; a write step of the run if the transaction is unfinished |
| `Transactions.Database.Checkpoint` | lab2_Logging_and_Recovery/src/log/log_manager.cc:155-169 | a checkpoint step of the run |
| `Transactions.Database.CrashAndRecover` | lab2_Logging_and_Recovery/src/log/log_manager.cc:182-263 | after a crash recovery succeeds exactly if there are frames for its pages; from every reachable state a byte ends, seen and on disk, at its last committed value if and only if its live writer is undone to that, and after safe steps always |
| `SlottedPage.SlotRoundTrip` | lab2_Logging_and_Recovery/src/storage/slotted_page.cc:121-125 | slot fields decode to what was packed if and only if they fit in 24 bits |
| `SlottedPage.TidRoundTrip` | lab2_Logging_and_Recovery/src/storage/slotted_page.cc:17 | page and slot number decode from the tuple id they were packed into |
| `SlottedPage.AllocateLayout` | lab2_Logging_and_Recovery/src/storage/slotted_page.cc:104-162 | allocation keeps the page layout if and only if a slot is reused or the record and its 8-byte slot entry fit; otherwise the free space wraps |
| `SlottedPage.Page.AddSlot` | lab2_Logging_and_Recovery/src/storage/slotted_page.cc:104-162 | records are allocated downwards, disjoint and above the slot array; live records keep their bytes |
| `SlottedPage.Page.Write` | lab2_Logging_and_Recovery/src/heap/heap_file.cc:228-257 | writes exactly these bytes at the record's start; the slots stay and every record out of reach, so up to the slot's length no other record changes |
| `SlottedPage.RecordWithoutRoomForItsSlot` | lab2_Logging_and_Recovery/src/storage/slotted_page.cc:104-162 | a page of 40 bytes accepts a record of 8 bytes and loses its layout |
| `SlottedPage.Page.Read` | lab2_Logging_and_Recovery/src/heap/heap_file.cc:198-226 | returns the record's first bytes; fails exactly when more is asked for than the slot holds |
| `HeapSegments.HeapSegment.Allocate` | lab2_Logging_and_Recovery/src/heap/heap_file.cc:151-196 | the first page with enough free space, else a new one; the segment stays consistent if and only if the slot entry fits, too, and then the new record is live under a new tuple id and all others stay |
| `HeapSegments.HeapSegment.Write` | lab2_Logging_and_Recovery/src/heap/heap_file.cc:228-257 | over all pages of the segment, no record out of reach changes; up to the slot's length only the record of this tuple id does |
| `HeapSegments.HeapSegment.Read` | lab2_Logging_and_Recovery/src/heap/heap_file.cc:198-226 | reads the record of this tuple id |
| `HeapSegments.HeapSegment.ReadsLastWrite` | lab2_Logging_and_Recovery/src/heap/heap_file.cc:198-257 | a read returns the last write to its tuple id, also after a write to another one |
| `FrameLocks.ConflictByMode` | lab3_Concurreny_Control/src/buffer/buffer_manager.cc:42-72 | a shared request conflicts with another transaction's exclusive entry, an exclusive request with any entry of another transaction |
| `FrameLocks.FrameLockManager.CanGrantLock` | lab3_Concurreny_Control/src/buffer/buffer_manager.cc:42-72 | true exactly when no other entry conflicts, the same condition under which a grant does not wait |
| `FrameLocks.FrameLockManager.GrantLock` | lab3_Concurreny_Control/src/buffer/buffer_manager.cc:74-188 | granted at once if and only if nothing conflicts; the requester then has one entry, in the mode asked for or the stronger one it had, an exclusive entry alone; a waiter is queued |
| `FrameLocks.FrameLockManager.ResumeUpgrade` | lab3_Concurreny_Control/src/buffer/buffer_manager.cc:97-130 | a waiting upgrade succeeds if and only if the requester is the only holder |
| `FrameLocks.FrameLockManager.ResumeQueued` | lab3_Concurreny_Control/src/buffer/buffer_manager.cc:132-188 | a queued request succeeds if and only if nothing conflicts; the waiter leaves the queue either way |
| `FrameLocks.FrameLockManager.ReleaseLock` | lab3_Concurreny_Control/src/buffer/buffer_manager.cc:190-204 | removes exactly the transaction's entries |
| `FrameLocks.FrameLockManager.CanUpgradeLock` | lab3_Concurreny_Control/src/buffer/buffer_manager.cc:242-259 | true exactly for the only holder in shared mode |
| `FrameLocks.WithoutKeepsOthers` | lab3_Concurreny_Control/src/buffer/buffer_manager.cc:190-204 | releasing changes nobody else's locks |
| `WaitGraph.HasCycle` | lab3_Concurreny_Control/src/buffer/buffer_manager.cc:276-305 | terminates, finds a path back to the start avoiding the visited transactions if and only if there is one, restores the visited set otherwise; what it has visited on success leads to the start |
| `WaitGraph.SearchMeansCycle` | lab3_Concurreny_Control/src/buffer/buffer_manager.cc:276-305 | from the empty visited set the search decides whether the transaction waits, directly or not, for itself |
| `WaitGraph.ReplaceEdgeAcyclic` | lab3_Concurreny_Control/src/buffer/buffer_manager.cc:310-321 | replacing the requester's edges keeps the graph acyclic unless a cycle passes through the requester |
| `WaitGraph.SubgraphAcyclic` | lab3_Concurreny_Control/src/buffer/buffer_manager.cc:323-342 | erasing edges keeps the graph acyclic |
| `WaitGraph.CheckDeadlock` | lab3_Concurreny_Control/src/buffer/buffer_manager.cc:307-345 | a deadlock is reported exactly when the new edge closes a cycle; the graph stays acyclic; a reported requester disappears from it, and of the other waits only those of transactions that led to the requester |
| `TwoPhase.AccessKeeps` | lab3_Concurreny_Control/src/buffer/buffer_manager.cc:347-435 | a granted access keeps all locks held to the end and all conflicts separated by an end |
| `TwoPhase.ReleaseKeeps` | lab3_Concurreny_Control/src/buffer/buffer_manager.cc:481-497 | releasing the locks of an ended transaction keeps the discipline |
| `TwoPhase.ConflictsFollowEnds` | lab3_Concurreny_Control/src/buffer/buffer_manager.cc:756-768 | any two conflicting accesses occur in the order in which their transactions complete |
| `TwoPhase.EndsAreSerialOrder` | lab3_Concurreny_Control/src/buffer/buffer_manager.cc:756-768 | conflict serializability: along any chain of conflicts the ends go up, so the conflict order has no cycle |
| `LockManagement.LockManager.AcquireLock` | lab3_Concurreny_Control/src/buffer/buffer_manager.cc:347-435 | granted if and only if no other entry conflicts, refused as a deadlock if and only if waiting for some other holder would close a cycle, else waiting for the one with the greatest id; a deadlock keeps every wait of a transaction that does not lead to the requester; graph acyclic, lock indexes in agreement and history strict in every case |
| `LockManagement.LockManager.CheckHolders` | lab3_Concurreny_Control/src/buffer/buffer_manager.cc:394-401 | a deadlock is reported exactly if waiting for one of the holders closes a cycle, and then the requester leaves the graph, and with it only waits of transactions that led to it; otherwise only the edge to the holder with the greatest id remains |
| `LockManagement.LockManager.GetFrameLockManager` | lab3_Concurreny_Control/src/buffer/buffer_manager.cc:263-274 | every page gets one lock manager of its own, which changes no entry |
| `LockManagement.LockManager.FindConflict` | lab3_Concurreny_Control/src/buffer/buffer_manager.cc:372-392 | the search over the transactions' own lock sets finds a conflict exactly when the page's entries hold one |
| `LockManagement.LockManager.ResumeAcquire` | lab3_Concurreny_Control/src/buffer/buffer_manager.cc:403-420 | the end of a wait: granted if and only if nothing conflicts any more, otherwise nothing changes |
| `LockManagement.LockManager.ReleaseLock` | lab3_Concurreny_Control/src/buffer/buffer_manager.cc:454-479 | removes the entry, if there is one, from both indexes, and from the wait-for graph exactly the waits for and of the transaction; histories stay strict if its end was recorded |
| `LockManagement.LockManager.ReleaseAllLocks` | lab3_Concurreny_Control/src/buffer/buffer_manager.cc:481-497 | afterwards no page anywhere has an entry of the transaction; everybody else's entries stay; if it held a page, exactly the waits for and of the transaction are gone, else all waits stay |
| `PoolState.DiscardShape` | lab3_Concurreny_Control/src/buffer/buffer_manager.cc:729-754 | discarding keeps page table and free list a partition of the frames without duplicates |
| `PoolState.PageBytesOnFile` | lab3_Concurreny_Control/src/buffer/buffer_manager.cc:782-803 | what counts as the content of a page on disk is exactly the page's range of its segment's file |
| `PoolState.WriteDisk` | lab3_Concurreny_Control/src/buffer/buffer_manager.cc:793-803 | writing a page leaves all other pages of the file as they were |
| `PoolState.OwnWork` | lab3_Concurreny_Control/src/buffer/buffer_manager.cc:576-637 | only the transaction with an entry on a page can have written it |
| `PoolState.PublishContents` | lab3_Concurreny_Control/src/buffer/buffer_manager.cc:711-727 | flushing one page of a committing transaction keeps pool, disk and ideal store in step |
| `PoolState.DropContents` | lab3_Concurreny_Control/src/buffer/buffer_manager.cc:729-754 | so does discarding one page of an aborting transaction |
| `PoolState.SeesIdeal` | lab3_Concurreny_Control/src/buffer/buffer_manager.cc:576-637 | a transaction with an entry on a resident page sees its own writes, else the committed content, if and only if the page is not stale |
| `PoolState.CleanShowsDisk` | lab3_Concurreny_Control/src/buffer/buffer_manager.cc:576-637 | a clean resident page shows what the disk holds if and only if it is not stale |
| `PoolState.ReadContents` | lab3_Concurreny_Control/src/buffer/buffer_manager.cc:782-791 | a page fault keeps pool, disk and ideal store in step, and makes the page stale exactly if it is not clean |
| `PoolState.FaultIff` | lab3_Concurreny_Control/src/buffer/buffer_manager.cc:782-791 | a fault shows the file's bytes, zero past its end, if and only if the frame held zeros there |
| `LockingPool.TransactionalBuffer.FixPage` | lab3_Concurreny_Control/src/buffer/buffer_manager.cc:576-637 | fails exactly for want of a frame, or, if shared, because another transaction has an exclusive entry on the page, or, if exclusive, because another one has any entry; records a shared or an exclusive access and leaves the transaction with that entry or the stronger one it had; shows the transaction its own writes or the committed disk content if and only if the page is not stale, for every page; it becomes stale exactly by an unclean fault |
| `LockingPool.FixTogether` | lab3_Concurreny_Control/src/buffer/buffer_manager.cc:576-637 | two transactions can fix a page that nobody holds exclusively, and then both hold it shared |
| `LockingPool.TransactionalBuffer.WritePinned` | lab3_Concurreny_Control/src/buffer/buffer_manager.cc:639-647 | a dirty unfix under an exclusive lock is a private write of the ideal store; no lock is released |
| `LockingPool.TransactionalBuffer.FlushPages` | lab3_Concurreny_Control/src/buffer/buffer_manager.cc:711-727 | all private writes of the transaction become committed, and the disk shows them |
| `LockingPool.TransactionalBuffer.TransactionComplete` | lab3_Concurreny_Control/src/buffer/buffer_manager.cc:756-768 | commit: private writes become the committed contents on disk, the end is recorded, no entry is left |
| `LockingPool.TransactionalBuffer.TransactionAbort` | lab3_Concurreny_Control/src/buffer/buffer_manager.cc:770-780 | abort, also after a failed fix: private writes vanish, the disk does not change, no entry is left; exactly the pages the transaction fixed lose their frames |
| `LockingTransactions.TransactionManager.CommitTxn` | lab3_Concurreny_Control/src/transaction/transaction_manager.cc:41-57 | flush and complete together commit the transaction once; unknown and finished transactions change nothing |
| `LockingTransactions.TransactionManager.AbortTxn` | lab3_Concurreny_Control/src/transaction/transaction_manager.cc:60-75 | discard before release: the transaction's writes vanish, its flush finds nothing and the files stay as they are |
| `LockingTransactions.StaleBytesIff` | lab3_Concurreny_Control/src/buffer/buffer_manager.cc:782-791 | what a page fault shows depends on the file alone if and only if the whole page lies in the file |
| `LockingTransactions.OnFileIff` | lab3_Concurreny_Control/src/buffer/buffer_manager.cc:782-791 | a page fault is clean whatever the frame held if and only if the whole page lies in the file |
| `LockingTransactions.ReadsAbortedWrite` | lab3_Concurreny_Control/src/buffer/buffer_manager.cc:729-754 | over empty files the next transaction can read from its page exactly the bytes an aborted one wrote |
| `LockingTransactions.ReadsAbortedWriteOnFile` | lab3_Concurreny_Control/src/buffer/buffer_manager.cc:576-754 | so can a later one when a commit has put the page on file in the meantime, as a zero |
| `WordFile.File.ReadWords` | lab1_External_Sort/src/storage/posix_file.cc:76-92 | words past the end of the file read as zero |
| `ExternalSort.ChunksTile` | lab1_External_Sort/src/external_sort/external_sort.cc:21-32 | the chunks tile the input: none empty, all but the last full, the last ends with the input |
| `ExternalSort.MakeRun` | lab1_External_Sort/src/external_sort/external_sort.cc:29-47 | a chunk's temporary file holds the ascending permutation of its words; the buffer fits in the memory size |
| `ExternalSort.MakeRuns` | lab1_External_Sort/src/external_sort/external_sort.cc:28-49 | the runs together hold exactly the first words of the input |
| `ExternalSort.LeastOfRest` | lab1_External_Sort/src/external_sort/external_sort.cc:85-92 | a least element of the queue is a least element of everything not yet merged |
| `ExternalSort.FillQueue` | lab1_External_Sort/src/external_sort/external_sort.cc:69-78 | the queue starts with exactly the first word of every run |
| `ExternalSort.Refill` | lab1_External_Sort/src/external_sort/external_sort.cc:94-108 | the queue again holds exactly the next word of every unexhausted run; reads stay inside the run |
| `ExternalSort.MergeStep` | lab1_External_Sort/src/external_sort/external_sort.cc:85-108 | one step keeps the output ascending, loses no word and stays inside the output file |
| `ExternalSort.Merge` | lab1_External_Sort/src/external_sort/external_sort.cc:84-109 | the merge terminates with the ascending permutation of all runs |
| `ExternalSort.ExternalSort` | lab1_External_Sort/src/external_sort/external_sort.cc:19-110 | for any input and any memory size of at least 8 the output is the ascending permutation of the first words of the input |
| `MergeQueue.LeastExists` | lab1_External_Sort/src/external_sort/external_sort.cc:64 | a non-empty queue has a least element to pop |
| `Subsets.StepIsNext` | lab4_Query_Optimizer/src/optimizer/join_optimizer.cc:236 | a step of the bit vector goes up and skips no vector with as many ones |
| `Subsets.NextPermutation` | lab4_Query_Optimizer/src/optimizer/join_optimizer.cc:236 | steps to the next vector, or answers false exactly at the last one |
| `Subsets.PickedIsSubset` | lab4_Query_Optimizer/src/optimizer/join_optimizer.cc:229-233 | for distinct elements the vectors with k ones pick exactly the subsets of size k |
| `Subsets.EnumerateSubsets` | lab4_Query_Optimizer/src/optimizer/join_optimizer.cc:222-238 | terminates and returns exactly all subsets of the given size of a list of distinct elements |
| `JoinPlan.ExtendedIsFull` | lab4_Query_Optimizer/src/optimizer/join_optimizer.cc:257-353 | putting a join on a full plan of the others gives a plan that lists each join once, possibly swapped, without a cross product |
| `JoinPlan.ExtendedIsGood` | lab4_Query_Optimizer/src/optimizer/join_optimizer.cc:285-353 | cost and cardinality recorded for the new plan are those of nested loops with the first table of each listed join as outer side, and no join in it would be cheaper with its sides swapped |
| `JoinPlan.OneSidedCost` | lab4_Query_Optimizer/src/optimizer/join_optimizer.cc:331-350 | where no join has both its tables in the joins before it, the recorded cost is a function of the plan alone, and swapping its last join never makes it cheaper |
| `JoinPlan.JoinCardLaws` | lab4_Query_Optimizer/src/optimizer/join_optimizer.cc:62-95 | the estimated cardinality does not depend on the orientation, except for the two tables with fixed results, and stays within the side without a key |
| `JoinPlan.TraceIsGood` | lab4_Query_Optimizer/src/optimizer/join_optimizer.cc:183-198 | whatever the order of attempts, the best plan of a set is empty or full, and costs what is recorded for it |
| `JoinPlan.PlanIffDescending` | lab4_Query_Optimizer/src/optimizer/join_optimizer.cc:188-198 | a set with a possible attempt gets a plan whatever the unfilled results hold, if and only if each possible attempt is strictly cheaper than the possible one before it, the first below the limit; then the plan is the cheapest attempt |
| `JoinPlan.JoinOptimizer.ComputeCostAndCard` | lab4_Query_Optimizer/src/optimizer/join_optimizer.cc:257-353 | succeeds exactly when the join shares a table with the cached plan of the others, also when it is not cheaper and then leaves its result unfilled; a new plan has the cheaper orientation of the join and the cost of the plan |
| `JoinPlan.JoinOptimizer.PlanSubset` | lab4_Query_Optimizer/src/optimizer/join_optimizer.cc:183-198 | tries every join of the set as the last one; a plan is found exactly when some attempt is possible, and costs what is recorded |
| `JoinPlan.JoinOptimizer.OrderJoins` | lab4_Query_Optimizer/src/optimizer/join_optimizer.cc:177-211 | the result is the plan that the dynamic program defines for all joins, every set planned from its largest proper subsets; it is empty or lists each join exactly once without a cross product, with every join in the orientation that costs what was recorded |
| `JoinPlan.SolvedNext` | lab4_Query_Optimizer/src/optimizer/join_optimizer.cc:180-204 | planning one more set of the current size leaves all plans made before what the dynamic program defines |
| `JoinPlan.EqualTablesGetNoPlan` | lab4_Query_Optimizer/src/optimizer/join_optimizer.cc:97-212 | over three equal tables `order_joins` returns an empty plan for two joins, although both orders are full plans |
| `JoinPlan.NoPlanForBoth` | lab4_Query_Optimizer/src/optimizer/join_optimizer.cc:190-202 | whatever the order of attempts, the dynamic program gives these two joins an empty plan |
| `JoinPlan.DoesJoin` | lab4_Query_Optimizer/src/optimizer/join_optimizer.cc:359-364 | true exactly if some join of the plan mentions the table |
| `JoinPlan.HasPkey` | lab4_Query_Optimizer/src/optimizer/join_optimizer.cc:370-375 | true exactly if some join of the plan uses a key field |
| `JoinPlan.PlanCache.AddPlan` | lab4_Query_Optimizer/src/include/optimizer/join_optimizer.h:75-80 | adds or replaces the plan of one set |
| `Histogram.BucketContains` | lab4_Query_Optimizer/src/optimizer/table_stats.cc:28-45 | a value in range falls into an existing bucket that contains it; the clamp never fires |
| `Histogram.CountsAddUp` | lab4_Query_Optimizer/src/optimizer/table_stats.cc:39-50 | the bucket counts add up to the number of accepted values |
| `Histogram.AddedDescribes` | lab4_Query_Optimizer/src/optimizer/table_stats.cc:39-50 | every accepted value is counted by the bucket it lies in, and by no other |
| `Histogram.WidthIsLeast` | lab4_Query_Optimizer/src/optimizer/table_stats.cc:23-33 | the width of a bucket is the least width of at least 1 with which the buckets cover the range |
| `Histogram.EstimateIsAccurate` | lab4_Query_Optimizer/src/optimizer/table_stats.cc:62-157 | for each of the six operators the estimate differs from the fraction of the values `x` with `x op v` by at most the share of v's bucket, and is that fraction out of range |
| `Histogram.Interpolates` | lab4_Query_Optimizer/src/optimizer/table_stats.cc:94-152 | "less than" is exact where a bucket starts and grows by the same step for each value of the bucket; "equal" spreads the bucket over its full width |
| `Histogram.LtIsMonotone` | lab4_Query_Optimizer/src/optimizer/table_stats.cc:112-121 | a greater bound is never less selective, and every estimate is a fraction |
| `Histogram.Complements` | lab4_Query_Optimizer/src/optimizer/table_stats.cc:99-137 | "less than" and "at least" add up to one for every value, "equal" and "not equal" as well |
| `Histogram.LeIsLtNext` | lab4_Query_Optimizer/src/optimizer/table_stats.cc:112-152 | "at most" is "less than" of the next value, for every value |
| `Histogram.GtIsGe` | lab4_Query_Optimizer/src/optimizer/table_stats.cc:102-137 | "greater than" gives the estimate of "at least" for every value |
| `Histogram.GtLeIff` | lab4_Query_Optimizer/src/optimizer/table_stats.cc:102-152 | "greater than" and "at most" add up to one if and only if the value is out of range or its bucket is empty |
| `Histogram.EqGapIff` | lab4_Query_Optimizer/src/optimizer/table_stats.cc:95-98 | "equal" is the gap between "at most" and "less than" if and only if the bucket is not cut off by the range, or is empty |
| `Histogram.GtAndLeOverlap` | lab4_Query_Optimizer/src/optimizer/table_stats.cc:102-152 | a histogram of one value for which "greater than" and "at most" do not add up to one |
| `Histogram.EqMissesGap` | lab4_Query_Optimizer/src/optimizer/table_stats.cc:95-98 | a histogram of one value for which "equal" is not the gap |
| `Histogram.IntHistogram.AddValue` | lab4_Query_Optimizer/src/optimizer/table_stats.cc:39-50 | a value in range is accepted and counted in its bucket, any other is ignored |
| `Histogram.IntHistogram.EstimateSelectivity` | lab4_Query_Optimizer/src/optimizer/table_stats.cc:62-157 | for every operator and value the answer is within the share of v's bucket of the true fraction of the added values, exact out of range, 0 for an empty histogram; it is the estimate the other rows are about |
| `WriteAheadLog.LogManager.WriteFields` | lab2_Logging_and_Recovery/src/log/log_manager.cc:298-329 | the field-by-field writes append exactly the encoding of the record |
| `WriteAheadLog.LogManager.CollectUpdates` | lab2_Logging_and_Recovery/src/log/log_manager.cc:273-285 | the scan of rollback collects exactly the transaction's updates, in log order |
| `WriteAheadLog.LogManager.ApplyBeforeImages` | lab2_Logging_and_Recovery/src/log/log_manager.cc:287-292 | writing the before images newest first undoes the collected updates; succeeds exactly if there are frames for their pages |
| `WriteAheadLog.LogManager.NoteTransaction` | lab2_Logging_and_Recovery/src/log/log_manager.cc:194-209 | one record changes the analysis as its type says |
| `WriteAheadLog.LogManager.AddListed` | lab2_Logging_and_Recovery/src/log/log_manager.cc:226-234 | transactions that a checkpoint lists count as unfinished unless they committed, and start at the listed offset; an empty list changes nothing |
| `BufferPool.BufferManager.WriteFrame` | lab2_Logging_and_Recovery/src/buffer/buffer_manager.cc:88-96 | the frame's page becomes on disk what is seen, no other page changes |
| `BufferPool.BufferManager.constructor` | lab2_Logging_and_Recovery/src/buffer/buffer_manager.cc:21-34 | an empty pool shows the disk |
| `Transactions.Database.AddModifiedPage` | lab2_Logging_and_Recovery/src/transaction/transaction_manager.cc:99-102 | registers a page with the transaction, an unknown one getting an entry that is not started, and changes nothing else |
| `SlottedPage.Page.StoreSlot` | lab2_Logging_and_Recovery/src/storage/slotted_page.cc:130-139 | the slot value goes into the first free slot or behind the last one; no other slot changes |
| `SlottedPage.Page.FindFree` | lab2_Logging_and_Recovery/src/storage/slotted_page.cc:147-159 | finds the first empty slot |
| `HeapSegments.HeapSegment.AddPage` | lab2_Logging_and_Recovery/src/heap/heap_file.cc:179-190 | the segment grows by one empty page with the next page number |
| `FrameLocks.FrameLockManager.HasLock` | lab3_Concurreny_Control/src/buffer/buffer_manager.cc:206-216 | true exactly for a transaction with an entry |
| `FrameLocks.FrameLockManager.HasLockInMode` | lab3_Concurreny_Control/src/buffer/buffer_manager.cc:218-240 | true exactly for a transaction with an entry of this mode |
| `WaitGraph.EraseTarget` | lab3_Concurreny_Control/src/buffer/buffer_manager.cc:327-334 | removes the transaction from every set of targets and reports exactly the sets that are empty |
| `LockingPool.TransactionalBuffer.Lock` | lab3_Concurreny_Control/src/buffer/buffer_manager.cc:591-595 | a lock request of the pool succeeds exactly if no other entry conflicts |
| `LockingPool.TransactionalBuffer.TakeFreeFrame` | lab3_Concurreny_Control/src/buffer/buffer_manager.cc:606-623 | the first free frame is taken for the page, its old bytes still in it |
| `LockingPool.TransactionalBuffer.ReadIn` | lab3_Concurreny_Control/src/buffer/buffer_manager.cc:782-791 | after the read the frame shows the file over its old bytes |
| `LockingPool.TransactionalBuffer.FlushPage` | lab3_Concurreny_Control/src/buffer/buffer_manager.cc:658-669 | a dirty page is written to its file and becomes clean |
| `LockingPool.TransactionalBuffer.DropFrame` | lab3_Concurreny_Control/src/buffer/buffer_manager.cc:671-688 | the page's frame goes to the end of the free list with its bytes |
| `LockingPool.TransactionalBuffer.DiscardPages` | lab3_Concurreny_Control/src/buffer/buffer_manager.cc:729-754 | all pages the transaction fixed leave the pool and its private writes vanish |
| `LockingTransactions.TransactionManager.StartTxn` | lab3_Concurreny_Control/src/transaction/transaction_manager.cc:27-38 | a new id, started |
| `WordFile.WrittenWord` | lab1_External_Sort/src/external_sort/external_sort.cc:90-92 | writing one word changes that word of the file only |
| `WordFile.File.WriteWords` | lab1_External_Sort/src/external_sort/external_sort.cc:46-47 | the temporary file holds exactly the words of the buffer |
| `MergeQueue.MinQueue.Pop` | lab1_External_Sort/src/external_sort/external_sort.cc:86-87 | removes one least element |
| `Subsets.PickSubset` | lab4_Query_Optimizer/src/optimizer/join_optimizer.cc:229-233 | collects the elements at the ones |
| `JoinPlan.PlanCache.GetOrder` | lab4_Query_Optimizer/src/include/optimizer/join_optimizer.h:86-91 | the cached plan of a set, empty if there is none |
| `Histogram.IntHistogram.constructor` | lab4_Query_Optimizer/src/optimizer/table_stats.cc:23-33 | an empty histogram |
| `Histogram.IntHistogram.Bucket` | lab4_Query_Optimizer/src/optimizer/table_stats.cc:86-92 | the bucket of a value in range, with its ends cut off by the range |

## Left out

- File errors, file names and short writes: a file is the sequence of its bytes; a write past the end grows it with zeros.
- Width of offsets and counters: log offsets, `current_offset_`, record and page counts, word positions in the sort and histogram counters are unbounded; record fields, page ids, tuple ids, slot fields and the 32-bit free space have their width.
- Aliasing through `BufferFrame&`: frames are values addressed by frame number. A reference kept after another reader's abort has freed the frame is not captured; `TransactionAbort` says which pages lose their frames.
- The raw pointer `header.buffer_frame` inside a page: the original reads slots through it, so a page that was discarded and loaded again reads them from the freed frame; the model reads them from the page itself.
- Log record counters and the printing functions.
- LockManagement.LockManager.AcquireLock: the reported deadlocks are not claimed to be all deadlocks; the graph keeps only the edge to the last holder, and the timeout covers the rest.
- LockingPool.TransactionalBuffer.FixPage: pool operations are atomic, so a wait inside the pool can only time out; threads that wait while others go on are modelled at the level of the lock manager. Fixing pages under the invalid transaction id, which are not tracked, is excluded.
- LockingPool.TransactionalBuffer.TransactionAbort: releasing and discarding are one step, so an interleaving between the two is not captured.
- FrameLocks.FrameLockManager.ResumeUpgrade: the original writes through a reference taken before the wait; the model updates the waiter's own entry.
- Transactions.Database.HeapWrite: slots and records that reach beyond the page are excluded, where the original reads and writes outside its memory. A write under an id that the counter has not reached yet is carried out, but leaves the invariant of the tables.
- HeapSegments.HeapSegment.Allocate: pages are kept apart from the buffer pool here, and the unlogged changes that allocation makes to page headers are not part of the recovery theorems. A slot entry that would lie outside its page is excluded.
- RecoveryRuns.CrashRecoveryIff: one epoch of the log, with new transaction ids; ids reused after the transaction manager starts over, and commits on top of losers without an ABORT record, are outside of these runs.
- ExternalSort.ExternalSort: a memory size below 8 divides by zero in the original. The internals of `std::sort` and `std::priority_queue` are replaced by an insertion sort and a queue that may return any least element.
- JoinPlan.JoinOptimizer.OrderJoins: only the path for equality joins without the special table names; neither the optimality of costs nor the costs' floating-point rounding. The largest double is a parameter, an unfilled cost is any number, and narrowing of cardinalities to `int` is not modelled.
- Histogram.EstimateIsAccurate: exact reals instead of doubles.
- Table statistics beyond the histogram, sequential scans, `compactify`, and the FIFO and LRU lists of the lab 2 pool.
