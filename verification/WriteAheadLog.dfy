/** The log manager: appends records to the log file, rolls one transaction back and
    recovers the pages after a crash. */
module WriteAheadLog {
  import opened Bytes
  import opened LogRecord
  import opened RecoverySpec
  import opened BufferPool

  /** The update stays inside its page. */
  predicate Fits(r: Record, pageSize: nat) {
    r.Update? ==> r.offset + |r.after| <= pageSize
  }

  ghost predicate AllFit(log: seq<Record>, pageSize: nat) {
    forall i :: 0 <= i < |log| ==> Fits(log[i], pageSize)
  }

  function UpdatesOf(log: seq<Record>, t: u64): seq<Record> {
    if log == [] then [] else
    var r := log[|log| - 1];
    UpdatesOf(log[..|log| - 1], t) + if r.Update? && r.txn == t then [r] else []
  }

  lemma {:induction false} UndoUpdatesOf(log: seq<Record>, t: u64, a: Addr, v: byte)
    ensures UndoAt(UpdatesOf(log, t), t, a, v) == UndoAt(log, t, a, v)
  {
    if log != [] {
      var front, r := log[..|log| - 1], log[|log| - 1];
      var last := if r.Update? && r.txn == t then [r] else [];
      assert log == front + [r];
      UndoConcat(front, [r], t, a, v);
      UndoConcat(UpdatesOf(front, t), last, t, a, v);
      UndoUpdatesOf(front, t, a, UndoAt([r], t, a, v));
      UndoOne(r, t, a, v);
    }
  }

  lemma UndoOne(r: Record, t: u64, a: Addr, v: byte)
    ensures UndoAt([r], t, a, v) == if Covers(r, a) && r.txn == t then r.before[a.off - r.offset] else v
  {
    assert UndoAt([r][1..], t, a, v) == v;
  }

  lemma {:induction false} UpdatesOfAre(log: seq<Record>, t: u64)
    ensures forall r :: r in UpdatesOf(log, t) <==> r in log && r.Update? && r.txn == t
  {
    if log != [] {
      UpdatesOfAre(log[..|log| - 1], t);
    }
  }

  /** The pages that redo of the transactions in `winners` fixes. */
  function RedoPages(log: seq<Record>, winners: set<u64>): set<u64> {
    set i | 0 <= i < |log| && log[i].Update? && log[i].txn in winners :: log[i].page
  }

  /** The pages that the rollbacks of `losers` fix. */
  function UndoPages(log: seq<Record>, first: map<u64, nat>, losers: set<u64>): set<u64> {
    set i | 0 <= i < |log| && log[i].Update? && log[i].txn in losers &&
      StartOf(log, first, log[i].txn) <= i :: log[i].page
  }

  /** All pages that recovery fixes. */
  function RecoveryPages(log: seq<Record>): set<u64> {
    var an := Analyse(log);
    RedoPages(log, an.committed) + UndoPages(log, an.first, an.active)
  }

  function PagesIn(updates: seq<Record>): set<u64> {
    set r | r in updates && r.Update? :: r.page
  }

  lemma PagesInCons(updates: seq<Record>, j: nat)
    requires j < |updates| && updates[j].Update?
    ensures PagesIn(updates[j..]) == PagesIn(updates[j + 1..]) + {updates[j].page} <= PagesIn(updates)
  {
    assert updates[j..] == [updates[j]] + updates[j + 1..];
    assert updates[j] in updates[j..] && forall r :: r in updates[j..] ==> r in updates;
  }

  lemma PagesOfRollback(log: seq<Record>, first: map<u64, nat>, t: u64)
    ensures PagesIn(UpdatesOf(log[StartOf(log, first, t)..], t)) == UndoPages(log, first, {t})
  {
    var start := StartOf(log, first, t);
    var tail := log[start..];
    UpdatesOfAre(tail, t);
    forall page ensures page in PagesIn(UpdatesOf(tail, t)) <==> page in UndoPages(log, first, {t}) {
      if page in PagesIn(UpdatesOf(tail, t)) {
        var r :| r in UpdatesOf(tail, t) && r.Update? && r.page == page;
        var i :| 0 <= i < |tail| && tail[i] == r;
        assert log[start + i] == r;
      }
      if page in UndoPages(log, first, {t}) {
        var i :| 0 <= i < |log| && log[i].Update? && log[i].txn == t && start <= i && log[i].page == page;
        assert tail[i - start] == log[i] && log[i] in UpdatesOf(tail, t);
      }
    }
  }

  lemma RedoPagesNext(log: seq<Record>, i: nat, winners: set<u64>)
    requires i < |log|
    ensures RedoPages(log[..i + 1], winners)
         == RedoPages(log[..i], winners) + if log[i].Update? && log[i].txn in winners then {log[i].page} else {}
    ensures RedoPages(log[..i + 1], winners) <= RedoPages(log, winners)
  {
    var longer := log[..i + 1];
    assert longer == log[..i] + [log[i]] && forall k :: 0 <= k < i ==> longer[k] == log[..i][k];
    assert forall k :: 0 <= k <= i ==> longer[k] == log[k];
    if log[i].Update? && log[i].txn in winners {
      assert longer[i].page in RedoPages(longer, winners);
    }
    forall page | page in RedoPages(log[..i], winners) ensures page in RedoPages(longer, winners) {
      var k :| 0 <= k < i && log[..i][k].Update? && log[..i][k].txn in winners && log[..i][k].page == page;
      assert longer[k].page == page;
    }
  }

  lemma UndoPagesUnion(log: seq<Record>, first: map<u64, nat>, losers: set<u64>, more: set<u64>)
    ensures UndoPages(log, first, losers + more) == UndoPages(log, first, losers) + UndoPages(log, first, more)
  {
  }

  lemma UndoPagesSameStarts(log: seq<Record>, first: map<u64, nat>, first': map<u64, nat>, losers: set<u64>)
    requires forall t :: t in losers ==> t in first && t in first' && first[t] == first'[t]
    ensures UndoPages(log, first, losers) == UndoPages(log, first', losers)
  {
  }

  /** What redo of one record makes of the byte at `a`. */
  function RedoOne(r: Record, committed: set<u64>, a: Addr, v: byte): byte {
    if Covers(r, a) && r.txn in committed then r.after[a.off - r.offset] else v
  }

  lemma RedoNext(log: seq<Record>, i: nat, committed: set<u64>, a: Addr, v: byte)
    requires i < |log|
    ensures RedoAt(log[..i + 1], committed, a, v) == RedoOne(log[i], committed, a, RedoAt(log[..i], committed, a, v))
  {
    assert log[..i + 1][..i] == log[..i];
  }

  lemma AppendBlock(file: seq<byte>, offset: nat, block: seq<byte>)
    requires offset <= |file|
    ensures |WriteBlock(file, offset, block)| >= offset + |block|
    ensures WriteBlock(file, offset, block)[..offset + |block|] == file[..offset] + block
  {
  }

  lemma {:induction false} ActiveHasFirst(log: seq<Record>)
    ensures Analyse(log).active <= Analyse(log).first.Keys
    ensures forall t :: t in Analyse(log).first ==> Analyse(log).first[t] < |log|
  {
    if log != [] {
      ActiveHasFirst(log[..|log| - 1]);
    }
  }

  lemma OffsetSnoc(log: seq<Record>, r: Record, i: nat)
    requires i <= |log|
    ensures Offset(log + [r], i) == Offset(log, i)
  {
    assert (log + [r])[..i] == log[..i];
  }

  lemma MergeUpdate(m: map<u64, nat>, n: map<u64, nat>, t: u64, i: nat)
    ensures m + n[t := i] == (m + n)[t := i]
  {
  }

  lemma EncodeStored(r: Record)
    ensures EncodeRecord(Stored(r)) == EncodeRecord(r)
  {
  }

  class LogManager {
    var logFile: seq<byte>
    var currentOffset: nat
    var firstLogRecord: map<u64, nat>
    var activeTxns: set<u64>
    ghost var records: seq<Record>
    ghost var firstIndex: map<u64, nat>

    /** The file up to the current offset is the encoding of `records`, and every entry of
        the first-record table points at a record boundary. */
    ghost predicate Valid()
      reads this
    {
      && Holds(logFile, records)
      && currentOffset == |EncodeLog(records)|
      && (forall i :: 0 <= i < |records| ==> Stored(records[i]) == records[i])
      && firstLogRecord.Keys == firstIndex.Keys
      && (forall t :: t in firstIndex ==>
           firstIndex[t] <= |records| && firstLogRecord[t] == Offset(records, firstIndex[t]))
    }

    constructor (logFile: seq<byte>)
      ensures Valid() && records == [] && activeTxns == {} && firstIndex == map[]
    {
      this.logFile := logFile;
      currentOffset, firstLogRecord, activeTxns, records, firstIndex := 0, map[], {}, [], map[];
    }

    /** Simulates a crash: the log file is opened again, offset and tables stay. */
    method Reset(logFile: seq<byte>)
      requires Valid() && logFile == this.logFile
      modifies this`logFile
      ensures Valid() && logFile == old(this.logFile)
    {
      this.logFile := logFile;
    }

    method Append(block: seq<byte>)
      requires currentOffset <= |logFile|
      modifies this`logFile, this`currentOffset
      ensures currentOffset == old(currentOffset) + |block| <= |logFile|
      ensures logFile[..currentOffset] == old(logFile[..currentOffset]) + block
    {
      AppendBlock(logFile, currentOffset, block);
      logFile := WriteBlock(logFile, currentOffset, block);
      currentOffset := currentOffset + |block|;
    }

    /** The field-by-field writes of one record. */
    method WriteFields(r: Record)
      requires currentOffset <= |logFile|
      modifies this`logFile, this`currentOffset
      ensures currentOffset == old(currentOffset) + |EncodeRecord(r)| <= |logFile|
      ensures logFile[..currentOffset] == old(logFile[..currentOffset]) + EncodeRecord(r)
    {
      hide U32Bytes, U64Bytes, Code, Length;
      ghost var was := logFile[..currentOffset];
      var code, txn := U32Bytes(Code(r)), U64Bytes(r.txn);
      Append(code);
      Append(txn);
      if r.Update? {
        var page, length, offset := U64Bytes(r.page), U64Bytes(Length(r)), U64Bytes(r.offset);
        Append(page);
        Append(length);
        Append(offset);
        Append(r.before);
        Append(r.after);
        assert EncodeRecord(r) == code + txn + (page + length + offset + r.before + r.after);
      } else {
        assert EncodeRecord(r) == code + txn + [];
      }
    }

    /** Appends exactly one record, which is `r` without a checkpoint's active list; the
        bytes before it are never overwritten. */
    method WriteLogRecord(r: Record)
      requires Valid() && WellFormed(r)
      modifies this`logFile, this`currentOffset, this`records
      ensures Valid() && records == old(records) + [Stored(r)]
      ensures logFile[..old(currentOffset)] == old(logFile[..currentOffset])
      ensures currentOffset == old(currentOffset) + RecordSize(r)
    {
      hide EncodeRecord, RecordSize;
      ghost var before := logFile[..currentOffset];
      WriteFields(r);
      assert logFile[..|before|] == logFile[..currentOffset][..|before|];
      EncodedSize(r);
      EncodeStored(r);
      EncodeSnoc(records, Stored(r));
      forall i | 0 <= i <= |records| ensures Offset(records + [Stored(r)], i) == Offset(records, i) {
        OffsetSnoc(records, Stored(r), i);
      }
      records := records + [Stored(r)];
    }

    /** Reading at a record boundary gives the record there; its size leads to the next
        boundary, at most the end of the log. */
    method ReadLogRecord(offset: nat, ghost i: nat) returns (r: Record)
      requires Valid() && i < |records| && offset == Offset(records, i)
      ensures r == records[i] == Stored(r)
      ensures offset + RecordSize(r) == Offset(records, i + 1) <= currentOffset
    {
      r := ParseRecord(logFile, offset);
      ParseAt(logFile, records, i);
    }

    lemma AtEnd(i: nat)
      requires Valid() && i <= |records|
      ensures Offset(records, i) < currentOffset <==> i < |records|
    {
      assert records[..|records|] == records;
      if i < |records| {
        ParseAt(logFile, records, i);
      }
    }

    method LogTxnBegin(t: u64)
      requires Valid()
      modifies this
      ensures Valid() && records == old(records) + [Begin(t)]
      ensures activeTxns == old(activeTxns) + {t} && firstIndex == old(firstIndex)[t := |old(records)|]
    {
      assert records[..|records|] == records;
      firstLogRecord := firstLogRecord[t := currentOffset];
      firstIndex := firstIndex[t := |records|];
      activeTxns := activeTxns + {t};
      WriteLogRecord(Begin(t));
    }

    method LogCommit(t: u64)
      requires Valid()
      modifies this
      ensures Valid() && records == old(records) + [Commit(t)]
      ensures activeTxns == old(activeTxns) - {t} && firstIndex == old(firstIndex)
    {
      WriteLogRecord(Commit(t));
      activeTxns := activeTxns - {t};
    }

    method LogUpdate(t: u64, page: u64, offset: u64, before: seq<byte>, after: seq<byte>)
      requires Valid() && WellFormed(Update(t, page, offset, before, after))
      modifies this
      ensures Valid() && records == old(records) + [Update(t, page, offset, before, after)]
      ensures activeTxns == old(activeTxns) && firstIndex == old(firstIndex)
    {
      WriteLogRecord(Update(t, page, offset, before, after));
    }

    method LogAbort(t: u64, buffer: BufferManager) returns (ok: bool)
      requires Valid() && buffer.Valid() && AllFit(records, buffer.pageSize)
      modifies this, buffer
      ensures ok <==> Enough(old(buffer.RoomNow()), UndoPages(old(records), old(firstIndex), {t}))
      ensures !ok ==> Exhausted(buffer)
      ensures ok ==> Valid() && buffer.Valid() && records == old(records) + [Abort(t)]
      ensures ok ==> activeTxns == old(activeTxns) - {t} && firstIndex == Touch(old(firstIndex), t)
      ensures ok ==> forall a ::
        buffer.SeenAt(a) == RollbackAt(old(records), old(firstIndex), t, a, old(buffer.SeenAt(a)))
      ensures ok ==> forall a :: buffer.DiskAt(a) == buffer.SeenAt(a)
    {
      hide Enough, Fixed;
      ok := RollbackTxn(t, buffer);
      if ok {
        WriteLogRecord(Abort(t));
        activeTxns := activeTxns - {t};
      }
    }

    method LogCheckpoint(buffer: BufferManager)
      requires Valid() && buffer.Valid()
      modifies this, buffer
      ensures Valid() && buffer.Valid() && records == old(records) + [Checkpoint(0, [])]
      ensures activeTxns == old(activeTxns) && firstIndex == old(firstIndex)
      ensures forall a :: buffer.SeenAt(a) == old(buffer.SeenAt(a)) == buffer.DiskAt(a)
    {
      hide Valid, BufferManager.Valid, RecordSize;
      buffer.FlushAllPages();
      var active := [];
      var todo := activeTxns;
      while todo != {}
        decreases todo
      {
        var t :| t in todo;
        todo := todo - {t};
        active := active + [(t, if t in firstLogRecord then firstLogRecord[t] else 0)];
      }
      WriteLogRecord(Checkpoint(0, active));
    }

    /** Looking a key up in the first-record table inserts the default offset 0. */
    ghost function Touch(first: map<u64, nat>, t: u64): map<u64, nat> {
      if t in first then first else first[t := 0]
    }

    /** The original calls `exit` on a page id that is not valid, and when frames run out. */
    ghost predicate Exhausted(buffer: BufferManager)
      reads this, buffer
    {
      buffer.pageCounter >= buffer.capacity || exists r :: r in records && r.Update? && r.page == INVALID_PAGE_ID
    }

    /** Writes the before images of `t`'s updates, newest first, and flushes all pages. */
    method RollbackTxn(t: u64, buffer: BufferManager) returns (ok: bool)
      requires Valid() && buffer.Valid() && AllFit(records, buffer.pageSize)
      modifies this`firstLogRecord, this`firstIndex, buffer
      ensures ok <==> Enough(old(buffer.RoomNow()), UndoPages(records, old(firstIndex), {t}))
      ensures ok ==> Fixed(old(buffer.RoomNow()), buffer.RoomNow(), UndoPages(records, old(firstIndex), {t}))
      ensures !ok ==> Exhausted(buffer)
      ensures ok ==> Valid() && buffer.Valid() && firstIndex == Touch(old(firstIndex), t)
      ensures ok ==> forall a :: buffer.SeenAt(a) == RollbackAt(records, old(firstIndex), t, a, old(buffer.SeenAt(a)))
      ensures ok ==> forall a :: buffer.DiskAt(a) == buffer.SeenAt(a)
    {
      hide BufferManager.Valid, Holds, Enough, Fixed, UndoPages, PagesIn, AllFit, UpdatesOf, Stored;
      PagesOfRollback(records, firstIndex, t);
      if t !in firstLogRecord {
        firstLogRecord, firstIndex := firstLogRecord[t := 0], firstIndex[t := 0];
      }
      ghost var start := firstIndex[t];
      var updates := CollectUpdates(t, firstLogRecord[t], start);
      UpdatesOfAre(records[start..], t);
      ok := ApplyBeforeImages(updates, t, buffer);
      if ok {
        forall a: Addr ensures buffer.SeenAt(a) == RollbackAt(records, old(firstIndex), t, a, old(buffer.SeenAt(a))) {
          UndoUpdatesOf(records[start..], t, a, old(buffer.SeenAt(a)));
        }
        buffer.FlushAllPages();
      }
    }

    /** The scan of rollback: `t`'s update records from a boundary to the end of the log. */
    method CollectUpdates(t: u64, from: nat, ghost start: nat) returns (updates: seq<Record>)
      requires Valid() && start <= |records| && from == Offset(records, start)
      ensures updates == UpdatesOf(records[start..], t)
    {
      hide Valid, RecordSize, Offset;
      updates := [];
      var offset := from;
      ghost var i := start;
      AtEnd(i);
      while offset < currentOffset
        invariant start <= i <= |records| && offset == Offset(records, i)
        invariant offset < currentOffset <==> i < |records|
        invariant updates == UpdatesOf(records[start..i], t)
        decreases |records| - i
      {
        var record := ReadLogRecord(offset, i);
        UpdatesOfNext(start, i, t);
        if record.Update? && record.txn == t {
          updates := updates + [record];
        }
        offset := offset + RecordSize(record);
        i := i + 1;
        AtEnd(i);
      }
      assert records[start..i] == records[start..];
    }

    lemma UpdatesOfNext(start: nat, i: nat, t: u64)
      requires start <= i < |records|
      ensures UpdatesOf(records[start..i + 1], t)
           == UpdatesOf(records[start..i], t) + if records[i].Update? && records[i].txn == t then [records[i]] else []
    {
      assert records[start..i + 1][..i - start] == records[start..i];
    }

    method ApplyBeforeImages(updates: seq<Record>, t: u64, buffer: BufferManager) returns (ok: bool)
      requires Valid() && buffer.Valid() && AllFit(records, buffer.pageSize)
      requires forall r :: r in updates ==> r in records && r.Update? && r.txn == t
      modifies buffer
      ensures ok <==> Enough(old(buffer.RoomNow()), PagesIn(updates))
      ensures ok ==> Fixed(old(buffer.RoomNow()), buffer.RoomNow(), PagesIn(updates))
      ensures !ok ==> Exhausted(buffer)
      ensures ok ==> buffer.Valid()
      ensures ok ==> forall a :: buffer.SeenAt(a) == UndoAt(updates, t, a, old(buffer.SeenAt(a)))
    {
      hide Enough, Fixed, PagesIn;
      ghost var room := buffer.RoomNow();
      var j := |updates|;
      assert updates[j..] == [];
      NoPages(room, updates[j..]);
      while j > 0
        invariant j <= |updates| && buffer.Valid()
        invariant Fixed(room, buffer.RoomNow(), PagesIn(updates[j..]))
        invariant forall a :: buffer.SeenAt(a) == UndoAt(updates[j..], t, a, old(buffer.SeenAt(a)))
      {
        j := j - 1;
        var r := updates[j];
        assert WellFormed(r) && Fits(r, buffer.pageSize);
        assert updates[j..][1..] == updates[j + 1..];
        PagesInCons(updates, j);
        ghost var now := buffer.RoomNow();
        ok := buffer.Modify(r.page, r.offset, r.before);
        if !ok {
          NotEnough(room, now, PagesIn(updates[j + 1..]), {r.page}, PagesIn(updates));
          return;
        }
        FixedTwice(room, now, buffer.RoomNow(), PagesIn(updates[j + 1..]), {r.page});
      }
      ok := true;
      assert updates[0..] == updates;
      FixedIsEnough(room, buffer.RoomNow(), PagesIn(updates));
    }

    lemma NoPages(room: Room, updates: seq<Record>)
      requires updates == []
      ensures Fixed(room, room, PagesIn(updates))
    {
      FixedNone(room);
      assert PagesIn(updates) == {};
    }

    /** The first pass: who is unfinished, who committed, and where the unfinished began. A
        checkpoint read back from the file has no active list, so it adds nobody. */
    method AnalysisPass() returns (active: set<u64>, committed: set<u64>)
      requires Valid()
      modifies this`firstLogRecord, this`firstIndex
      ensures Valid() && firstIndex == old(firstIndex) + Analyse(records).first
      ensures active == Analyse(records).active && committed == Analyse(records).committed
    {
      hide Valid, RecordSize;
      active, committed := {}, {};
      var lastCheckpointTxns: map<u64, nat> := map[];
      var lastCheckpointOffset := 0;
      var offset := 0;
      ghost var i := 0;
      ghost var entry := firstIndex;
      AtEnd(0);
      assert entry + map[] == entry;
      while offset < currentOffset
        invariant Valid() && i <= |records| && offset == Offset(records, i)
        invariant offset < currentOffset <==> i < |records|
        invariant Analyse(records[..i]).active == active && Analyse(records[..i]).committed == committed
        invariant firstIndex == entry + Analyse(records[..i]).first
        invariant lastCheckpointTxns == map[]
        decreases |records| - i
      {
        var record := ReadLogRecord(offset, i);
        if record.Checkpoint? {
          lastCheckpointOffset := offset;
          lastCheckpointTxns := ListedTxns(record.active);
        }
        AnalyseNext(records, i);
        active, committed := NoteTransaction(record, offset, i, active, committed, Analyse(records[..i]), entry);
        offset := offset + RecordSize(record);
        i := i + 1;
        AtEnd(i);
      }
      assert records[..i] == records;
      if lastCheckpointOffset > 0 {
        active := AddListed(lastCheckpointTxns, active, committed);
      }
    }

    method ListedTxns(listed: seq<(u64, nat)>) returns (m: map<u64, nat>)
      ensures listed == [] ==> m == map[]
      ensures m.Keys == set e | e in listed :: e.0
    {
      m := map[];
      for k := 0 to |listed|
        invariant m.Keys == set e | e in listed[..k] :: e.0
        invariant k == 0 ==> m == map[]
      {
        assert listed[..k + 1] == listed[..k] + [listed[k]];
        m := m[listed[k].0 := listed[k].1];
      }
      assert listed[..|listed|] == listed;
    }

    /** Transactions a checkpoint lists count as unfinished unless they committed. */
    method AddListed(listed: map<u64, nat>, active: set<u64>, committed: set<u64>) returns (all: set<u64>)
      modifies this`firstLogRecord
      ensures all == active + (listed.Keys - committed)
      ensures firstLogRecord == old(firstLogRecord) + (listed - committed)
      ensures listed == map[] ==> firstLogRecord == old(firstLogRecord)
    {
      all := active;
      var todo := listed.Keys;
      while todo != {}
        invariant todo <= listed.Keys
        invariant all == active + (listed.Keys - todo - committed)
        invariant firstLogRecord == old(firstLogRecord) + (listed - committed - todo)
        decreases todo
      {
        var t :| t in todo;
        todo := todo - {t};
        if t !in committed {
          all := all + {t};
          firstLogRecord := firstLogRecord[t := listed[t]];
        }
      }
    }

    method NoteBegin(t: u64, offset: nat, ghost i: nat)
      requires Valid() && i <= |records| && offset == Offset(records, i)
      modifies this`firstLogRecord, this`firstIndex
      ensures Valid() && firstIndex == old(firstIndex)[t := i]
    {
      firstLogRecord, firstIndex := firstLogRecord[t := offset], firstIndex[t := i];
    }

    method NoteTransaction(record: Record, offset: nat, ghost i: nat, active: set<u64>, committed: set<u64>,
                           ghost an: Analysis, ghost entry: map<u64, nat>)
      returns (active': set<u64>, committed': set<u64>)
      requires Valid() && i <= |records| && offset == Offset(records, i)
      requires an.active == active && an.committed == committed && firstIndex == entry + an.first
      modifies this`firstLogRecord, this`firstIndex
      ensures Valid()
      ensures Note(an, record, i).active == active' && Note(an, record, i).committed == committed'
      ensures firstIndex == entry + Note(an, record, i).first
    {
      active', committed' := active, committed;
      if record.Begin? {
        if record.txn !in committed {
          active' := active + {record.txn};
          NoteBegin(record.txn, offset, i);
          MergeUpdate(entry, an.first, record.txn, i);
        }
      } else if record.Commit? {
        active', committed' := active - {record.txn}, committed + {record.txn};
      } else if record.Abort? {
        active' := active - {record.txn};
      }
    }

    /** The second pass: after images of committed transactions, in log order. */
    method RedoPass(committed: set<u64>, buffer: BufferManager) returns (ok: bool)
      requires Valid() && buffer.Valid() && AllFit(records, buffer.pageSize)
      modifies buffer
      ensures ok <==> Enough(old(buffer.RoomNow()), RedoPages(records, committed))
      ensures ok ==> Fixed(old(buffer.RoomNow()), buffer.RoomNow(), RedoPages(records, committed))
      ensures !ok ==> Exhausted(buffer)
      ensures ok ==> buffer.Valid()
      ensures ok ==> forall a :: buffer.SeenAt(a) == RedoAt(records, committed, a, old(buffer.SeenAt(a)))
    {
      hide Enough, Fixed, RedoPages, Valid, RecordSize, BufferManager.Valid, AllFit, Fits, WellFormed, RedoOne;
      ghost var room := buffer.RoomNow();
      var offset := 0;
      ghost var i := 0;
      AtEnd(0);
      NoRedo(room, committed);
      while offset < currentOffset
        invariant i <= |records| && offset == Offset(records, i) && buffer.Valid()
        invariant Fixed(room, buffer.RoomNow(), RedoPages(records[..i], committed))
        invariant offset < currentOffset <==> i < |records|
        invariant forall a :: buffer.SeenAt(a) == RedoAt(records[..i], committed, a, old(buffer.SeenAt(a)))
        decreases |records| - i
      {
        var r := ReadLogRecord(offset, i);
        ghost var now := buffer.RoomNow();
        RedoPagesNext(records, i, committed);
        RecordFits(i, buffer.pageSize);
        ok := RedoRecord(r, committed, buffer);
        if !ok {
          NotEnough(room, now, RedoPages(records[..i], committed), {r.page}, RedoPages(records, committed));
          return;
        }
        FixedTwice(room, now, buffer.RoomNow(), RedoPages(records[..i], committed),
                   if r.Update? && r.txn in committed then {r.page} else {});
        forall a: Addr ensures buffer.SeenAt(a) == RedoAt(records[..i + 1], committed, a, old(buffer.SeenAt(a))) {
          RedoNext(records, i, committed, a, old(buffer.SeenAt(a)));
        }
        offset := offset + RecordSize(r);
        i := i + 1;
        AtEnd(i);
      }
      assert records[..i] == records;
      FixedIsEnough(room, buffer.RoomNow(), RedoPages(records, committed));
      ok := true;
    }

    lemma NoRedo(room: Room, committed: set<u64>)
      ensures Fixed(room, room, RedoPages(records[..0], committed))
    {
      FixedNone(room);
      assert RedoPages(records[..0], committed) == {};
    }

    lemma RecordFits(i: nat, pageSize: nat)
      requires Valid() && AllFit(records, pageSize) && i < |records|
      ensures Fits(records[i], pageSize) && WellFormed(records[i])
    {
    }

    method RedoRecord(r: Record, committed: set<u64>, buffer: BufferManager) returns (ok: bool)
      requires buffer.Valid() && Fits(r, buffer.pageSize) && WellFormed(r) && r in records
      modifies buffer
      ensures !ok ==> r.Update? && r.txn in committed && !Enough(old(buffer.RoomNow()), {r.page})
      ensures ok ==> Fixed(old(buffer.RoomNow()), buffer.RoomNow(), if r.Update? && r.txn in committed then {r.page}
        else {})
      ensures !ok ==> Exhausted(buffer)
      ensures ok ==> buffer.Valid()
      ensures ok ==> forall a :: buffer.SeenAt(a) == RedoOne(r, committed, a, old(buffer.SeenAt(a)))
    {
      hide Enough, Fixed;
      FixedNone(buffer.RoomNow());
      ok := true;
      if r.Update? && r.txn in committed {
        ok := buffer.Modify(r.page, r.offset, r.after);
      }
    }

    /** The third pass: roll back the unfinished transactions, smallest id first. */
    method UndoPass(active: set<u64>, buffer: BufferManager) returns (ok: bool)
      requires Valid() && buffer.Valid() && AllFit(records, buffer.pageSize)
      requires active <= firstIndex.Keys
      modifies this`firstLogRecord, this`firstIndex, buffer
      ensures ok <==> Enough(old(buffer.RoomNow()), UndoPages(records, old(firstIndex), active))
      ensures ok ==> Fixed(old(buffer.RoomNow()), buffer.RoomNow(), UndoPages(records, old(firstIndex), active))
      ensures !ok ==> Exhausted(buffer)
      ensures ok ==> Valid() && buffer.Valid() && firstIndex == old(firstIndex)
      ensures ok ==> forall a :: buffer.SeenAt(a) == UndoAll(records, firstIndex, active, a, old(buffer.SeenAt(a)))
    {
      hide Valid, BufferManager.Valid, AllFit, RollbackAt, Enough, Fixed, UndoPages;
      ghost var room, first := buffer.RoomNow(), firstIndex;
      var todo := active;
      ok := true;
      NoUndo(room, first);
      while todo != {}
        invariant Fixed(room, buffer.RoomNow(), UndoPages(records, first, active - todo))
        invariant todo <= active && Valid() && buffer.Valid() && firstIndex == old(firstIndex)
        invariant forall a :: UndoAll(records, firstIndex, active, a, old(buffer.SeenAt(a)))
                           == UndoAll(records, firstIndex, todo, a, buffer.SeenAt(a))
        decreases todo
      {
        MinExists(todo);
        assert IsMin(todo, Min(todo));
        var t :| t in todo && forall u :: u in todo ==> t <= u;
        assert t == Min(todo);
        ghost var now, done := buffer.RoomNow(), active - todo;
        ok := RollbackTxn(t, buffer);
        UndoPagesUnion(records, first, done, {t});
        UndoPagesUnion(records, first, done + {t}, active);
        assert done + {t} + active == active;
        if !ok {
          NotEnough(room, now, UndoPages(records, first, done), UndoPages(records, first, {t}),
            UndoPages(records, first, active));
          return;
        }
        FixedTwice(room, now, buffer.RoomNow(), UndoPages(records, first, done), UndoPages(records, first, {t}));
        todo := todo - {t};
        assert active - todo == done + {t};
      }
      assert active - {} == active;
      FixedIsEnough(room, buffer.RoomNow(), UndoPages(records, first, active));
    }

    lemma NoUndo(room: Room, first: map<u64, nat>)
      ensures forall none: set<u64> :: none == {} ==> Fixed(room, room, UndoPages(records, first, none))
    {
      FixedNone(room);
      assert UndoPages(records, first, {}) == {};
    }

    /** Recovery after a crash: analysis, redo, undo, flush. */
    method Recovery(buffer: BufferManager) returns (ok: bool)
      requires Valid() && buffer.Valid() && AllFit(records, buffer.pageSize)
      modifies this, buffer
      ensures ok <==> Enough(old(buffer.RoomNow()), RecoveryPages(old(records)))
      ensures !ok ==> Exhausted(buffer)
      ensures ok ==> Valid() && buffer.Valid() && records == old(records) && activeTxns == Analyse(records).active
      ensures ok ==> forall a :: buffer.SeenAt(a) == RecoveredAt(records, a, old(buffer.SeenAt(a)))
      ensures ok ==> forall a :: buffer.DiskAt(a) == buffer.SeenAt(a)
    {
      hide Enough, Fixed, RedoPages, UndoPages, Holds, AllFit;
      ghost var an := Analyse(records);
      ghost var entry := firstIndex;
      ActiveHasFirst(records);
      var active, committed := AnalysisPass();
      ghost var room := buffer.RoomNow();
      UndoPagesSameStarts(records, firstIndex, an.first, active);
      ok := RedoPass(committed, buffer);
      RedoIsPart(room, records);
      if !ok { return; }
      ghost var redone, now := buffer.View(), buffer.RoomNow();
      ok := UndoPass(active, buffer);
      if !ok {
        NotEnough(room, now, RedoPages(records, committed), UndoPages(records, an.first, active),
          RecoveryPages(records));
        return;
      }
      FixedTwice(room, now, buffer.RoomNow(), RedoPages(records, committed), UndoPages(records, an.first, active));
      FixedIsEnough(room, buffer.RoomNow(), RecoveryPages(records));
      forall a: Addr ensures buffer.SeenAt(a) == RecoveredAt(records, a, old(buffer.SeenAt(a))) {
        UndoAllSameStarts(records, firstIndex, an.first, active, a, redone(a));
      }
      activeTxns := active;
      buffer.FlushAllPages();
    }
  }

  lemma RedoIsPart(room: Room, log: seq<Record>)
    ensures Enough(room, RecoveryPages(log)) ==> Enough(room, RedoPages(log, Analyse(log).committed))
  {
    if Enough(room, RecoveryPages(log)) {
      EnoughForFewer(room, RecoveryPages(log), RedoPages(log, Analyse(log).committed));
    }
  }

  /** Only the starts of the transactions to undo matter. */
  lemma {:induction false} UndoAllSameStarts(log: seq<Record>, first: map<u64, nat>, first': map<u64, nat>,
                                             losers: set<u64>, a: Addr, v: byte)
    requires forall t :: t in losers ==> t in first && t in first' && first[t] == first'[t]
    ensures UndoAll(log, first, losers, a, v) == UndoAll(log, first', losers, a, v)
    decreases |losers|
  {
    if losers != {} {
      var t := Min(losers);
      UndoAllSameStarts(log, first, first', losers - {t}, a, RollbackAt(log, first, t, a, v));
    }
  }
}
