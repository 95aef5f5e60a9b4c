/** Runs of the logging database, as a state machine over log records and bytes, and the
    theorem that says exactly when a crash is recoverable. */
module RecoveryRuns {
  import opened Bytes
  import opened LogRecord
  import opened RecoverySpec

  /** The log, every byte as a reader of the buffer pool sees it, and every byte on disk. */
  datatype State = State(log: seq<Record>, view: Addr -> byte, disk: Addr -> byte)

  datatype Step =
    | BeginTxn(txn: u64)
    | WriteBytes(record: Record)
    | CommitTxn(txn: u64, flushed: set<PageId>)
    | AbortTxn(txn: u64, discarded: set<PageId>)
    | TakeCheckpoint
    | FlushPages(pages: set<PageId>)

  function Unfinished(log: seq<Record>): set<u64> { Analyse(log).active }

  function Committed(log: seq<Record>): set<u64> { Analyse(log).committed }

  /** `t` is undone from the record where it began. */
  function Rollback(log: seq<Record>, t: u64, a: Addr, v: byte): byte {
    RollbackAt(log, Analyse(log).first, t, a, v)
  }

  /** What one step of the database does. */
  ghost predicate Next(s: State, s': State, step: Step) {
    match step
    case BeginTxn(t) => BeginStep(s, s', t)
    case WriteBytes(r) => WriteStep(s, s', r)
    case CommitTxn(t, flushed) => CommitStep(s, s', t, flushed)
    case AbortTxn(t, discarded) => AbortStep(s, s', t, discarded)
    case TakeCheckpoint => CheckpointStep(s, s')
    case FlushPages(pages) => FlushStep(s, s', pages)
  }

  ghost predicate BeginStep(s: State, s': State, t: u64) {
    s'.log == s.log + [Begin(t)] && Same(s'.view, s.view) && Same(s'.disk, s.disk)
  }

  /** The before image is what was seen, and only the covered bytes change. */
  ghost predicate Written(s: State, s': State, r: Record) {
    && r.Update? && WellFormed(r) && r.page < 0xFFFF_FFFF_FFFF_FFFF
    && s'.log == s.log + [r]
    && (forall a :: Covers(r, a) ==> r.before[a.off - r.offset] == s.view(a))
    && (forall a :: s'.view(a) == if Covers(r, a) then r.after[a.off - r.offset] else s.view(a))
    && Same(s'.disk, s.disk)
  }

  ghost predicate WriteStep(s: State, s': State, r: Record) {
    Written(s, s', r) && r.txn in Unfinished(s.log)
  }

  /** Some pages are flushed, then COMMIT is logged. */
  ghost predicate CommitStep(s: State, s': State, t: u64, flushed: set<PageId>) {
    && t in Unfinished(s.log)
    && s'.log == s.log + [Commit(t)]
    && Same(s'.view, s.view)
    && (forall a: Addr :: s'.disk(a) == if a.page in flushed then s.view(a) else s.disk(a))
  }

  /** Some pages are discarded, before images are written back, everything is flushed, then
      ABORT is logged. */
  ghost predicate AbortStep(s: State, s': State, t: u64, discarded: set<PageId>) {
    && t in Unfinished(s.log)
    && s'.log == s.log + [Abort(t)]
    && (forall a: Addr :: s'.view(a) == Rollback(s.log, t, a, if a.page in discarded then s.disk(a) else s.view(a)))
    && Same(s'.disk, s'.view)
  }

  ghost predicate CheckpointStep(s: State, s': State) {
    s'.log == s.log + [Checkpoint(0, [])] && Same(s'.view, s.view) && Same(s'.disk, s.view)
  }

  ghost predicate FlushStep(s: State, s': State, pages: set<PageId>) {
    && s'.log == s.log && Same(s'.view, s.view)
    && (forall a: Addr :: s'.disk(a) == if a.page in pages then s.view(a) else s.disk(a))
  }

  ghost predicate Same(f: Addr -> byte, g: Addr -> byte) {
    forall a :: f(a) == g(a)
  }

  /** No record of the log mentions `t`: its id is new. */
  ghost predicate Fresh(log: seq<Record>, t: u64) {
    forall i :: 0 <= i < |log| && log[i].txn == t ==> log[i].Checkpoint?
  }

  /** What the callers of the log manager must respect: new ids, and no two unfinished
      transactions writing the same byte. */
  ghost predicate Disciplined(s: State, step: Step) {
    match step
    case BeginTxn(t) => Fresh(s.log, t)
    case WriteBytes(r) => forall a, u :: Covers(r, a) && u in Unfinished(s.log) && CoveredBy(s.log, u, a) ==> u == r.txn
    case _ => true
  }

  ghost predicate Initial(s: State, initial: Addr -> byte) {
    s.log == [] && Same(s.view, initial) && Same(s.disk, initial)
  }

  ghost predicate Run(states: seq<State>, steps: seq<Step>, initial: Addr -> byte) {
    && |states| == |steps| + 1
    && Initial(states[0], initial)
    && forall k :: 0 <= k < |steps| ==> Next(states[k], states[k + 1], steps[k]) && Disciplined(states[k], steps[k])
  }

  // ---------- The invariant ----------

  /** History is orderly: transactions are either unfinished or committed, an unfinished one
      starts with its BEGIN record and every record belongs to a transaction that began. */
  ghost predicate Orderly(log: seq<Record>) {
    var an := Analyse(log);
    && (forall t :: t in an.active ==> t !in an.committed && t in an.first && StartsAt(log, an.first, t))
    && (forall t :: t in an.first ==> an.first[t] < |log|)
    && (forall i :: 0 <= i < |log| ==> log[i].Checkpoint? || log[i].txn in an.first)
    && (forall t :: t in an.committed ==> t in an.first)
  }

  /** The last committed value of `a`. */
  ghost function Ideal(log: seq<Record>, a: Addr, initial: byte): byte {
    RedoAt(log, Committed(log), a, initial)
  }

  /** At most one live transaction covers a byte, and as long as no committed one does, the
      byte has its initial value, or is to be undone to it. */
  ghost predicate ByteInv(s: State, a: Addr, initial: byte) {
    var log, live := s.log, Unfinished(s.log);
    && (forall t, u :: t in live && u in live && CoveredBy(log, t, a) && CoveredBy(log, u, a) ==> t == u)
    && (!CoveredByAny(log, Committed(log), a) ==>
          && (!CoveredByAny(log, live, a) ==> s.view(a) == s.disk(a) == initial)
          && (forall t :: t in live && CoveredBy(log, t, a) ==> UndoAt(log, t, a, 0) == initial))
  }

  ghost predicate Inv(s: State, initial: Addr -> byte) {
    Orderly(s.log) && forall a :: ByteInv(s, a, initial(a))
  }

  lemma FreshBegin(log: seq<Record>, t: u64)
    requires Fresh(log, t)
    ensures Analyse(log + [Begin(t)])
         == Analysis(Unfinished(log) + {t}, Committed(log), Analyse(log).first[t := |log|])
  {
    AnalyseSnoc(log, Begin(t));
    CommittedIsHasCommit(log, t);
  }

  lemma OrderlyAppend(log: seq<Record>, r: Record)
    requires Orderly(log) && !r.Invalid?
    requires r.Begin? ==> Fresh(log, r.txn)
    requires r.Update? || r.Commit? || r.Abort? ==> r.txn in Unfinished(log)
    ensures Orderly(log + [r])
  {
    AnalyseSnoc(log, r);
    var log', an, an' := log + [r], Analyse(log), Analyse(log + [r]);
    forall i | 0 <= i < |log'| ensures log'[i].Checkpoint? || log'[i].txn in an'.first {
      if r.Begin? { CommittedIsHasCommit(log, r.txn); }
    }
    forall t | t in an'.active ensures StartsAt(log', an'.first, t) {
      if t in an.active && t in an.first { assert StartsAt(log, an.first, t); }
    }
  }

  lemma OrderlyStep(s: State, s': State, step: Step)
    requires Orderly(s.log) && Next(s, s', step) && Disciplined(s, step)
    ensures Orderly(s'.log)
  {
    if s'.log != s.log {
      OrderlyAppend(s.log, s'.log[|s.log|]);
    }
  }

  /** Appending a record that does not cover `a` changes nothing there. */
  lemma QuietRecord(log: seq<Record>, r: Record, a: Addr)
    requires !Covers(r, a)
    ensures forall t :: CoveredBy(log + [r], t, a) == CoveredBy(log, t, a)
    ensures forall t, v :: UndoAt(log + [r], t, a, v) == UndoAt(log, t, a, v)
    ensures forall w, v :: RedoAt(log + [r], w, a, v) == RedoAt(log, w, a, v)
  {
    Snoc(log, r);
    forall t ensures CoveredBy(log + [r], t, a) == CoveredBy(log, t, a) { CoveredSnoc(log, r, t, a); }
    forall t, v ensures UndoAt(log + [r], t, a, v) == UndoAt(log, t, a, v) {
      UndoConcat(log, [r], t, a, v);
      assert UndoAt([r], t, a, v) == UndoAt([], t, a, v) by { assert [r][1..] == []; }
    }
  }

  /** Moving a transaction that does not cover `a` between sets does not matter at `a`. */
  lemma QuietSets(log: seq<Record>, log': seq<Record>, a: Addr, t: u64)
    requires forall u :: CoveredBy(log', u, a) == CoveredBy(log, u, a)
    requires !CoveredBy(log, t, a)
    ensures forall ts :: CoveredByAny(log', ts, a) <==> CoveredByAny(log, ts, a)
    ensures forall ts :: CoveredByAny(log, ts, a) <==> CoveredByAny(log, ts - {t}, a)
    ensures forall ts :: CoveredByAny(log, ts + {t}, a) <==> CoveredByAny(log, ts, a)
  {
    forall ts ensures CoveredByAny(log, ts, a) <==> CoveredByAny(log, ts - {t}, a) {
      assert forall u :: u in ts && CoveredBy(log, u, a) ==> u in ts - {t};
    }
    forall ts ensures CoveredByAny(log, ts + {t}, a) <==> CoveredByAny(log, ts, a) {
      assert forall u :: u in ts + {t} && CoveredBy(log, u, a) ==> u in ts;
      assert forall u :: u in ts ==> u in ts + {t};
    }
  }

  /** Rollback leaves bytes alone that `t` does not cover and gives the others the before
      image of `t`'s oldest update. */
  lemma RollbackMeaning(log: seq<Record>, t: u64, a: Addr, v: byte)
    requires Orderly(log) && t in Unfinished(log)
    ensures Rollback(log, t, a, v) == if CoveredBy(log, t, a) then UndoAt(log, t, a, 0) else v
  {
    UndoSkips(log, StartOf(log, Analyse(log).first, t), t, a, v);
    UndoDepends(log, t, a, v, 0);
  }

  lemma SameCoverage(log: seq<Record>, log': seq<Record>, a: Addr)
    requires forall t :: CoveredBy(log', t, a) == CoveredBy(log, t, a)
    ensures forall ts :: CoveredByAny(log', ts, a) == CoveredByAny(log, ts, a)
  {
  }

  // ---------- Every step keeps the invariant ----------

  lemma BeginKeeps(s: State, s': State, t: u64, a: Addr, initial: byte)
    requires Orderly(s.log) && ByteInv(s, a, initial)
    requires Next(s, s', BeginTxn(t)) && Fresh(s.log, t)
    ensures ByteInv(s', a, initial)
  {
    AnalyseSnoc(s.log, Begin(t));
    QuietRecord(s.log, Begin(t), a);
    assert !CoveredBy(s.log, t, a);
    QuietSets(s.log, s'.log, a, t);
    assert Committed(s'.log) == Committed(s.log);
    forall u | u in Unfinished(s'.log) && CoveredBy(s'.log, u, a) ensures u in Unfinished(s.log) {}
  }

  lemma WriteKeeps(s: State, s': State, r: Record, a: Addr, initial: byte)
    requires Orderly(s.log) && ByteInv(s, a, initial)
    requires Next(s, s', WriteBytes(r)) && Disciplined(s, WriteBytes(r))
    ensures ByteInv(s', a, initial)
  {
    hide Analyse;
    AnalyseSnoc(s.log, r);
    if Covers(r, a) {
      forall u ensures CoveredBy(s'.log, u, a) <==>
        CoveredBy(s.log, u, a) || u == r.txn { CoveredSnoc(s.log, r, u, a); }
      assert CoveredBy(s'.log, r.txn, a);
      OldestStays(s.log, s'.log, r, a);
      if !CoveredBy(s.log, r.txn, a) {
        assert !CoveredByAny(s.log, Unfinished(s.log), a);
        assert r.before[a.off - r.offset] == s.view(a);
      }
    } else {
      QuietRecord(s.log, r, a);
      SameCoverage(s.log, s'.log, a);
    }
  }

  /** The oldest before image of a transaction is that of its first update. */
  lemma OldestStays(log: seq<Record>, log': seq<Record>, r: Record, a: Addr)
    requires log' == log + [r] && Covers(r, a)
    ensures UndoAt(log', r.txn, a, 0)
         == if CoveredBy(log, r.txn, a) then UndoAt(log, r.txn, a, 0) else r.before[a.off - r.offset]
  {
    UndoConcat(log, [r], r.txn, a, 0);
    UndoDepends(log, r.txn, a, UndoAt([r], r.txn, a, 0), 0);
  }

  lemma CommitKeeps(s: State, s': State, t: u64, flushed: set<PageId>, a: Addr, initial: byte)
    requires Orderly(s.log) && ByteInv(s, a, initial)
    requires Next(s, s', CommitTxn(t, flushed))
    ensures ByteInv(s', a, initial)
  {
    AnalyseSnoc(s.log, Commit(t));
    QuietRecord(s.log, Commit(t), a);
    if CoveredBy(s.log, t, a) {
      assert CoveredBy(s'.log, t, a) && CoveredByAny(s'.log, Committed(s'.log), a);
    } else {
      QuietSets(s.log, s'.log, a, t);
    }
  }

  lemma AbortKeeps(s: State, s': State, t: u64, discarded: set<PageId>, a: Addr, initial: byte)
    requires Orderly(s.log) && ByteInv(s, a, initial)
    requires Next(s, s', AbortTxn(t, discarded))
    ensures ByteInv(s', a, initial)
  {
    var v := if a.page in discarded then s.disk(a) else s.view(a);
    AnalyseSnoc(s.log, Abort(t));
    QuietRecord(s.log, Abort(t), a);
    RollbackMeaning(s.log, t, a, v);
    assert s'.disk(a) == s'.view(a);
    if CoveredBy(s.log, t, a) {
      assert forall u :: u in Unfinished(s'.log) ==> !CoveredBy(s'.log, u, a);
      assert CoveredByAny(s.log, Committed(s.log), a) ==> CoveredByAny(s'.log, Committed(s'.log), a);
    } else {
      QuietSets(s.log, s'.log, a, t);
    }
  }

  lemma CheckpointKeeps(s: State, s': State, a: Addr, initial: byte)
    requires ByteInv(s, a, initial) && CheckpointStep(s, s')
    ensures ByteInv(s', a, initial)
  {
    AnalyseSnoc(s.log, Checkpoint(0, []));
    QuietRecord(s.log, Checkpoint(0, []), a);
    SameCoverage(s.log, s'.log, a);
  }

  lemma StepKeepsInv(s: State, s': State, step: Step, initial: Addr -> byte)
    requires Inv(s, initial) && Next(s, s', step) && Disciplined(s, step)
    ensures Inv(s', initial)
  {
    OrderlyStep(s, s', step);
    forall a ensures ByteInv(s', a, initial(a)) {
      match step
      case BeginTxn(t) => BeginKeeps(s, s', t, a, initial(a));
      case WriteBytes(r) => WriteKeeps(s, s', r, a, initial(a));
      case CommitTxn(t, flushed) => CommitKeeps(s, s', t, flushed, a, initial(a));
      case AbortTxn(t, discarded) => AbortKeeps(s, s', t, discarded, a, initial(a));
      case TakeCheckpoint => CheckpointKeeps(s, s', a, initial(a));
      case FlushPages(pages) =>
    }
  }

  lemma {:induction false} RunKeepsInv(states: seq<State>, steps: seq<Step>, initial: Addr -> byte, k: nat)
    requires Run(states, steps, initial) && k <= |steps|
    ensures Inv(states[k], initial)
  {
    if k == 0 {
      assert forall t, a :: !CoveredBy(states[0].log, t, a);
    } else {
      RunKeepsInv(states, steps, initial, k - 1);
      StepKeepsInv(states[k - 1], states[k], steps[k - 1], initial);
    }
  }

  // ---------- Crash recovery ----------

  /** Undoing the live transaction that covers `a`, if any, gives the last committed value. */
  ghost predicate UndoneToIdeal(log: seq<Record>, a: Addr, initial: byte) {
    forall t :: t in Unfinished(log) && CoveredBy(log, t, a) ==> UndoAt(log, t, a, 0) == Ideal(log, a, initial)
  }

  /** Recovery computes the oldest before image of the live transaction that covers the byte,
      else the last committed value. */
  lemma InvRecovers(s: State, initial: Addr -> byte, a: Addr)
    requires Inv(s, initial)
    ensures RecoveredAt(s.log, a, s.disk(a)) == Ideal(s.log, a, initial(a)) <==> UndoneToIdeal(s.log, a, initial(a))
  {
    var an := Analyse(s.log);
    var redone := RedoAt(s.log, an.committed, a, s.disk(a));
    assert ByteInv(s, a, initial(a));
    RedoDepends(s.log, an.committed, a, s.disk(a), initial(a));
    if t :| t in an.active && CoveredBy(s.log, t, a) {
      UndoAllSingle(s.log, an.first, an.active, t, a, redone);
    } else {
      UndoAllDepends(s.log, an.first, an.active, a, redone, redone);
      RedoDepends(s.log, an.committed, a, initial(a), initial(a));
    }
  }

  lemma LastCommittedIsUnique(log: seq<Record>, a: Addr, initial: byte, v: byte, w: byte)
    requires IsLastCommitted(log, a, initial, v) && IsLastCommitted(log, a, initial, w)
    ensures v == w
  {
    if exists i :: CommittedUpdate(log, i, a) {
      var i :| CommittedUpdate(log, i, a) && (forall j :: i < j ==> !CommittedUpdate(log, j, a))
        && v == log[i].after[a.off - log[i].offset];
      var k :| CommittedUpdate(log, k, a) && (forall j :: k < j ==> !CommittedUpdate(log, j, a))
        && w == log[k].after[a.off - log[k].offset];
      assert i == k;
    }
  }

  lemma IdealIff(log: seq<Record>, a: Addr, initial: byte, v: byte)
    ensures v == Ideal(log, a, initial) <==> IsLastCommitted(log, a, initial, v)
  {
    RedoIsLastCommitted(log, a, initial);
    if IsLastCommitted(log, a, initial, v) {
      LastCommittedIsUnique(log, a, initial, v, Ideal(log, a, initial));
    }
  }

  /** A crash in state `s` is recovered at `a`: recovery gives the last committed value. */
  ghost predicate Recovers(s: State, a: Addr, initial: byte) {
    IsLastCommitted(s.log, a, initial, RecoveredAt(s.log, a, s.disk(a)))
  }

  lemma RecoversIff(s: State, initial: Addr -> byte, a: Addr)
    requires Inv(s, initial)
    ensures Recovers(s, a, initial(a)) <==> UndoneToIdeal(s.log, a, initial(a))
  {
    InvRecovers(s, initial, a);
    IdealIff(s.log, a, initial(a), RecoveredAt(s.log, a, s.disk(a)));
  }

  // ---------- The condition at the time of writing ----------

  /** A reader of the byte sees its last committed value. */
  ghost predicate SeesCommitted(s: State, a: Addr, initial: byte) {
    IsLastCommitted(s.log, a, initial, s.view(a))
  }

  /** A transaction's first write of the byte. */
  ghost predicate FirstWrite(s: State, step: Step, a: Addr) {
    step.WriteBytes? && Covers(step.record, a) && !CoveredBy(s.log, step.record.txn, a)
  }

  /** Step `i` is the first write of `a` by a transaction that is unfinished in state `k`. */
  ghost predicate LiveFirstWrite(states: seq<State>, steps: seq<Step>, i: int, k: int, a: Addr)
    requires |states| == |steps| + 1
  {
    0 <= i < k <= |steps| && FirstWrite(states[i], steps[i], a) && steps[i].record.txn in Unfinished(states[k].log)
  }

  /** As long as a transaction is live and covers a byte, what it will be undone to stays,
      and so does the last committed value. */
  lemma LiveStep(s: State, s': State, step: Step, t: u64, a: Addr, initial: byte)
    requires Orderly(s.log) && ByteInv(s, a, initial) && Next(s, s', step) && Disciplined(s, step)
    requires CoveredBy(s.log, t, a) && t in Unfinished(s'.log)
    ensures t in Unfinished(s.log) && CoveredBy(s'.log, t, a)
    ensures UndoAt(s'.log, t, a, 0) == UndoAt(s.log, t, a, 0) && Ideal(s'.log, a, initial) == Ideal(s.log, a, initial)
  {
    hide Analyse;
    if s'.log != s.log {
      var r := s'.log[|s.log|];
      assert s'.log == s.log + [r];
      AnalyseSnoc(s.log, r);
      if Covers(r, a) {
        CoveredSnoc(s.log, r, t, a);
        assert r.txn == t;
        OldestStays(s.log, s'.log, r, a);
        Snoc(s.log, r);
      } else {
        QuietRecord(s.log, r, a);
        SameWinners(s, r, t, a, initial);
      }
    }
  }

  lemma SameWinners(s: State, r: Record, t: u64, a: Addr, initial: byte)
    requires Orderly(s.log) && ByteInv(s, a, initial) && !Covers(r, a)
    requires t in Unfinished(s.log) && CoveredBy(s.log, t, a) && t in Unfinished(s.log + [r])
    requires r.Commit? ==> r.txn in Unfinished(s.log)
    ensures RedoAt(s.log, Committed(s.log + [r]), a, initial) == RedoAt(s.log, Committed(s.log), a, initial)
  {
    AnalyseSnoc(s.log, r);
    if r.Commit? {
      RedoIgnores(s.log, Committed(s.log), Committed(s.log) + {r.txn}, a, initial);
    }
  }

  lemma {:induction false} FirstWriteLasts(states: seq<State>, steps: seq<Step>, initial: Addr -> byte, i: nat,
      k: nat, a: Addr)
    requires Run(states, steps, initial) && LiveFirstWrite(states, steps, i, k, a)
    ensures var t := steps[i].record.txn;
      && CoveredBy(states[k].log, t, a) && UndoAt(states[k].log, t, a, 0) == states[i].view(a)
      && Ideal(states[k].log, a, initial(a)) == Ideal(states[i].log, a, initial(a))
    decreases k
  {
    var t := steps[i].record.txn;
    assert Next(states[k - 1], states[k], steps[k - 1]);
    RunKeepsInv(states, steps, initial, k - 1);
    assert ByteInv(states[k - 1], a, initial(a));
    if i == k - 1 {
      var r := steps[i].record;
      CoveredSnoc(states[i].log, r, t, a);
      OldestStays(states[i].log, states[k].log, r, a);
      AnalyseSnoc(states[i].log, r);
      Snoc(states[i].log, r);
    } else {
      LiveBefore(states, steps, initial, i, k, a);
      FirstWriteLasts(states, steps, initial, i, k - 1, a);
      LiveStep(states[k - 1], states[k], steps[k - 1], t, a, initial(a));
    }
  }

  /** A transaction that wrote at step `i` and is unfinished in state `k` was unfinished all
      the time in between. */
  lemma LiveBefore(states: seq<State>, steps: seq<Step>, initial: Addr -> byte, i: nat, k: nat, a: Addr)
    requires Run(states, steps, initial) && LiveFirstWrite(states, steps, i, k, a) && i < k - 1
    ensures LiveFirstWrite(states, steps, i, k - 1, a)
  {
    assert Next(states[k - 1], states[k], steps[k - 1]) && Next(states[i], states[i + 1], steps[i]);
    LogGrows(states, steps, initial, i + 1, k - 1);
    WasUnfinished(states[k - 1], states[k], steps[k - 1], steps[i].record.txn, |states[i].log|);
  }

  /** A transaction with a record in the log does not begin again. */
  lemma WasUnfinished(s: State, s': State, step: Step, t: u64, i: nat)
    requires Next(s, s', step) && Disciplined(s, step) && i < |s.log| && s.log[i].txn == t && s.log[i].Update?
    requires t in Unfinished(s'.log)
    ensures t in Unfinished(s.log)
  {
    if s'.log != s.log {
      AnalyseSnoc(s.log, s'.log[|s.log|]);
    }
  }

  lemma {:induction false} LogGrows(states: seq<State>, steps: seq<Step>, initial: Addr -> byte, i: nat, j: nat)
    requires Run(states, steps, initial) && i <= j <= |steps|
    ensures states[i].log <= states[j].log
    decreases j - i
  {
    if i < j {
      LogGrows(states, steps, initial, i, j - 1);
      assert Next(states[j - 1], states[j], steps[j - 1]);
    }
  }

  /** Whoever covers a byte wrote it for the first time at some step. */
  lemma {:induction false} FirstWriteExists(states: seq<State>, steps: seq<Step>, initial: Addr -> byte, k: nat,
      t: u64, a: Addr)
      returns (i: nat)
    requires Run(states, steps, initial) && k <= |steps| && CoveredBy(states[k].log, t, a)
    ensures i < k && FirstWrite(states[i], steps[i], a) && steps[i].record.txn == t
    decreases k
  {
    assert k > 0;
    assert Next(states[k - 1], states[k], steps[k - 1]);
    if CoveredBy(states[k - 1].log, t, a) {
      i := FirstWriteExists(states, steps, initial, k - 1, t, a);
    } else {
      i := k - 1;
      CoveredSnoc(states[i].log, states[k].log[|states[i].log|], t, a);
    }
  }

  /** Crash recovery is correct exactly when writers saw committed data: after a crash in
      state `k` recovery gives byte `a` its last committed value if and only if the
      transaction that is unfinished there and wrote `a`, if any, found the last committed
      value when it wrote `a` for the first time. */
  lemma CrashRecoveryIff(states: seq<State>, steps: seq<Step>, initial: Addr -> byte, k: nat, a: Addr)
    requires Run(states, steps, initial) && k <= |steps|
    ensures Recovers(states[k], a, initial(a)) <==>
      forall i :: LiveFirstWrite(states, steps, i, k, a) ==> SeesCommitted(states[i], a, initial(a))
  {
    RunKeepsInv(states, steps, initial, k);
    RecoversIff(states[k], initial, a);
    forall i | LiveFirstWrite(states, steps, i, k, a)
      ensures CoveredBy(states[k].log, steps[i].record.txn, a)
      ensures UndoAt(states[k].log, steps[i].record.txn, a, 0) == states[i].view(a)
      ensures Ideal(states[k].log, a, initial(a)) == Ideal(states[i].log, a, initial(a))
    {
      FirstWriteLasts(states, steps, initial, i, k, a);
    }
    forall i | LiveFirstWrite(states, steps, i, k, a)
      ensures SeesCommitted(states[i], a, initial(a)) <==> states[i].view(a) == Ideal(states[i].log, a, initial(a))
    {
      IdealIff(states[i].log, a, initial(a), states[i].view(a));
    }
    forall t | t in Unfinished(states[k].log) && CoveredBy(states[k].log, t, a)
      ensures exists i :: LiveFirstWrite(states, steps, i, k, a) && steps[i].record.txn == t
    {
      var i := FirstWriteExists(states, steps, initial, k, t, a);
      assert LiveFirstWrite(states, steps, i, k, a);
    }
  }

  /** A run is recoverable at `a` wherever it crashes if and only if every first write of `a`
      by a transaction finds the last committed value there. */
  lemma EveryCrashRecoversIff(states: seq<State>, steps: seq<Step>, initial: Addr -> byte, a: Addr)
    requires Run(states, steps, initial)
    ensures (forall k :: 0 <= k <= |steps| ==> Recovers(states[k], a, initial(a))) <==>
      forall i :: 0 <= i < |steps| && FirstWrite(states[i], steps[i], a) ==>
        SeesCommitted(states[i], a, initial(a))
  {
    forall k | 0 <= k <= |steps|
      ensures Recovers(states[k], a, initial(a)) <==>
        forall i :: LiveFirstWrite(states, steps, i, k, a) ==> SeesCommitted(states[i], a, initial(a))
    {
      CrashRecoveryIff(states, steps, initial, k, a);
    }
    forall i | 0 <= i < |steps| && FirstWrite(states[i], steps[i], a)
      ensures LiveFirstWrite(states, steps, i, i + 1, a) {
      assert Next(states[i], states[i + 1], steps[i]);
      AnalyseSnoc(states[i].log, steps[i].record);
    }
  }
}
