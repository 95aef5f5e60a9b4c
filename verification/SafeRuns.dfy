/** Runs in which no abort discards another transaction's unflushed bytes: there every reader
    sees committed data, so every crash is recovered. */
module SafeRuns {
  import opened Bytes
  import opened LogRecord
  import opened RecoverySpec
  import opened RecoveryRuns

  /** Discarding these pages loses nothing but `t`'s own bytes. */
  ghost predicate SafeDiscard(s: State, t: u64, discarded: set<PageId>) {
    forall a: Addr :: a.page in discarded && !CoveredBy(s.log, t, a) ==> s.view(a) == s.disk(a)
  }

  ghost predicate Safe(s: State, step: Step) {
    step.AbortTxn? ==> SafeDiscard(s, step.txn, step.discarded)
  }

  ghost predicate SafeRun(states: seq<State>, steps: seq<Step>, initial: Addr -> byte) {
    Run(states, steps, initial) && forall k :: 0 <= k < |steps| ==> Safe(states[k], steps[k])
  }

  /** Every byte is as the last committed update left it, or a live transaction wrote it. */
  ghost predicate SafeByteInv(s: State, a: Addr, initial: byte) {
    var log, live := s.log, Unfinished(s.log);
    && (forall t, u :: t in live && u in live && CoveredBy(log, t, a) && CoveredBy(log, u, a) ==> t == u)
    && (!CoveredByAny(log, live, a) ==> s.view(a) == Ideal(log, a, initial))
    && (!CoveredByAny(log, live, a) && !CoveredByAny(log, Committed(log), a) ==> s.disk(a) == initial)
    && (forall t :: t in live && CoveredBy(log, t, a) ==>
          && UndoAt(log, t, a, 0) == Ideal(log, a, initial)
          && s.view(a) == RedoAt(log, Committed(log) + {t}, a, initial))
  }

  ghost predicate SafeInv(s: State, initial: Addr -> byte) {
    Orderly(s.log) && forall a :: SafeByteInv(s, a, initial(a))
  }

  lemma BeginKeepsSafe(s: State, s': State, t: u64, a: Addr, initial: byte)
    requires Orderly(s.log) && SafeByteInv(s, a, initial)
    requires Next(s, s', BeginTxn(t)) && Fresh(s.log, t)
    ensures SafeByteInv(s', a, initial)
  {
    AnalyseSnoc(s.log, Begin(t));
    QuietRecord(s.log, Begin(t), a);
    assert !CoveredBy(s.log, t, a);
    QuietSets(s.log, s'.log, a, t);
    assert Committed(s'.log) == Committed(s.log);
    forall u | u in Unfinished(s'.log) && CoveredBy(s'.log, u, a) ensures u in Unfinished(s.log) {}
  }

  lemma WriteKeepsSafe(s: State, s': State, r: Record, a: Addr, initial: byte)
    requires Orderly(s.log) && SafeByteInv(s, a, initial)
    requires Next(s, s', WriteBytes(r)) && Disciplined(s, WriteBytes(r))
    ensures SafeByteInv(s', a, initial)
  {
    hide Analyse;
    AnalyseSnoc(s.log, r);
    var t := r.txn;
    if Covers(r, a) {
      forall u ensures CoveredBy(s'.log, u, a) <==> CoveredBy(s.log, u, a) || u == t { CoveredSnoc(s.log, r, u, a); }
      assert CoveredBy(s'.log, t, a);
      UndoConcat(s.log, [r], t, a, 0);
      UndoDepends(s.log, t, a, UndoAt([r], t, a, 0), 0);
      assert UndoAt([r], t, a, 0) == s.view(a);
      Snoc(s.log, r);
      if !CoveredBy(s.log, t, a) {
        assert !CoveredByAny(s.log, Unfinished(s.log), a);
      }
    } else {
      QuietRecord(s.log, r, a);
      SameCoverage(s.log, s'.log, a);
    }
  }

  lemma CommitKeepsSafe(s: State, s': State, t: u64, flushed: set<PageId>, a: Addr, initial: byte)
    requires Orderly(s.log) && SafeByteInv(s, a, initial)
    requires Next(s, s', CommitTxn(t, flushed))
    ensures SafeByteInv(s', a, initial)
  {
    var w := Committed(s.log);
    AnalyseSnoc(s.log, Commit(t));
    QuietRecord(s.log, Commit(t), a);
    assert Committed(s'.log) == w + {t};
    if CoveredBy(s.log, t, a) {
      assert CoveredBy(s'.log, t, a) && CoveredByAny(s'.log, Committed(s'.log), a);
    } else {
      RedoIgnores(s.log, w, w + {t}, a, initial);
      forall u | u in Unfinished(s'.log) && CoveredBy(s.log, u, a)
        ensures RedoAt(s.log, w + {u}, a, initial) == RedoAt(s.log, w + {t} + {u}, a, initial)
      {
        RedoIgnores(s.log, w + {u}, w + {t} + {u}, a, initial);
      }
      QuietSets(s.log, s'.log, a, t);
      RedoDepends(s.log, w, a, initial, initial);
    }
  }

  lemma AbortKeepsSafe(s: State, s': State, t: u64, discarded: set<PageId>, a: Addr, initial: byte)
    requires Orderly(s.log) && SafeByteInv(s, a, initial)
    requires Next(s, s', AbortTxn(t, discarded)) && SafeDiscard(s, t, discarded)
    ensures SafeByteInv(s', a, initial)
  {
    var v := if a.page in discarded then s.disk(a) else s.view(a);
    AnalyseSnoc(s.log, Abort(t));
    QuietRecord(s.log, Abort(t), a);
    RollbackMeaning(s.log, t, a, v);
    RedoDepends(s.log, Committed(s.log), a, initial, initial);
    assert s'.disk(a) == s'.view(a);
    if CoveredBy(s.log, t, a) {
      assert forall u :: u in Unfinished(s'.log) ==> !CoveredBy(s'.log, u, a);
      assert CoveredByAny(s.log, Committed(s.log), a) ==> CoveredByAny(s'.log, Committed(s'.log), a);
    } else {
      QuietSets(s.log, s'.log, a, t);
    }
  }

  lemma FlushKeepsSafe(s: State, s': State, pages: set<PageId>, a: Addr, initial: byte)
    requires SafeByteInv(s, a, initial) && FlushStep(s, s', pages)
    ensures SafeByteInv(s', a, initial)
  {
    RedoDepends(s.log, Committed(s.log), a, initial, initial);
  }

  lemma CheckpointKeepsSafe(s: State, s': State, a: Addr, initial: byte)
    requires SafeByteInv(s, a, initial) && CheckpointStep(s, s')
    ensures SafeByteInv(s', a, initial)
  {
    RedoDepends(s.log, Committed(s.log), a, initial, initial);
    AnalyseSnoc(s.log, Checkpoint(0, []));
    QuietRecord(s.log, Checkpoint(0, []), a);
    SameCoverage(s.log, s'.log, a);
  }

  lemma StepKeepsSafe(s: State, s': State, step: Step, initial: Addr -> byte)
    requires SafeInv(s, initial) && Next(s, s', step) && Disciplined(s, step) && Safe(s, step)
    ensures SafeInv(s', initial)
  {
    OrderlyStep(s, s', step);
    forall a ensures SafeByteInv(s', a, initial(a)) {
      match step
      case BeginTxn(t) => BeginKeepsSafe(s, s', t, a, initial(a));
      case WriteBytes(r) => WriteKeepsSafe(s, s', r, a, initial(a));
      case CommitTxn(t, flushed) => CommitKeepsSafe(s, s', t, flushed, a, initial(a));
      case AbortTxn(t, discarded) => AbortKeepsSafe(s, s', t, discarded, a, initial(a));
      case TakeCheckpoint => CheckpointKeepsSafe(s, s', a, initial(a));
      case FlushPages(pages) => FlushKeepsSafe(s, s', pages, a, initial(a));
    }
  }

  lemma {:induction false} RunKeepsSafe(states: seq<State>, steps: seq<Step>, initial: Addr -> byte, k: nat)
    requires SafeRun(states, steps, initial) && k <= |steps|
    ensures SafeInv(states[k], initial)
  {
    if k == 0 {
      assert forall t, a :: !CoveredBy(states[0].log, t, a);
    } else {
      RunKeepsSafe(states, steps, initial, k - 1);
      StepKeepsSafe(states[k - 1], states[k], steps[k - 1], initial);
    }
  }

  lemma SafeIsRecoverable(s: State, initial: Addr -> byte)
    requires SafeInv(s, initial)
    ensures Inv(s, initial) && forall a :: Recovers(s, a, initial(a))
  {
    forall a ensures ByteInv(s, a, initial(a)) && UndoneToIdeal(s.log, a, initial(a)) {
      assert SafeByteInv(s, a, initial(a));
      RedoDepends(s.log, Committed(s.log), a, initial(a), initial(a));
    }
    forall a ensures Recovers(s, a, initial(a)) {
      RecoversIff(s, initial, a);
    }
  }

  /** Crash recovery is correct for safe runs: a crash after any number of steps, followed by
      recovery, leaves every byte at its last committed value. */
  lemma CrashRecovery(states: seq<State>, steps: seq<Step>, initial: Addr -> byte, k: nat, a: Addr)
    requires SafeRun(states, steps, initial) && k <= |steps|
    ensures Recovers(states[k], a, initial(a))
  {
    RunKeepsSafe(states, steps, initial, k);
    SafeIsRecoverable(states[k], initial);
  }
}
