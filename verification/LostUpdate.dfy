/** A concrete run in which `abort_txn` drops another transaction's unflushed bytes. The
    victim then commits, and after a crash recovery does not restore its committed value. */
module LostUpdate {
  import opened Bytes
  import opened LogRecord
  import opened RecoverySpec
  import opened RecoveryRuns
  import opened SafeRuns

  function Zero(): Addr -> byte { (a: Addr) => 0 }

  function At(off: nat, v: byte): Addr -> byte { (a: Addr) => if a == Addr(0, off) then v else 0 }

  function Both(): Addr -> byte { (a: Addr) => if a == Addr(0, 0) then 7 else if a == Addr(0, 1) then 5 else 0 }

  const VICTIM := Update(2, 0, 0, [0], [7])
  const ABORTED := Update(1, 0, 1, [0], [5])
  const LATER := Update(3, 0, 0, [0], [9])

  function Steps(): seq<Step> {
    [BeginTxn(1), BeginTxn(2), WriteBytes(VICTIM), WriteBytes(ABORTED), AbortTxn(1, {0}),
     CommitTxn(2, {0}), BeginTxn(3), WriteBytes(LATER)]
  }

  function Log(n: nat): seq<Record>
    requires n <= 8
  {
    [Begin(1), Begin(2), VICTIM, ABORTED, Abort(1), Commit(2), Begin(3), LATER][..n]
  }

  function View(n: nat): Addr -> byte {
    if n == 3 then At(0, 7) else if n == 4 then Both() else if n == 8 then At(0, 9) else Zero()
  }

  function States(): seq<State> {
    seq(9, n requires 0 <= n < 9 => State(Log(n), View(n), Zero()))
  }

  lemma Analyses()
    ensures Analyse(Log(2)) == Analysis({1, 2}, {}, map[1 := 0, 2 := 1])
    ensures Analyse(Log(3)) == Analyse(Log(4)) == Analyse(Log(2))
    ensures Analyse(Log(5)) == Analysis({2}, {}, map[1 := 0, 2 := 1])
    ensures Analyse(Log(7)) == Analysis({3}, {2}, map[1 := 0, 2 := 1, 3 := 6])
    ensures Analyse(Log(8)) == Analyse(Log(7))
  {
    Next1(0); Next1(1); Next1(2); Next1(3); Next1(4); Next1(5); Next1(6); Next1(7);
  }

  lemma Next1(n: nat)
    requires n < 8
    ensures Log(n + 1) == Log(n) + [Log(8)[n]]
    ensures Analyse(Log(n + 1)) == Note(Analyse(Log(n)), Log(8)[n], n)
  {
    AnalyseSnoc(Log(n), Log(8)[n]);
  }

  lemma UndoTwo(r: Record, r': Record, t: u64, a: Addr, v: byte)
    requires !r.Update?
    ensures UndoAt([r, r'], t, a, v) == if Covers(r', a) && r'.txn == t then r'.before[a.off - r'.offset] else v
  {
    assert [r, r'][1..] == [r'] && [r'][1..] == [];
    assert UndoAt([r'], t, a, v) == if Covers(r', a) && r'.txn == t then r'.before[a.off - r'.offset]
      else UndoAt([], t, a, v);
  }

  /** This is a run; its one abort is not safe. */
  lemma RunsToCrash()
    ensures Run(States(), Steps(), Zero())
    ensures forall k :: 0 <= k < 8 ==> (Safe(States()[k], Steps()[k]) <==> k != 4)
  {
    forall k | 0 <= k < 8
      ensures Next(States()[k], States()[k + 1], Steps()[k]) && Disciplined(States()[k], Steps()[k]) {
      if k == 4 {
        UnsafeAbort();
      } else if Steps()[k].WriteBytes? {
        WriteIsStep(k);
        WriteAlone(k);
      } else {
        QuietIsStep(k);
      }
    }
    assert !CoveredBy(Log(4), 1, Addr(0, 0));
    assert States()[4].view(Addr(0, 0)) == 7;
  }

  lemma QuietIsStep(k: nat)
    requires k in {0, 1, 5, 6}
    ensures Next(States()[k], States()[k + 1], Steps()[k])
  {
    Next1(k);
    Analyses();
  }

  lemma WriteIsStep(k: nat)
    requires k in {2, 3, 7}
    ensures Next(States()[k], States()[k + 1], Steps()[k])
  {
    Next1(k);
    Analyses();
  }

  lemma WriteAlone(k: nat)
    requires k in {2, 3, 7}
    ensures Disciplined(States()[k], Steps()[k])
  {
    Analyses();
  }

  lemma UnsafeAbort()
    ensures Next(States()[4], States()[5], AbortTxn(1, {0}))
  {
    Analyses();
    Next1(4);
    var log := Log(4);
    forall a: Addr ensures Rollback(log, 1, a, 0) == 0 {
      UndoDepends(log, 1, a, 0, 0);
      UndoDepends(log[1..], 1, a, 0, 0);
      UndoDepends(log[2..], 1, a, 0, 0);
      assert log[1..][1..] == log[2..] && log[2..][1..] == log[3..] && log[3..][1..] == [];
      assert log[0..] == log;
    }
    forall a: Addr | a.page !in {0} ensures Both()(a) == 0 {}
  }

  /** Recovery is not correct for runs in which an abort discards somebody else's unflushed
      bytes: transaction 2's committed byte 7 is replaced by 0. */
  lemma DiscardLosesCommittedUpdate()
    ensures var log, a := States()[8].log, Addr(0, 0);
      && CommittedUpdate(log, 2, a) && VICTIM.after[0] == 7
      && RecoveredAt(log, a, States()[8].disk(a)) == 0
      && !IsLastCommitted(log, a, 0, 0)
  {
    Analyses();
    var log, a := Log(8), Addr(0, 0);
    assert log[5] == Commit(2) && HasCommit(log, 2);
    assert CommittedUpdate(log, 2, a);
    forall i | CommittedUpdate(log, i, a) ensures i == 2 {
      CommittedIsHasCommit(log, 3);
      assert log[7].txn == 3;
    }
    UndoTwo(Begin(3), LATER, 3, a, RedoAt(log, {2}, a, 0));
    assert log[6..] == [Begin(3), LATER];
    var an := Analyse(log);
    assert an.active == {3} && Min({3}) == 3 && {3} - {3} == {};
    assert RollbackAt(log, an.first, 3, a, RedoAt(log, {2}, a, 0)) == 0;
  }
}
