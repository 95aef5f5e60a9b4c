/** Further theorems about runs: what rollback restores, when an abort disturbs others, and
    recovery that is itself interrupted. */
module RecoveryTheorems {
  import opened Bytes
  import opened LogRecord
  import opened RecoverySpec
  import opened RecoveryRuns
  import opened SafeRuns

  // ---------- Rollback ----------

  /** The log of a later state, seen from the first write of a byte. */
  lemma LogAround(states: seq<State>, steps: seq<Step>, initial: Addr -> byte, t: u64, a: Addr, i: nat, j: nat)
      returns (r: Record, more: seq<Record>)
    requires Run(states, steps, initial) && i < j <= |steps|
    requires !CoveredBy(states[i].log, t, a) && CoveredBy(states[i + 1].log, t, a)
    ensures steps[i] == WriteBytes(r) && r.txn == t && Covers(r, a) && r.before[a.off - r.offset] == states[i].view(a)
    ensures states[j].log == states[i].log + [r] + more
  {
    assert Next(states[i], states[i + 1], steps[i]);
    LogGrows(states, steps, initial, i + 1, j);
    r := states[i + 1].log[|states[i].log|];
    CoveredSnoc(states[i].log, r, t, a);
    more := states[j].log[|states[i + 1].log|..];
  }

  /** Rollback is exact: when `t` aborts at step `j`, a byte it first wrote at step `i` is
      again what it was before that step, in the pool and on disk, whatever else `t` and
      other transactions logged in between. */
  lemma RollbackRestores(states: seq<State>, steps: seq<Step>, initial: Addr -> byte, t: u64, a: Addr, i: nat, j: nat)
    requires Run(states, steps, initial) && i < j < |steps|
    requires steps[j].AbortTxn? && steps[j].txn == t
    requires !CoveredBy(states[i].log, t, a) && CoveredBy(states[i + 1].log, t, a)
    ensures states[j + 1].view(a) == states[j + 1].disk(a) == states[i].view(a)
  {
    hide Orderly, CoveredBy, UndoAt;
    RunKeepsInv(states, steps, initial, j);
    var r, more := LogAround(states, steps, initial, t, a, i, j);
    OldestImage(states[i].log, r, more, t, a);
    assert Next(states[j], states[j + 1], steps[j]);
    RollbackMeaning(states[j].log, t, a, if a.page in steps[j].discarded then states[j].disk(a) else states[j].view(a));
  }

  /** Undo ends with the before image of the oldest covering update. */
  lemma OldestImage(log: seq<Record>, r: Record, more: seq<Record>, t: u64, a: Addr)
    requires !CoveredBy(log, t, a) && r.txn == t && Covers(r, a)
    ensures UndoAt(log + [r] + more, t, a, 0) == r.before[a.off - r.offset]
    ensures CoveredBy(log + [r] + more, t, a)
  {
    var v := UndoAt(more, t, a, 0);
    UndoConcat(log + [r], more, t, a, 0);
    UndoConcat(log, [r], t, a, v);
    UndoDepends(log, t, a, UndoAt([r], t, a, v), 0);
    assert (log + [r] + more)[|log|] == r;
  }

  /** `abort_txn` first drops the transaction's modified pages from the pool. The abort
      leaves every byte the transaction did not write as it was if and only if none of those
      pages carries an unflushed byte of somebody else. */
  lemma AbortKeepsOthersIff(s: State, s': State, t: u64, discarded: set<PageId>)
    requires Orderly(s.log) && Next(s, s', AbortTxn(t, discarded))
    ensures (forall a :: !CoveredBy(s.log, t, a) ==> s'.view(a) == s.view(a)) <==> SafeDiscard(s, t, discarded)
  {
    forall a: Addr | !CoveredBy(s.log, t, a)
      ensures s'.view(a) == if a.page in discarded then s.disk(a) else s.view(a)
    {
      RollbackMeaning(s.log, t, a, if a.page in discarded then s.disk(a) else s.view(a));
    }
  }

  /** Whoever flushes the pages of an abort first keeps all bytes the transaction did not
      write. */
  lemma FlushThenAbort(s: State, s': State, s'': State, pages: set<PageId>, t: u64, discarded: set<PageId>, a: Addr)
    requires Orderly(s.log) && Next(s, s', FlushPages(pages)) && Next(s', s'', AbortTxn(t, discarded))
    requires discarded <= pages && !CoveredBy(s.log, t, a)
    ensures s''.view(a) == s''.disk(a) == s.view(a)
  {
    AbortKeepsOthersIff(s', s'', t, discarded);
  }

  // ---------- Interrupted recovery ----------

  /** One `memcpy` of recovery: the after image of a record, or its before image. */
  datatype PageWrite = PageWrite(record: Record, redo: bool)

  function Image(w: PageWrite, a: Addr, v: byte): byte {
    if !Covers(w.record, a) then v
    else if w.redo then w.record.after[a.off - w.record.offset]
    else w.record.before[a.off - w.record.offset]
  }

  function ApplyAll(ws: seq<PageWrite>, a: Addr, v: byte): byte {
    if ws == [] then v else Image(ws[|ws| - 1], a, ApplyAll(ws[..|ws| - 1], a, v))
  }

  function RedoWrites(log: seq<Record>, winners: set<u64>): seq<PageWrite> {
    if log == [] then [] else
    var r := log[|log| - 1];
    RedoWrites(log[..|log| - 1], winners) + if r.Update? && r.txn in winners then [PageWrite(r, true)] else []
  }

  function UndoWrites(log: seq<Record>, t: u64): seq<PageWrite> {
    if log == [] then [] else
    UndoWrites(log[1..], t) + if log[0].Update? && log[0].txn == t then [PageWrite(log[0], false)] else []
  }

  ghost function UndoAllWrites(log: seq<Record>, first: map<u64, nat>, losers: set<u64>): seq<PageWrite>
    decreases |losers|
  {
    if losers == {} then [] else
    var t := Min(losers);
    UndoWrites(log[StartOf(log, first, t)..], t) + UndoAllWrites(log, first, losers - {t})
  }

  /** Everything recovery writes to pages, in order. */
  ghost function RecoveryWrites(log: seq<Record>): seq<PageWrite> {
    var an := Analyse(log);
    RedoWrites(log, an.committed) + UndoAllWrites(log, an.first, an.active)
  }

  lemma {:induction false} ApplyConcat(ws: seq<PageWrite>, more: seq<PageWrite>, a: Addr, v: byte)
    ensures ApplyAll(ws + more, a, v) == ApplyAll(more, a, ApplyAll(ws, a, v))
  {
    if more == [] {
      assert ws + more == ws;
    } else {
      ApplyConcat(ws, more[..|more| - 1], a, v);
      assert (ws + more)[..|ws + more| - 1] == ws + more[..|more| - 1];
    }
  }

  lemma ApplyOne(w: PageWrite, a: Addr, v: byte)
    ensures ApplyAll([w], a, v) == Image(w, a, v)
  {
    assert [w][..0] == [];
  }

  lemma {:induction false} ApplyRedo(log: seq<Record>, winners: set<u64>, a: Addr, v: byte)
    requires forall i :: 0 <= i < |log| ==> WellFormed(log[i])
    ensures ApplyAll(RedoWrites(log, winners), a, v) == RedoAt(log, winners, a, v)
  {
    if log != [] {
      var front, r := log[..|log| - 1], log[|log| - 1];
      ApplyRedo(front, winners, a, v);
      ApplyConcat(RedoWrites(front, winners), RedoWrites(log, winners)[|RedoWrites(front, winners)|..], a, v);
      ApplyOne(PageWrite(r, true), a, RedoAt(front, winners, a, v));
      assert RedoWrites(front, winners) + [] == RedoWrites(front, winners);
    }
  }

  lemma {:induction false} ApplyUndo(log: seq<Record>, t: u64, a: Addr, v: byte)
    ensures ApplyAll(UndoWrites(log, t), a, v) == UndoAt(log, t, a, v)
  {
    if log != [] {
      var rest, r := UndoWrites(log[1..], t), log[0];
      ApplyUndo(log[1..], t, a, v);
      ApplyConcat(rest, [PageWrite(r, false)], a, v);
      ApplyOne(PageWrite(r, false), a, ApplyAll(rest, a, v));
      assert rest + [] == rest;
    }
  }

  lemma {:induction false} ApplyUndoAll(log: seq<Record>, first: map<u64, nat>, losers: set<u64>, a: Addr, v: byte)
    ensures ApplyAll(UndoAllWrites(log, first, losers), a, v) == UndoAll(log, first, losers, a, v)
    decreases |losers|
  {
    if losers != {} {
      var t := Min(losers);
      var tail := log[StartOf(log, first, t)..];
      ApplyConcat(UndoWrites(tail, t), UndoAllWrites(log, first, losers - {t}), a, v);
      ApplyUndo(tail, t, a, v);
      ApplyUndoAll(log, first, losers - {t}, a, UndoAt(tail, t, a, v));
    }
  }

  /** The writes, applied in order, are recovery. */
  lemma WritesAreRecovery(log: seq<Record>, a: Addr, v: byte)
    requires forall i :: 0 <= i < |log| ==> WellFormed(log[i])
    ensures ApplyAll(RecoveryWrites(log), a, v) == RecoveredAt(log, a, v)
  {
    var an := Analyse(log);
    ApplyConcat(RedoWrites(log, an.committed), UndoAllWrites(log, an.first, an.active), a, v);
    ApplyRedo(log, an.committed, a, v);
    ApplyUndoAll(log, an.first, an.active, a, RedoAt(log, an.committed, a, v));
  }

  /** Recovery in progress: the number of page writes done, and the bytes as the pool and
      the disk hold them. */
  datatype Progress = Progress(done: nat, view: Addr -> byte, disk: Addr -> byte)

  ghost predicate ProgressStep(log: seq<Record>, p: Progress, p': Progress) {
    || (&& p.done < |RecoveryWrites(log)|
        && p'.done == p.done + 1
        && (forall a :: p'.view(a) == Image(RecoveryWrites(log)[p.done], a, p.view(a)))
        && Same(p'.disk, p.disk))
    || (&& p'.done == p.done && Same(p'.view, p.view)
        && exists page: PageId :: PageFlushed(p, p', page))
  }

  ghost predicate PageFlushed(p: Progress, p': Progress, page: PageId) {
    forall a: Addr :: p'.disk(a) == if a.page == page then p.view(a) else p.disk(a)
  }

  /** A recovery that started from disk `before` and got as far as the last element. */
  ghost predicate PartialRecovery(log: seq<Record>, ps: seq<Progress>, before: Addr -> byte) {
    && |ps| > 0 && ps[0].done == 0 && Same(ps[0].view, before) && Same(ps[0].disk, before)
    && forall k :: 0 < k < |ps| ==> ProgressStep(log, ps[k - 1], ps[k])
  }

  ghost predicate Touched(log: seq<Record>, a: Addr) {
    CoveredByAny(log, Unfinished(log), a) || CoveredByAny(log, Committed(log), a)
  }

  ghost predicate WritesBelong(ws: seq<PageWrite>, log: seq<Record>, ts: set<u64>) {
    forall k :: 0 <= k < |ws| ==> ws[k].record in log && ws[k].record.txn in ts
  }

  lemma {:induction false} RedoWritesBelong(log: seq<Record>, winners: set<u64>)
    ensures WritesBelong(RedoWrites(log, winners), log, winners)
  {
    if log != [] {
      RedoWritesBelong(log[..|log| - 1], winners);
    }
  }

  lemma {:induction false} UndoWritesBelong(log: seq<Record>, t: u64)
    ensures WritesBelong(UndoWrites(log, t), log, {t})
  {
    if log != [] {
      UndoWritesBelong(log[1..], t);
    }
  }

  lemma {:induction false} UndoAllWritesBelong(log: seq<Record>, first: map<u64, nat>, losers: set<u64>)
    ensures WritesBelong(UndoAllWrites(log, first, losers), log, losers)
    decreases |losers|
  {
    if losers != {} {
      var t := Min(losers);
      UndoWritesBelong(log[StartOf(log, first, t)..], t);
      UndoAllWritesBelong(log, first, losers - {t});
    }
  }

  lemma WriteTouches(log: seq<Record>, k: nat, a: Addr, v: byte)
    requires k < |RecoveryWrites(log)| && !Touched(log, a)
    ensures Image(RecoveryWrites(log)[k], a, v) == v
  {
    var an := Analyse(log);
    var w := RecoveryWrites(log)[k];
    RedoWritesBelong(log, an.committed);
    UndoAllWritesBelong(log, an.first, an.active);
    assert w.record in log && (w.record.txn in an.committed || w.record.txn in an.active);
    MemberCovers(log, w.record, a);
  }

  lemma MemberCovers(log: seq<Record>, r: Record, a: Addr)
    requires r in log
    ensures Covers(r, a) ==> CoveredBy(log, r.txn, a)
  {
    var i :| 0 <= i < |log| && log[i] == r;
  }

  lemma {:induction false} UntouchedStay(log: seq<Record>, ps: seq<Progress>, before: Addr -> byte, k: nat, a: Addr)
    requires PartialRecovery(log, ps, before) && k < |ps| && !Touched(log, a)
    ensures ps[k].view(a) == ps[k].disk(a) == before(a)
  {
    if k > 0 {
      UntouchedStay(log, ps, before, k - 1, a);
      assert ProgressStep(log, ps[k - 1], ps[k]);
      if ps[k].done == ps[k - 1].done + 1 {
        WriteTouches(log, ps[k - 1].done, a, before(a));
      }
    }
  }

  /** What recovery makes of a byte that a finished or unfinished update covers does not
      depend on what was on disk; it leaves all other bytes alone. */
  lemma RecoveredDepends(log: seq<Record>, a: Addr, v: byte, v': byte)
    requires Orderly(log)
    ensures Touched(log, a) ==> RecoveredAt(log, a, v) == RecoveredAt(log, a, v')
    ensures !Touched(log, a) ==> RecoveredAt(log, a, v) == v
  {
    var an := Analyse(log);
    RedoDepends(log, an.committed, a, v, v');
    UndoAllDepends(log, an.first, an.active, a, RedoAt(log, an.committed, a, v), RedoAt(log, an.committed, a, v'));
  }

  /** Recovery is restartable: stop it after any of its page writes, with any pages flushed
      at any time, crash, and run it again: the outcome is that of one uninterrupted run. */
  lemma RecoveryRestartable(log: seq<Record>, ps: seq<Progress>, before: Addr -> byte, a: Addr)
    requires Orderly(log) && PartialRecovery(log, ps, before)
    ensures RecoveredAt(log, a, ps[|ps| - 1].disk(a)) == RecoveredAt(log, a, before(a))
  {
    var after := ps[|ps| - 1].disk(a);
    RecoveredDepends(log, a, after, before(a));
    if !Touched(log, a) {
      UntouchedStay(log, ps, before, |ps| - 1, a);
    }
  }

  /** In particular recovering twice is recovering once. */
  lemma RecoveryIdempotent(log: seq<Record>, a: Addr, v: byte)
    requires Orderly(log)
    ensures RecoveredAt(log, a, RecoveredAt(log, a, v)) == RecoveredAt(log, a, v)
  {
    RecoveredDepends(log, a, RecoveredAt(log, a, v), v);
  }
}
