/** What the log means, byte by byte: analysis, redo of committed work and undo of one
    transaction, as functions of the sequence of log records. */
module RecoverySpec {
  import opened Bytes
  import opened LogRecord

  type PageId = x: u64 | x < 0xFFFF_FFFF_FFFF_FFFF

  /** One byte of one page. */
  datatype Addr = Addr(page: PageId, off: nat)

  predicate Covers(r: Record, a: Addr) {
    r.Update? && r.page == a.page && |r.before| == |r.after| && r.offset <= a.off < r.offset + |r.after|
  }

  /** Transaction `t` updated byte `a`. */
  ghost predicate CoveredBy(log: seq<Record>, t: u64, a: Addr) {
    exists i :: 0 <= i < |log| && log[i].txn == t && Covers(log[i], a)
  }

  ghost predicate CoveredByAny(log: seq<Record>, ts: set<u64>, a: Addr) {
    exists t :: t in ts && CoveredBy(log, t, a)
  }

  /** The first pass of recovery: unfinished transactions, committed transactions, and the
      index of the record where each unfinished transaction begins. */
  datatype Analysis = Analysis(active: set<u64>, committed: set<u64>, first: map<u64, nat>)

  function Analyse(log: seq<Record>): Analysis {
    if log == [] then Analysis({}, {}, map[]) else
    Note(Analyse(log[..|log| - 1]), log[|log| - 1], |log| - 1)
  }

  /** What the record at index `i` adds to the analysis of those before it. */
  function Note(an: Analysis, r: Record, i: nat): Analysis {
    match r
    case Begin(t) =>
      if t in an.committed then an else Analysis(an.active + {t}, an.committed, an.first[t := i])
    case Commit(t) => Analysis(an.active - {t}, an.committed + {t}, an.first)
    case Abort(t) => Analysis(an.active - {t}, an.committed, an.first)
    case _ => an
  }

  /** The byte at `a`, starting from `v`, after writing the after images of the updates of
      the transactions in `winners`, in log order. */
  function RedoAt(log: seq<Record>, winners: set<u64>, a: Addr, v: byte): byte {
    if log == [] then v else
    var r := log[|log| - 1];
    if Covers(r, a) && r.txn in winners then r.after[a.off - r.offset]
    else RedoAt(log[..|log| - 1], winners, a, v)
  }

  /** The byte at `a`, starting from `v`, after writing the before images of `t`'s updates,
      newest first. */
  function UndoAt(log: seq<Record>, t: u64, a: Addr, v: byte): byte {
    if log == [] then v else
    var r := log[0];
    if Covers(r, a) && r.txn == t then r.before[a.off - r.offset]
    else UndoAt(log[1..], t, a, v)
  }

  /** The record index from which `t` is rolled back; an unknown transaction maps to the
      start of the log, as the map's default value does. */
  function StartOf(log: seq<Record>, first: map<u64, nat>, t: u64): (k: nat)
    ensures k <= |log|
  {
    if t in first && first[t] <= |log| then first[t] else 0
  }

  function RollbackAt(log: seq<Record>, first: map<u64, nat>, t: u64, a: Addr, v: byte): byte {
    UndoAt(log[StartOf(log, first, t)..], t, a, v)
  }

  ghost predicate IsMin(ts: set<u64>, t: u64) {
    t in ts && forall u :: u in ts ==> t <= u
  }

  lemma {:induction false} MinExists(ts: set<u64>)
    requires ts != {}
    ensures exists t :: IsMin(ts, t)
    decreases |ts|
  {
    var x :| x in ts;
    if ts == {x} {
      assert IsMin(ts, x);
    } else {
      assert ts - {x} != {};
      MinExists(ts - {x});
      var m :| IsMin(ts - {x}, m);
      assert forall u :: u in ts ==> u == x || u in ts - {x};
      assert IsMin(ts, if x < m then x else m);
    }
  }

  /** The smallest member of a set: iteration over an ordered set starts with it. */
  ghost function Min(ts: set<u64>): (t: u64)
    requires ts != {}
    ensures IsMin(ts, t)
  {
    MinExists(ts);
    var t :| IsMin(ts, t);
    t
  }

  /** The third pass of recovery: roll back each of `losers`, in ascending order. */
  ghost function UndoAll(log: seq<Record>, first: map<u64, nat>, losers: set<u64>, a: Addr, v: byte): byte
    decreases |losers|
  {
    if losers == {} then v else
    var t := Min(losers);
    UndoAll(log, first, losers - {t}, a, RollbackAt(log, first, t, a, v))
  }

  /** The byte at `a` after recovery, when it was `v` before. */
  ghost function RecoveredAt(log: seq<Record>, a: Addr, v: byte): byte {
    var an := Analyse(log);
    UndoAll(log, an.first, an.active, a, RedoAt(log, an.committed, a, v))
  }

  // ---------- The independent specification ----------

  ghost predicate HasCommit(log: seq<Record>, t: u64) {
    exists k :: 0 <= k < |log| && log[k] == Commit(t)
  }

  ghost predicate CommittedUpdate(log: seq<Record>, i: int, a: Addr) {
    0 <= i < |log| && Covers(log[i], a) && HasCommit(log, log[i].txn)
  }

  /** `v` is the after image of the last committed update covering `a`, or `initial` if no
      committed update covers it. */
  ghost predicate IsLastCommitted(log: seq<Record>, a: Addr, initial: byte, v: byte) {
    if exists i :: CommittedUpdate(log, i, a) then
      exists i :: CommittedUpdate(log, i, a)
        && (forall j :: i < j ==> !CommittedUpdate(log, j, a))
        && v == log[i].after[a.off - log[i].offset]
    else v == initial
  }

  // ---------- Facts about the definitions ----------

  lemma {:induction false} CommittedIsHasCommit(log: seq<Record>, t: u64)
    ensures t in Analyse(log).committed <==> HasCommit(log, t)
  {
    if log != [] {
      var front := log[..|log| - 1];
      CommittedIsHasCommit(front, t);
      assert forall k :: 0 <= k < |front| ==> front[k] == log[k];
      if HasCommit(front, t) {
        var k :| 0 <= k < |front| && front[k] == Commit(t);
        assert log[k] == Commit(t);
      }
      if HasCommit(log, t) && !HasCommit(front, t) {
        assert log[|log| - 1] == Commit(t);
      }
      if log[|log| - 1] == Commit(t) {
        assert HasCommit(log, t);
      }
    }
  }

  /** Redo of the committed transactions computes the last committed value. */
  lemma RedoIsLastCommitted(log: seq<Record>, a: Addr, initial: byte)
    ensures IsLastCommitted(log, a, initial, RedoAt(log, Analyse(log).committed, a, initial))
  {
    var winners := Analyse(log).committed;
    forall i | 0 <= i < |log|
      ensures CommittedUpdate(log, i, a) <==> Wins(log, winners, i, a)
    {
      CommittedIsHasCommit(log, log[i].txn);
    }
    var i := RedoFindsLast(log, winners, a, initial);
    forall j ensures CommittedUpdate(log, j, a) <==> Wins(log, winners, j, a) {}
    assert i >= 0 ==> CommittedUpdate(log, i, a);
  }

  ghost predicate Wins(log: seq<Record>, winners: set<u64>, i: int, a: Addr) {
    0 <= i < |log| && Covers(log[i], a) && log[i].txn in winners
  }

  lemma {:induction false} RedoFindsLast(log: seq<Record>, winners: set<u64>, a: Addr, v: byte) returns (i: int)
    ensures forall j :: i < j ==> !Wins(log, winners, j, a)
    ensures i >= 0 ==> Wins(log, winners, i, a) && RedoAt(log, winners, a, v) == log[i].after[a.off - log[i].offset]
    ensures i < 0 ==> RedoAt(log, winners, a, v) == v
  {
    if log == [] {
      i := -1;
    } else if Wins(log, winners, |log| - 1, a) {
      i := |log| - 1;
    } else {
      var front := log[..|log| - 1];
      i := RedoFindsLast(front, winners, a, v);
      forall j | i < j ensures !Wins(log, winners, j, a) {
        if 0 <= j < |front| {
          assert !Wins(front, winners, j, a) && front[j] == log[j];
        }
      }
    }
  }

  lemma Snoc(log: seq<Record>, r: Record)
    ensures (log + [r])[..|log + [r]| - 1] == log && (log + [r])[|log + [r]| - 1] == r
  {
  }

  lemma AnalyseSnoc(log: seq<Record>, r: Record)
    ensures Analyse(log + [r]) == Note(Analyse(log), r, |log|)
  {
    Snoc(log, r);
  }

  lemma AnalyseNext(log: seq<Record>, i: nat)
    requires i < |log|
    ensures Analyse(log[..i + 1]) == Note(Analyse(log[..i]), log[i], i)
  {
    assert log[..i + 1] == log[..i] + [log[i]];
    AnalyseSnoc(log[..i], log[i]);
  }

  lemma CoveredSnoc(log: seq<Record>, r: Record, t: u64, a: Addr)
    ensures CoveredBy(log + [r], t, a) <==> CoveredBy(log, t, a) || (r.txn == t && Covers(r, a))
  {
    var l := log + [r];
    if CoveredBy(log, t, a) {
      var i :| 0 <= i < |log| && log[i].txn == t && Covers(log[i], a);
      assert l[i] == log[i];
    }
    if r.txn == t && Covers(r, a) {
      assert l[|log|] == r;
    }
  }

  /** Transactions that never touch `a` do not matter to redo at `a`. */
  lemma {:induction false} RedoIgnores(log: seq<Record>, w: set<u64>, w': set<u64>, a: Addr, v: byte)
    requires forall t :: (t in w) != (t in w') ==> !CoveredBy(log, t, a)
    ensures RedoAt(log, w, a, v) == RedoAt(log, w', a, v)
  {
    if log != [] {
      var front, r := log[..|log| - 1], log[|log| - 1];
      assert log == front + [r];
      forall t ensures CoveredBy(front, t, a) ==> CoveredBy(log, t, a) { CoveredSnoc(front, r, t, a); }
      CoveredSnoc(front, r, r.txn, a);
      RedoIgnores(front, w, w', a, v);
    }
  }

  lemma {:induction false} RedoDepends(log: seq<Record>, w: set<u64>, a: Addr, v: byte, v': byte)
    ensures CoveredByAny(log, w, a) ==> RedoAt(log, w, a, v) == RedoAt(log, w, a, v')
    ensures !CoveredByAny(log, w, a) ==> RedoAt(log, w, a, v) == v
  {
    if log != [] {
      var front, r := log[..|log| - 1], log[|log| - 1];
      assert log == front + [r];
      RedoDepends(front, w, a, v, v');
      forall t ensures CoveredBy(log, t, a) <==> CoveredBy(front, t, a) || (r.txn == t && Covers(r, a)) {
        CoveredSnoc(front, r, t, a);
      }
      if Covers(r, a) && r.txn in w {
        assert CoveredBy(log, r.txn, a);
      } else if CoveredByAny(log, w, a) {
        var t :| t in w && CoveredBy(log, t, a);
        assert CoveredBy(front, t, a);
      }
    }
  }

  lemma {:induction false} UndoDepends(log: seq<Record>, t: u64, a: Addr, v: byte, v': byte)
    ensures CoveredBy(log, t, a) ==> UndoAt(log, t, a, v) == UndoAt(log, t, a, v')
    ensures !CoveredBy(log, t, a) ==> UndoAt(log, t, a, v) == v
  {
    if log != [] {
      var r, rest := log[0], log[1..];
      UndoDepends(rest, t, a, v, v');
      if CoveredBy(rest, t, a) {
        var i :| 0 <= i < |rest| && rest[i].txn == t && Covers(rest[i], a);
        assert log[i + 1] == rest[i];
      }
      if CoveredBy(log, t, a) && !(Covers(r, a) && r.txn == t) {
        var i :| 0 <= i < |log| && log[i].txn == t && Covers(log[i], a);
        assert rest[i - 1] == log[i];
      }
    }
  }

  /** Rolling back a longer log undoes the newest record first. */
  lemma {:induction false} UndoConcat(log: seq<Record>, more: seq<Record>, t: u64, a: Addr, v: byte)
    ensures UndoAt(log + more, t, a, v) == UndoAt(log, t, a, UndoAt(more, t, a, v))
  {
    if log == [] {
      assert log + more == more;
    } else {
      UndoConcat(log[1..], more, t, a, v);
      assert (log + more)[1..] == log[1..] + more;
    }
  }

  /** Starting the scan late is harmless when `t` updated nothing earlier. */
  lemma UndoSkips(log: seq<Record>, k: nat, t: u64, a: Addr, v: byte)
    requires k <= |log|
    requires forall i :: 0 <= i < k && log[i].txn == t ==> !log[i].Update?
    ensures UndoAt(log[k..], t, a, v) == UndoAt(log, t, a, v)
    ensures CoveredBy(log[k..], t, a) <==> CoveredBy(log, t, a)
  {
    assert log == log[..k] + log[k..];
    UndoConcat(log[..k], log[k..], t, a, v);
    UndoDepends(log[..k], t, a, UndoAt(log[k..], t, a, v), 0);
    if CoveredBy(log, t, a) {
      var i :| 0 <= i < |log| && log[i].txn == t && Covers(log[i], a);
      assert log[k..][i - k] == log[i];
    }
    if CoveredBy(log[k..], t, a) {
      var i :| 0 <= i < |log[k..]| && log[k..][i].txn == t && Covers(log[k..][i], a);
      assert log[k + i] == log[k..][i];
    }
  }

  /** Undoing losers: bytes none of them covers stay, bytes one of them covers forget what
      they were, and a byte with a single loser gets that loser's oldest before image. */
  lemma {:induction false} UndoAllDepends(log: seq<Record>, first: map<u64, nat>, losers: set<u64>, a: Addr, v: byte,
      v': byte)
    requires forall t :: t in losers ==> StartsAt(log, first, t)
    ensures !CoveredByAny(log, losers, a) ==> UndoAll(log, first, losers, a, v) == v
    ensures CoveredByAny(log, losers, a) ==> UndoAll(log, first, losers, a, v) == UndoAll(log, first, losers, a, v')
    decreases |losers|
  {
    if losers != {} {
      var t := Min(losers);
      var w, w' := RollbackAt(log, first, t, a, v), RollbackAt(log, first, t, a, v');
      UndoSkips(log, StartOf(log, first, t), t, a, v);
      UndoSkips(log, StartOf(log, first, t), t, a, v');
      UndoDepends(log, t, a, v, v');
      UndoAllDepends(log, first, losers - {t}, a, w, w');
      if CoveredByAny(log, losers, a) && !CoveredBy(log, t, a) {
        var u :| u in losers && CoveredBy(log, u, a);
        assert u in losers - {t};
        assert CoveredByAny(log, losers - {t}, a);
      }
    }
  }

  lemma {:induction false} UndoAllSingle(log: seq<Record>, first: map<u64, nat>, losers: set<u64>, t: u64, a: Addr,
      v: byte)
    requires forall u :: u in losers ==> StartsAt(log, first, u)
    requires t in losers && CoveredBy(log, t, a)
    requires forall u :: u in losers && CoveredBy(log, u, a) ==> u == t
    ensures UndoAll(log, first, losers, a, v) == UndoAt(log, t, a, 0)
    decreases |losers|
  {
    var m := Min(losers);
    var w := RollbackAt(log, first, m, a, v);
    UndoSkips(log, StartOf(log, first, m), m, a, v);
    if m == t {
      UndoDepends(log, t, a, v, 0);
      UndoAllDepends(log, first, losers - {t}, a, w, w);
    } else {
      UndoAllSingle(log, first, losers - {m}, t, a, w);
    }
  }

  /** No update of `t` precedes the record from which it is rolled back. */
  ghost predicate StartsAt(log: seq<Record>, first: map<u64, nat>, t: u64) {
    forall i :: 0 <= i < StartOf(log, first, t) && log[i].txn == t ==> !log[i].Update?
  }
}
