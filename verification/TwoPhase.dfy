/** The history of lock acquisitions and transaction ends, and what it means for it to be
    strict: whoever conflicts with an earlier access comes after that transaction's end. */
module TwoPhase {
  import opened FrameLocks

  datatype Event = Access(txn: nat, page: nat, mode: LockMode) | End(txn: nat)

  /** All granted locks, page by page. */
  type Table = map<nat, seq<Lock>>

  function At(table: Table, page: nat): seq<Lock> {
    if page in table then table[page] else []
  }

  ghost predicate AllSafe(table: Table) {
    forall p :: p in table ==> Safe(table[p])
  }

  /** Two accesses of different transactions to one page, not both reading. */
  predicate Conflicting(e: Event, f: Event) {
    e.Access? && f.Access? && e.txn != f.txn && e.page == f.page && (e.mode == Exclusive || f.mode == Exclusive)
  }

  ghost predicate EndsBetween(history: seq<Event>, t: nat, i: int, j: int) {
    exists k :: i < k < j && 0 <= k < |history| && history[k] == End(t)
  }

  /** Any two conflicting accesses are separated by the end of the first transaction. */
  ghost predicate Strict(history: seq<Event>) {
    forall i, j {:trigger Conflicting(history[i], history[j])} ::
      0 <= i < j < |history| && Conflicting(history[i], history[j]) ==>
      EndsBetween(history, history[i].txn, i, j)
  }

  /** Locks are held from the access to the end of the transaction. */
  ghost predicate Held(history: seq<Event>, table: Table) {
    forall i {:trigger EndsBetween(history, history[i].txn, i, |history|)} ::
      0 <= i < |history| && history[i].Access? && !EndsBetween(history, history[i].txn, i, |history|) ==>
      Covers(At(table, history[i].page), history[i].txn, history[i].mode)
  }

  ghost predicate Disciplined(history: seq<Event>, table: Table) {
    AllSafe(table) && Strict(history) && Held(history, table)
  }

  /** Entries of other transactions are untouched, `t`'s own are at least as strong. */
  ghost predicate Grew(before: Table, after: Table, t: nat) {
    forall q :: OthersKept(At(before, q), At(after, q), t)
      && forall m :: Covers(At(before, q), t, m) ==> Covers(At(after, q), t, m)
  }

  lemma SafeExcludes(granted: seq<Lock>, t: nat, u: nat, m: LockMode, n: LockMode)
    requires Safe(granted) && t != u && Covers(granted, t, m) && Covers(granted, u, n)
    ensures m == Shared && n == Shared
  {
    var a := if HasMode(granted, t, Exclusive) then Exclusive else Shared;
    var b := if HasMode(granted, u, Exclusive) then Exclusive else Shared;
    assert HasMode(granted, t, a) && HasMode(granted, u, b);
    var i :| 0 <= i < |granted| && granted[i] == Lock(t, a);
    var j :| 0 <= j < |granted| && granted[j] == Lock(u, b);
  }

  lemma EndsPrefix(history: seq<Event>, e: Event, t: nat, i: int, j: int)
    requires j <= |history|
    ensures EndsBetween(history + [e], t, i, j) <==> EndsBetween(history, t, i, j)
    ensures EndsBetween(history + [e], t, i, |history| + 1) <==>
      EndsBetween(history, t, i, |history|) || (e == End(t) && i < |history|)
  {
    var h := history + [e];
    assert h[|history|] == e;
    if k :| i < k < |history| && 0 <= k && history[k] == End(t) { assert h[k] == End(t); }
    if k :| i < k < j && 0 <= k && history[k] == End(t) { assert h[k] == End(t); }
  }

  /** A granted access keeps the discipline. */
  lemma AccessKeeps(history: seq<Event>, before: Table, after: Table, t: nat, page: nat, mode: LockMode)
    requires Disciplined(history, before) && AllSafe(after) && Grew(before, after, t)
    requires Covers(At(after, page), t, mode)
    ensures Disciplined(history + [Access(t, page, mode)], after)
  {
    var e := Access(t, page, mode);
    var h := history + [e];
    forall i | 0 <= i < |h| && h[i].Access? && !EndsBetween(h, h[i].txn, i, |h|)
      ensures Covers(At(after, h[i].page), h[i].txn, h[i].mode)
    {
      EndsPrefix(history, e, h[i].txn, i, |history|);
      if i < |history| {
        StillCovers(history, before, after, t, i);
      }
    }
    forall i, j | 0 <= i < j < |h| && Conflicting(h[i], h[j]) ensures EndsBetween(h, h[i].txn, i, j) {
      EndsPrefix(history, e, h[i].txn, i, if j < |history| then j else |history|);
      if j == |history| && !EndsBetween(history, h[i].txn, i, j) {
        StillCovers(history, before, after, t, i);
        SafeExcludes(At(after, page), h[i].txn, t, h[i].mode, mode);
      }
    }
  }

  lemma StillCovers(history: seq<Event>, before: Table, after: Table, t: nat, i: nat)
    requires Held(history, before) && Grew(before, after, t)
    requires i < |history| && history[i].Access? && !EndsBetween(history, history[i].txn, i, |history|)
    ensures Covers(At(after, history[i].page), history[i].txn, history[i].mode)
  {
    var q := history[i].page;
    assert OthersKept(At(before, q), At(after, q), t);
  }

  /** Ending a transaction: from here on its locks may go. */
  lemma EndKeeps(history: seq<Event>, table: Table, t: nat)
    requires Disciplined(history, table)
    ensures Disciplined(history + [End(t)], table)
  {
    var h := history + [End(t)];
    forall i | 0 <= i < |h| && h[i].Access? && !EndsBetween(h, h[i].txn, i, |h|)
      ensures Covers(At(table, h[i].page), h[i].txn, h[i].mode)
    {
      EndsPrefix(history, End(t), h[i].txn, i, |history|);
    }
    forall i, j | 0 <= i < j < |h| && Conflicting(h[i], h[j]) ensures EndsBetween(h, h[i].txn, i, j) {
      EndsPrefix(history, End(t), h[i].txn, i, j);
    }
  }

  /** No access of `t` is still protected. */
  ghost predicate Ended(history: seq<Event>, t: nat) {
    forall i :: 0 <= i < |history| && history[i].Access? && history[i].txn == t ==>
      EndsBetween(history, t, i, |history|)
  }

  /** Releasing the locks of an ended transaction keeps the discipline. */
  lemma ReleaseKeeps(history: seq<Event>, before: Table, after: Table, t: nat)
    requires Disciplined(history, before) && AllSafe(after) && Ended(history, t)
    requires forall q :: OthersKept(At(before, q), At(after, q), t)
    ensures Disciplined(history, after)
  {
    forall i | 0 <= i < |history| && history[i].Access? && !EndsBetween(history, history[i].txn, i, |history|)
      ensures Covers(At(after, history[i].page), history[i].txn, history[i].mode)
    {
      assert OthersKept(At(before, history[i].page), At(after, history[i].page), t);
    }
  }

  /** Conflict serializability: if `t` and `u` each end once, after all their accesses, then
      every conflict between them points from the one that ends first to the other. */
  lemma ConflictsFollowEnds(history: seq<Event>, i: nat, j: nat, endOfFirst: nat, endOfSecond: nat)
    requires Strict(history) && i < j < |history| && Conflicting(history[i], history[j])
    requires endOfFirst < |history| && endOfSecond < |history|
    requires history[endOfFirst] == End(history[i].txn) && history[endOfSecond] == End(history[j].txn)
    requires forall k :: 0 <= k < |history| && history[k] == End(history[i].txn) ==> k == endOfFirst
    requires forall k :: 0 <= k < |history| && history[k].txn == history[j].txn ==> k <= endOfSecond
    ensures i < endOfFirst < j < endOfSecond
  {
    var k :| i < k < j && 0 <= k < |history| && history[k] == End(history[i].txn);
  }

  /** Somewhere `t` accesses a page, and later `u` accesses it in conflict with that. */
  ghost predicate Precedes(history: seq<Event>, t: nat, u: nat) {
    exists i, j :: 0 <= i < j < |history| && Conflicting(history[i], history[j]) && history[i].txn == t &&
      history[j].txn == u
  }

  /** `t` ends at `e`, once, and does nothing afterwards. */
  ghost predicate EndsAt(history: seq<Event>, t: nat, e: nat) {
    && e < |history| && history[e] == End(t)
    && forall k :: 0 <= k < |history| && history[k].txn == t ==> k <= e && (history[k] == End(t) ==> k == e)
  }

  /** The order in which transactions complete is a serial order: along any chain of
      conflicts the ends go up, so no chain returns to where it started. */
  lemma {:induction false} EndsAreSerialOrder(history: seq<Event>, txns: seq<nat>, ends: seq<nat>)
    requires Strict(history) && |txns| == |ends| >= 2
    requires forall k :: 0 <= k < |txns| ==> EndsAt(history, txns[k], ends[k])
    requires forall k :: 0 <= k < |txns| - 1 ==> Precedes(history, txns[k], txns[k + 1])
    ensures ends[0] < ends[|ends| - 1] && txns[0] != txns[|txns| - 1]
  {
    assert Precedes(history, txns[0], txns[0 + 1]);
    var i, j :| 0 <= i < j < |history| && Conflicting(history[i], history[j]) && history[i].txn == txns[0] &&
      history[j].txn == txns[1];
    ConflictsFollowEnds(history, i, j, ends[0], ends[1]);
    if |txns| > 2 {
      forall k | 0 <= k < |txns[1..]| - 1 ensures Precedes(history, txns[1..][k], txns[1..][k + 1]) {
        assert Precedes(history, txns[k + 1], txns[k + 1 + 1]);
      }
      EndsAreSerialOrder(history, txns[1..], ends[1..]);
    }
  }
}
