/** Locks on all pages: which transaction has an entry on which page, who waits for whom, and
    how a request is granted, refused because of a deadlock, or put to wait. */
module LockManagement {
  import opened FrameLocks
  import opened WaitGraph
  import opened TwoPhase

  datatype Outcome = Acquired | Deadlocked | Waiting(upgrade: bool)

  type LockSets = map<nat, set<nat>>

  function LocksOf(locks: LockSets, t: nat): set<nat> {
    if t in locks then locks[t] else {}
  }

  function WithLock(locks: LockSets, t: nat, p: nat): LockSets {
    locks[t := LocksOf(locks, t) + {p}]
  }

  /** `p` is listed for `t` if and only if the page's lock manager has an entry for `t`. */
  ghost predicate Agree(table: Table, locks: LockSets) {
    forall t, p :: p in LocksOf(locks, t) <==> HasEntry(At(table, p), t)
  }

  /** `t` waiting for `h` instead of whatever it waited for would close a cycle. */
  ghost predicate ClosesCycle(g: Graph, t: nat, h: nat) {
    OnCycle(g[t := {h}], t)
  }

  /** `t` waits for the last of the holders. */
  ghost predicate WaitsForLast(g: Graph, g': Graph, t: nat, holders: set<nat>) {
    if holders == {} then g' == g
      else exists h :: h in holders && (forall u :: u in holders ==> u <= h) && g' == g[t := {h}]
  }

  /** If anything was released, exactly the waits of `t` and those for `t` are gone. */
  ghost predicate WaitsDropped(g: Graph, g': Graph, t: nat, any: bool) {
    forall u, v :: Edge(g', u, v) <==> Edge(g, u, v) && (any ==> u != t && v != t)
  }

  lemma DropTwice(g: Graph, g': Graph, g'': Graph, t: nat, any: bool)
    requires WaitsDropped(g, g', t, any) && WaitsDropped(g', g'', t, true)
    ensures WaitsDropped(g, g'', t, true)
  {
    forall u, v ensures Edge(g'', u, v) <==> Edge(g, u, v) && u != t && v != t {
      assert Edge(g', u, v) <==> Edge(g, u, v) && (any ==> u != t && v != t);
    }
  }

  ghost predicate HoldsAny(table: Table, t: nat) {
    exists p :: HasEntry(At(table, p), t)
  }

  lemma HoldsListed(table: Table, locks: LockSets, t: nat)
    requires Agree(table, locks)
    ensures HoldsAny(table, t) <==> LocksOf(locks, t) != {}
  {
    if p :| p in LocksOf(locks, t) {
      assert HasEntry(At(table, p), t);
    }
    if HoldsAny(table, t) {
      var p :| HasEntry(At(table, p), t);
      assert p in LocksOf(locks, t);
    }
  }

  lemma ClosesIsOnCycle(g: Graph, t: nat, h: nat)
    ensures ClosesCycle(g, t, h) <==> OnCycle(g[t := {h}], t)
  {
  }

  lemma NobodyYet(g: Graph, t: nat)
    ensures WaitsForLast(g, g, t, {})
  {
  }

  lemma WaitsNext(g: Graph, now: Graph, t: nat, done: set<nat>, h: nat)
    requires WaitsForLast(g, now, t, done) && forall u :: u in done ==> u < h
    ensures now[t := {h}] == g[t := {h}] && WaitsForLast(g, now[t := {h}], t, done + {h})
  {
    assert now[t := {h}] == g[t := {h}];
    assert h in done + {h};
  }

  lemma LeavesOriginal(g: Graph, now: Graph, g': Graph, t: nat, holders: set<nat>)
    requires WaitsForLast(g, now, t, holders) && Leaves(now, g', t)
    ensures Leaves(g, g', t)
  {
    forall u, v | Edge(g', u, v) ensures Edge(g, u, v) {
      assert Edge(now, u, v) && u != t;
    }
    forall u, v | Edge(g, u, v) && u != t && v != t && !LeadsTo(g, u, t) ensures Edge(g', u, v) {
      assert Edge(now, u, v);
      if holders != {} && LeadsTo(now, u, t) {
        var h :| h in holders && now == g[t := {h}];
        LeadsToStays(g, t, {h}, u);
      }
    }
  }

  lemma {:induction false} SmallestExists(s: set<nat>) returns (least: nat)
    requires s != {}
    ensures least in s && forall u :: u in s ==> least <= u
    decreases |s|
  {
    least :| least in s;
    if s != {least} {
      var y := SmallestExists(s - {least});
      assert forall u :: u in s ==> u == least || u in s - {least};
      least := if least < y then least else y;
    }
  }

  /** Waiting for some other holder of the page would close a cycle. */
  ghost predicate WouldDeadlock(g: Graph, granted: seq<Lock>, t: nat) {
    exists h :: h != t && HasEntry(granted, h) && ClosesCycle(g, t, h)
  }

  /** `t` waits for the other holder of the page that has the greatest id. */
  ghost predicate NowWaits(g: Graph, g': Graph, granted: seq<Lock>, t: nat) {
    exists h :: h != t && HasEntry(granted, h) && (forall u :: u != t && HasEntry(granted, u) ==> u <= h) &&
      g' == g[t := {h}]
  }

  class LockManager {
    var pageLocks: map<nat, FrameLockManager>
    var txnLocks: LockSets
    var waitingGraph: Graph
    ghost var history: seq<Event>

    ghost var table: Table

    /** Every page has its own lock manager, and the table shows what they granted. */
    ghost predicate Synced()
      reads this`table, this`pageLocks, pageLocks.Values
    {
      && table.Keys == pageLocks.Keys
      && (forall p :: p in pageLocks ==> pageLocks[p].granted == table[p])
      && (forall p, q :: p in pageLocks && q in pageLocks && p != q ==> pageLocks[p] != pageLocks[q])
    }

    /** Safe locks, both indexes in agreement, no deadlock in the graph. */
    ghost predicate Consistent()
      reads this, pageLocks.Values
    {
      Synced() && AllSafe(table) && Agree(table, txnLocks) && Acyclic(waitingGraph)
    }

    ghost predicate Valid()
      reads this, pageLocks.Values
    {
      Consistent() && Disciplined(history, table)
    }

    constructor ()
      ensures Valid() && history == [] && table == map[] && fresh(pageLocks.Values)
    {
      pageLocks, txnLocks, waitingGraph, history, table := map[], map[], map[], [], map[];
      new;
      forall t ensures !OnCycle(waitingGraph, t) {
        forall p ensures !(|p| > 1 && Leads(waitingGraph, p, t, t)) {
          assert |p| > 1 ==> !Edge(waitingGraph, p[0], p[1]);
        }
      }
    }

    method GetFrameLockManager(p: nat) returns (f: FrameLockManager)
      requires Consistent()
      modifies this`pageLocks, this`table
      ensures Consistent() && p in pageLocks && f == pageLocks[p]
      ensures old(Valid()) ==> Valid()
      ensures fresh(pageLocks.Values - old(pageLocks.Values))
      ensures p in old(pageLocks) ==> pageLocks == old(pageLocks)
      ensures table == if p in old(table) then old(table) else old(table)[p := []]
      ensures SameTable(old(table), table)
    {
      if p !in pageLocks {
        f := new FrameLockManager();
        pageLocks := pageLocks[p := f];
        table := table[p := []];
        SameTableKeeps(old(table), table, txnLocks);
        if Disciplined(history, old(table)) {
          SameTableDisciplined(old(table), table, history);
        }
      } else {
        f := pageLocks[p];
      }
    }

    /** Who else holds the page, and whether one of them conflicts, according to the
        transactions' own lock sets. */
    method FindConflict(f: FrameLockManager, t: nat, p: nat, mode: LockMode) returns (conflict: bool, holders: set<nat>)
      requires Agree(table, txnLocks) && f.granted == At(table, p)
      ensures conflict <==> Conflict(f.granted, t, mode)
      ensures forall u :: u in holders <==> u != t && HasEntry(f.granted, u)
      ensures conflict ==> holders != {}
    {
      conflict, holders := false, {};
      var todo := txnLocks.Keys;
      while todo != {}
        invariant todo <= txnLocks.Keys
        invariant holders == set u | u in txnLocks && u !in todo && u != t && p in txnLocks[u]
        invariant conflict <==> exists u :: u in holders && (mode == Exclusive || HasMode(f.granted, u, Exclusive))
        decreases todo
      {
        var u :| u in todo;
        todo := todo - {u};
        if u != t && p in txnLocks[u] {
          holders := holders + {u};
          var exclusive := f.HasLockInMode(u, Exclusive);
          if mode == Exclusive || exclusive {
            conflict := true;
          }
        }
      }
      forall u ensures u in holders <==> u != t && HasEntry(f.granted, u) {
        assert p in LocksOf(txnLocks, u) <==> HasEntry(At(table, p), u);
      }
      ConflictIsHolder(f.granted, t, mode, holders);
    }

    /** Checks one wait after the other, in the order of the holders' ids; the first deadlock
        aborts, and the requester leaves the graph. Otherwise only the edge to the last holder
        remains. */
    method CheckHolders(t: nat, holders: set<nat>) returns (deadlock: bool)
      requires Acyclic(waitingGraph)
      modifies this`waitingGraph
      ensures Acyclic(waitingGraph)
      ensures deadlock <==> exists h :: h in holders && ClosesCycle(old(waitingGraph), t, h)
      ensures deadlock ==> Leaves(old(waitingGraph), waitingGraph, t)
      ensures !deadlock ==> WaitsForLast(old(waitingGraph), waitingGraph, t, holders)
    {
      hide ClosesCycle, Acyclic, Edge, WaitsForLast, Subgraph, OnCycle;
      NobodyYet(waitingGraph, t);
      ghost var g, done := waitingGraph, {};
      var todo := holders;
      while todo != {}
        invariant Acyclic(waitingGraph) && todo + done == holders
        invariant forall h, u :: h in done && u in todo ==> h < u
        invariant forall h :: h in done ==> !ClosesCycle(g, t, h)
        invariant WaitsForLast(g, waitingGraph, t, done)
        decreases todo
      {
        ghost var least := SmallestExists(todo);
        var h :| h in todo && forall u :: u in todo ==> h <= u;
        todo, done := todo - {h}, done + {h};
        ghost var now := waitingGraph;
        WaitsNext(g, now, t, done - {h}, h);
        assert done - {h} + {h} == done;
        deadlock, waitingGraph := CheckDeadlock(waitingGraph, t, h);
        ClosesIsOnCycle(g, t, h);
        if deadlock {
          LeavesOriginal(g, now, waitingGraph, t, done - {h});
          return;
        }
      }
      assert done == holders;
      deadlock := false;
    }

    method NoteAccess(t: nat, p: nat, mode: LockMode, ghost before: Table)
      requires Synced() && Acyclic(waitingGraph) && AllSafe(table)
      requires Disciplined(history, before) && Agree(before, txnLocks) && GrantedTo(before, table, t, p, mode)
      modifies this`txnLocks, this`history
      ensures Valid() && history == old(history) + [Access(t, p, mode)]
      ensures txnLocks == WithLock(old(txnLocks), t, p)
    {
      AgreeGrows(before, table, txnLocks, t, p, mode);
      AccessKeeps(history, before, table, t, p, mode);
      history := history + [Access(t, p, mode)];
      txnLocks := WithLock(txnLocks, t, p);
    }

    /** The page is already locked well enough. */
    method AlreadyLocked(f: FrameLockManager, t: nat, mode: LockMode) returns (done: bool)
      ensures done <==> Covers(f.granted, t, mode)
    {
      done := f.HasLock(t);
      EntryIsMode(f.granted, t);
      if done && mode == Exclusive {
        done := f.HasLockInMode(t, Exclusive);
      }
    }

    /** `grant_lock` on the page's lock manager, in terms of the table. */
    method GrantOn(f: FrameLockManager, t: nat, p: nat, mode: LockMode) returns (g: Grant)
      requires Synced() && AllSafe(table) && p in pageLocks && f == pageLocks[p]
      modifies f, this`table
      ensures Synced() && AllSafe(table)
      ensures g == Granted <==> !Conflict(At(old(table), p), t, mode)
      ensures g == Granted ==> GrantedTo(old(table), table, t, p, mode)
      ensures g != Granted ==> table == old(table) && (g == WaitUpgrade <==> HasEntry(At(table, p), t))
      ensures g == WaitUpgrade ==> mode == Exclusive
    {
      g := f.GrantLock(t, mode);
      GrantedOnPage(table, p, f.granted, t, mode);
      table := table[p := f.granted];
    }

    /** `acquire_lock` up to the point where it would block. The request is granted at once
        if and only if no other entry conflicts with it. */
    method AcquireLock(t: nat, p: nat, mode: LockMode) returns (r: Outcome)
      requires Valid()
      modifies this, pageLocks.Values
      ensures Valid() && fresh(pageLocks.Values - old(pageLocks.Values))
      ensures r == Acquired <==> !Conflict(At(old(table), p), t, mode)
      ensures r == Acquired ==> GrantedTo(old(table), table, t, p, mode)
      ensures r == Acquired ==> history == old(history) + [Access(t, p, mode)] && waitingGraph == old(waitingGraph)
      ensures r != Acquired ==> history == old(history) && SameTable(old(table), table) && txnLocks == old(txnLocks)
      ensures r == Deadlocked <==>
        Conflict(At(old(table), p), t, mode) && WouldDeadlock(old(waitingGraph), At(old(table), p), t)
      ensures r == Deadlocked ==> Leaves(old(waitingGraph), waitingGraph, t)
      ensures r.Waiting? ==> NowWaits(old(waitingGraph), waitingGraph, At(old(table), p), t)
      ensures r.Waiting? ==>
        r.upgrade == HasEntry(At(table, p), t) && p in pageLocks && (r.upgrade ==> mode == Exclusive)
    {
      var f := GetFrameLockManager(p);
      r := Request(f, t, p, mode);
    }

    method Request(f: FrameLockManager, t: nat, p: nat, mode: LockMode) returns (r: Outcome)
      requires Valid() && p in pageLocks && f == pageLocks[p]
      modifies this`txnLocks, this`waitingGraph, this`history, this`table, f
      ensures Valid()
      ensures r == Acquired <==> !Conflict(At(old(table), p), t, mode)
      ensures r == Acquired ==> GrantedTo(old(table), table, t, p, mode)
      ensures r == Acquired ==> history == old(history) + [Access(t, p, mode)] && waitingGraph == old(waitingGraph)
      ensures r != Acquired ==> history == old(history) && table == old(table) && txnLocks == old(txnLocks)
      ensures r == Deadlocked <==>
        Conflict(At(old(table), p), t, mode) && WouldDeadlock(old(waitingGraph), At(old(table), p), t)
      ensures r == Deadlocked ==> Leaves(old(waitingGraph), waitingGraph, t)
      ensures r.Waiting? ==> NowWaits(old(waitingGraph), waitingGraph, At(old(table), p), t)
      ensures r.Waiting? ==>
        r.upgrade == HasEntry(At(table, p), t) && p in pageLocks && (r.upgrade ==> mode == Exclusive)
    {
      ghost var before := table;
      var done := AlreadyLocked(f, t, mode);
      if done {
        CoversObtained(f.granted, t, mode);
        ObtainedCovers(f.granted, f.granted, t, mode);
        NoteAccess(t, p, mode, before);
        return Acquired;
      }
      var can := f.CanUpgradeLock(t);
      if can {
        EntryIsMode(f.granted, t);
        SoleHolder(f.granted, t, mode);
      } else {
        var conflict, holders := FindConflict(f, t, p, mode);
        if conflict {
          var deadlock := CheckHolders(t, holders);
          if deadlock {
            return Deadlocked;
          }
        }
      }
      var g := GrantOn(f, t, p, mode);
      if g == Granted {
        NoteAccess(t, p, mode, before);
        return Acquired;
      }
      r := Waiting(g == WaitUpgrade);
    }

    /** The end of a wait: the wait predicate holds and the lock is granted, or the timeout
        has passed and the requester is to abort. */
    method ResumeAcquire(t: nat, p: nat, mode: LockMode, upgrade: bool) returns (ok: bool)
      requires Valid() && p in pageLocks
      requires upgrade ==> mode == Exclusive && HasEntry(At(table, p), t)
      requires !upgrade ==> !HasEntry(At(table, p), t)
      modifies this, pageLocks.Values
      ensures Valid() && pageLocks == old(pageLocks)
      ensures ok <==> !Conflict(At(old(table), p), t, mode)
      ensures ok ==> GrantedTo(old(table), table, t, p, mode)
      ensures ok ==> history == old(history) + [Access(t, p, mode)]
      ensures !ok ==> history == old(history) && table == old(table) && txnLocks == old(txnLocks)
      ensures waitingGraph == if ok then old(waitingGraph) - {t} else old(waitingGraph)
    {
      hide Disciplined, Agree, Safe, Acyclic, Conflict, GrantedTo;
      ghost var before := table;
      ok := ResumeOn(pageLocks[p], t, p, mode, upgrade);
      if ok {
        waitingGraph := DropWaiter(waitingGraph, t);
        NoteAccess(t, p, mode, before);
      }
    }

    method ResumeOn(f: FrameLockManager, t: nat, p: nat, mode: LockMode, upgrade: bool) returns (ok: bool)
      requires Synced() && AllSafe(table) && p in pageLocks && f == pageLocks[p]
      requires upgrade ==> mode == Exclusive && HasEntry(At(table, p), t)
      requires !upgrade ==> !HasEntry(At(table, p), t)
      modifies f, this`table
      ensures Synced() && AllSafe(table)
      ensures ok <==> !Conflict(At(old(table), p), t, mode)
      ensures ok ==> GrantedTo(old(table), table, t, p, mode)
      ensures !ok ==> table == old(table)
    {
      EntryIsMode(f.granted, t);
      if upgrade {
        ok := f.ResumeUpgrade(t);
      } else {
        ok := f.ResumeQueued(t, mode);
      }
      GrantedOnPage(table, p, f.granted, t, mode);
      table := table[p := f.granted];
    }

    /** Releases one page, whether the transaction has an entry there or not. Histories stay
        strict if the transaction's end was recorded before. */
    method ReleaseLock(t: nat, p: nat)
      requires Consistent()
      modifies this, pageLocks.Values
      ensures Consistent() && history == old(history) && fresh(pageLocks.Values - old(pageLocks.Values))
      ensures p in old(pageLocks) ==> pageLocks == old(pageLocks)
      ensures old(Valid()) && Ended(history, t) ==> Valid()
      ensures table == old(table)[p := Without(At(old(table), p), t)]
      ensures LocksOf(txnLocks, t) == LocksOf(old(txnLocks), t) - {p}
      ensures WaitsDropped(old(waitingGraph), waitingGraph, t, true)
    {
      var f := GetFrameLockManager(p);
      ReleaseOn(f, t, p);
    }

    method ReleaseEntry(f: FrameLockManager, t: nat, p: nat)
      requires Synced() && p in pageLocks && f == pageLocks[p]
      modifies this`table, f
      ensures Synced() && table == old(table)[p := Without(At(old(table), p), t)]
    {
      f.ReleaseLock(t);
      table := table[p := f.granted];
    }

    method ReleaseOn(f: FrameLockManager, t: nat, p: nat)
      requires Consistent() && p in pageLocks && f == pageLocks[p]
      modifies this`table, this`txnLocks, this`waitingGraph, f
      ensures Consistent()
      ensures old(Valid()) && Ended(history, t) ==> Valid()
      ensures table == old(table)[p := Without(At(old(table), p), t)]
      ensures LocksOf(txnLocks, t) == LocksOf(old(txnLocks), t) - {p}
      ensures WaitsDropped(old(waitingGraph), waitingGraph, t, true)
    {
      hide Disciplined, AllSafe, Agree, Ended, Acyclic, Edge, Without, HasEntry, Synced, WaitsDropped;
      ghost var before, locks := table, txnLocks;
      ReleaseEntry(f, t, p);
      ReleaseTable(before, txnLocks, t, p);
      if Disciplined(history, before) && Ended(history, t) {
        ReleaseDisciplined(history, before, t, p);
      }
      if t in txnLocks {
        var rest := txnLocks[t] - {p};
        txnLocks := if rest == {} then txnLocks - {t} else txnLocks[t := rest];
      }
      waitingGraph := DropWaits(waitingGraph, t);
    }

    /** Ends a transaction: afterwards no page anywhere has an entry for it. If it had one, its
        waits and the waits for it are gone, and no others; if not, all waits stay. */
    method ReleaseAllLocks(t: nat)
      requires Valid()
      modifies this, pageLocks.Values
      ensures Valid() && pageLocks == old(pageLocks)
      ensures history == old(history) + [End(t)]
      ensures LocksOf(txnLocks, t) == {}
      ensures forall q :: At(table, q) == Without(At(old(table), q), t)
      ensures forall q :: !HasEntry(At(table, q), t)
      ensures WaitsDropped(old(waitingGraph), waitingGraph, t, HoldsAny(old(table), t))
    {
      HoldsListed(table, txnLocks, t);
      EndKeeps(history, table, t);
      ghost var entry, locks := table, txnLocks;
      history := history + [End(t)];
      assert history[|history| - 1] == End(t);
      ReleasePages(t);
      AllReleased(entry, table, locks, t);
    }

    method ReleasePages(t: nat)
      requires Valid() && Ended(history, t)
      modifies this, pageLocks.Values
      ensures Valid() && pageLocks == old(pageLocks)
      ensures history == old(history) && LocksOf(txnLocks, t) == {}
      ensures ReleasedOn(old(table), table, t, LocksOf(old(txnLocks), t))
      ensures WaitsDropped(old(waitingGraph), waitingGraph, t, LocksOf(old(txnLocks), t) != {})
    {
      ReleasedNone(table, waitingGraph, t);
      hide Valid, Consistent, Ended, WaitsDropped, ReleasedOn, Without;
      var pages := if t in txnLocks then txnLocks[t] else {};
      ghost var done := {};
      while pages != {}
        invariant Valid() && history == old(history) && pageLocks == old(pageLocks)
        invariant LocksOf(txnLocks, t) == pages && done !! pages && done + pages == LocksOf(old(txnLocks), t)
        invariant ReleasedOn(old(table), table, t, done)
        invariant WaitsDropped(old(waitingGraph), waitingGraph, t, done != {})
        decreases pages
      {
        var p :| p in pages;
        ghost var now, was := waitingGraph, table;
        ListedHasManager(t, p);
        ReleaseLock(t, p);
        ReleasedNext(old(table), was, table, t, done, p);
        DropTwice(old(waitingGraph), now, waitingGraph, t, done != {});
        pages, done := pages - {p}, done + {p};
      }
      assert done == LocksOf(old(txnLocks), t);
    }

    lemma ListedHasManager(t: nat, p: nat)
      requires Valid() && p in LocksOf(txnLocks, t)
      ensures p in pageLocks && Consistent()
    {
      assert HasEntry(At(table, p), t);
    }
  }

  /** Exactly on these pages the entries of `t` are gone. */
  ghost predicate ReleasedOn(before: Table, after: Table, t: nat, pages: set<nat>) {
    forall q :: At(after, q) == if q in pages then Without(At(before, q), t) else At(before, q)
  }

  lemma ReleasedNone(table: Table, g: Graph, t: nat)
    ensures ReleasedOn(table, table, t, {}) && WaitsDropped(g, g, t, false)
  {
  }

  lemma ReleasedNext(before: Table, now: Table, after: Table, t: nat, done: set<nat>, p: nat)
    requires ReleasedOn(before, now, t, done) && p !in done && after == now[p := Without(At(now, p), t)]
    ensures ReleasedOn(before, after, t, done + {p})
  {
  }

  lemma AllReleased(before: Table, after: Table, locks: LockSets, t: nat)
    requires Agree(before, locks)
    requires ReleasedOn(before, after, t, LocksOf(locks, t))
    ensures forall q :: At(after, q) == Without(At(before, q), t) && !HasEntry(At(after, q), t)
  {
    forall q ensures At(after, q) == Without(At(before, q), t) && !HasEntry(At(after, q), t) {
      assert q in LocksOf(locks, t) <==> HasEntry(At(before, q), t);
      WithoutKeepsOthers(At(before, q), t);
      if q !in LocksOf(locks, t) {
        WithoutNothing(At(before, q), t);
      }
    }
  }

  /** `t` no longer waits. */
  method DropWaiter(g: Graph, t: nat) returns (g': Graph)
    requires Acyclic(g)
    ensures Acyclic(g') && g' == g - {t}
  {
    g' := g - {t};
    SubgraphAcyclic(g', g);
  }

  /** Nobody waits for `t` any longer, nor `t` for anybody. */
  method DropWaits(g: Graph, t: nat) returns (g': Graph)
    requires Acyclic(g)
    ensures Acyclic(g') && WaitsDropped(g, g', t, true)
  {
    hide Acyclic;
    g' := DropWaiter(g, t);
    g' := DropTarget(g', t);
  }

  /** Nobody waits for `t` any longer. */
  method DropTarget(g: Graph, t: nat) returns (g': Graph)
    requires Acyclic(g)
    ensures Acyclic(g') && g'.Keys == g.Keys && forall u :: u in g ==> g'[u] == g[u] - {t}
  {
    var emptied;
    g', emptied := EraseTarget(g, t);
    SubgraphAcyclic(g', g);
  }

  lemma {:induction false} WithoutNothing(granted: seq<Lock>, t: nat)
    requires !HasEntry(granted, t)
    ensures Without(granted, t) == granted
  {
    if granted != [] {
      assert granted[0].txn != t;
      var rest := granted[1..];
      forall i | 0 <= i < |rest| ensures rest[i].txn != t {
        assert rest[i] == granted[i + 1];
      }
      WithoutNothing(rest, t);
    }
  }

  /** Releasing one page keeps locks safe and both indexes in step. */
  lemma ReleaseTable(before: Table, locks: LockSets, t: nat, p: nat)
    requires AllSafe(before) && Agree(before, locks)
    ensures var after, rest := before[p := Without(At(before, p), t)], LocksOf(locks, t) - {p};
      && AllSafe(after)
      && Agree(after, if t !in locks then locks else if rest == {} then locks - {t} else locks[t := rest])
  {
    var after := before[p := Without(At(before, p), t)];
    WithoutKeepsOthers(At(before, p), t);
    if p in before {
      WithoutSafe(At(before, p), t);
    }
    var rest := LocksOf(locks, t) - {p};
    var locks' := if t !in locks then locks else if rest == {} then locks - {t} else locks[t := rest];
    forall u, q ensures q in LocksOf(locks', u) <==> HasEntry(At(after, q), u) {
      assert q in LocksOf(locks, u) <==> HasEntry(At(before, q), u);
    }
  }

  lemma ReleaseDisciplined(history: seq<Event>, before: Table, t: nat, p: nat)
    requires Disciplined(history, before) && Ended(history, t)
    ensures Disciplined(history, before[p := Without(At(before, p), t)])
  {
    var after := before[p := Without(At(before, p), t)];
    WithoutKeepsOthers(At(before, p), t);
    if p in before {
      WithoutSafe(At(before, p), t);
    }
    forall q ensures OthersKept(At(before, q), At(after, q), t) {}
    ReleaseKeeps(history, before, after, t);
  }

  lemma SoleHolder(granted: seq<Lock>, t: nat, mode: LockMode)
    requires |granted| == 1 && HasEntry(granted, t)
    ensures !Conflict(granted, t, mode)
  {
  }

  lemma GrantedOnPage(before: Table, p: nat, granted: seq<Lock>, t: nat, mode: LockMode)
    requires p in before
    ensures OthersKept(before[p], granted, t) && Obtained(before[p], granted, t, mode) ==>
      GrantedTo(before, before[p := granted], t, p, mode)
  {
    if OthersKept(before[p], granted, t) && Obtained(before[p], granted, t, mode) {
      ObtainedCovers(before[p], granted, t, mode);
    }
  }

  lemma ConflictIsHolder(granted: seq<Lock>, t: nat, mode: LockMode, holders: set<nat>)
    requires forall u :: u in holders <==> u != t && HasEntry(granted, u)
    ensures Conflict(granted, t, mode) <==>
      exists u :: u in holders && (mode == Exclusive || HasMode(granted, u, Exclusive))
  {
    if Conflict(granted, t, mode) {
      var i :| 0 <= i < |granted| && granted[i].txn != t && (mode == Exclusive || granted[i].mode == Exclusive);
      assert HasEntry(granted, granted[i].txn) && granted[i] == Lock(granted[i].txn, granted[i].mode);
    }
    if u :| u in holders && (mode == Exclusive || HasMode(granted, u, Exclusive)) {
      var i :| 0 <= i < |granted| && granted[i].txn == u && (mode == Exclusive || granted[i] == Lock(u, Exclusive));
    }
  }

  lemma SameTableKeeps(before: Table, after: Table, locks: LockSets)
    requires SameTable(before, after) && AllSafe(before) && Agree(before, locks)
    ensures AllSafe(after) && Agree(after, locks)
  {
    forall p | p in after ensures Safe(after[p]) {
      assert At(after, p) == At(before, p);
    }
  }

  lemma SameTableDisciplined(before: Table, after: Table, history: seq<Event>)
    requires SameTable(before, after) && Disciplined(history, before) && AllSafe(after)
    ensures Disciplined(history, after)
  {
  }

  lemma AgreeGrows(before: Table, after: Table, locks: LockSets, t: nat, p: nat, mode: LockMode)
    requires Agree(before, locks) && GrantedTo(before, after, t, p, mode)
    ensures Agree(after, WithLock(locks, t, p))
  {
    EntryIsMode(At(after, p), t);
    var locks' := WithLock(locks, t, p);
    forall u, q ensures q in LocksOf(locks', u) <==> HasEntry(At(after, q), u) {
      assert q in LocksOf(locks, u) <==> HasEntry(At(before, q), u);
      if q == p && u != t {
        assert OthersKept(At(before, q), At(after, q), t);
        EntryIsMode(At(before, q), u);
        EntryIsMode(At(after, q), u);
        assert HasMode(At(after, q), u, Shared) <==> HasMode(At(before, q), u, Shared);
      }
    }
  }

  ghost predicate SameTable(before: Table, after: Table) {
    forall q :: At(after, q) == At(before, q)
  }

  /** The only change is that `t` now has its entry on `p`, in this mode or a stronger one it
      had before. */
  ghost predicate GrantedTo(before: Table, after: Table, t: nat, p: nat, mode: LockMode) {
    && Grew(before, after, t)
    && (forall q :: q != p ==> At(after, q) == At(before, q))
    && Covers(At(after, p), t, mode)
    && Obtained(At(before, p), At(after, p), t, mode)
  }
}
