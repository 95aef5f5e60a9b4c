/** Shared and exclusive locks on one page. A wait is split in two: the call up to the point
    where it blocks, and its resumption, when the wait predicate is evaluated once more and
    decides between success and timeout. */
module FrameLocks {

  datatype LockMode = Shared | Exclusive

  datatype Lock = Lock(txn: nat, mode: LockMode)

  datatype Grant = Granted | WaitUpgrade | WaitQueue

  /** Each transaction has at most one entry, and an exclusive entry is alone. */
  ghost predicate Safe(granted: seq<Lock>) {
    forall i, j :: 0 <= i < j < |granted| ==>
      granted[i].txn != granted[j].txn && granted[i].mode.Shared? && granted[j].mode.Shared?
  }

  ghost predicate HasEntry(granted: seq<Lock>, t: nat) {
    exists i :: 0 <= i < |granted| && granted[i].txn == t
  }

  ghost predicate HasMode(granted: seq<Lock>, t: nat, mode: LockMode) {
    exists i :: 0 <= i < |granted| && granted[i] == Lock(t, mode)
  }

  /** `t` may use the page in this mode. */
  ghost predicate Covers(granted: seq<Lock>, t: nat, mode: LockMode) {
    HasMode(granted, t, Exclusive) || (mode == Shared && HasMode(granted, t, Shared))
  }

  /** Now `t` has one kind of entry, in this mode, or still in the stronger one it had. */
  ghost predicate Obtained(before: seq<Lock>, after: seq<Lock>, t: nat, mode: LockMode) {
    forall m :: HasMode(after, t, m) <==>
      m == if mode == Exclusive || HasMode(before, t, Exclusive) then Exclusive else Shared
  }

  /** Some other transaction's entry excludes this request. */
  ghost predicate Conflict(granted: seq<Lock>, t: nat, mode: LockMode) {
    exists i :: 0 <= i < |granted| && granted[i].txn != t && (mode == Exclusive || granted[i].mode == Exclusive)
  }

  /** Everybody else's entries are the same. */
  ghost predicate OthersKept(before: seq<Lock>, after: seq<Lock>, t: nat) {
    forall u, m :: u != t ==> (HasMode(after, u, m) <==> HasMode(before, u, m))
  }

  /** A shared request is excluded by another transaction's exclusive entry, an exclusive
      request by any entry of another transaction. */
  lemma ConflictByMode(granted: seq<Lock>, t: nat)
    ensures Conflict(granted, t, Shared) <==> exists u :: u != t && HasMode(granted, u, Exclusive)
    ensures Conflict(granted, t, Exclusive) <==> exists u :: u != t && HasEntry(granted, u)
  {
    if i :| 0 <= i < |granted| && granted[i].txn != t {
      assert HasEntry(granted, granted[i].txn);
    }
    if Conflict(granted, t, Shared) {
      var i :| 0 <= i < |granted| && granted[i].txn != t && granted[i].mode == Exclusive;
      assert HasMode(granted, granted[i].txn, Exclusive);
    }
  }

  lemma ObtainedCovers(before: seq<Lock>, after: seq<Lock>, t: nat, mode: LockMode)
    requires Obtained(before, after, t, mode)
    ensures Covers(after, t, mode) && forall m :: Covers(before, t, m) ==> Covers(after, t, m)
  {
    var m := if mode == Exclusive || HasMode(before, t, Exclusive) then Exclusive else Shared;
    assert HasMode(after, t, m);
  }

  /** In safe locks an entry that covers the request is all it asks for. */
  lemma CoversObtained(granted: seq<Lock>, t: nat, mode: LockMode)
    requires Safe(granted) && Covers(granted, t, mode)
    ensures Obtained(granted, granted, t, mode) && !Conflict(granted, t, mode)
  {
    var mine := if HasMode(granted, t, Exclusive) then Exclusive else Shared;
    var i :| 0 <= i < |granted| && granted[i] == Lock(t, mine);
    assert forall j :: 0 <= j < |granted| && j != i ==> granted[j].txn != t;
  }

  function Without(granted: seq<Lock>, t: nat): (r: seq<Lock>)
    ensures forall l :: l in r <==> l in granted && l.txn != t
  {
    if granted == [] then []
    else if granted[0].txn == t then Without(granted[1..], t)
    else [granted[0]] + Without(granted[1..], t)
  }

  lemma WithoutEmpty(t: nat)
    ensures Without([], t) == []
  {
  }

  /** What is left when position `i` has been looked at. */
  lemma SplitWithout(granted: seq<Lock>, i: nat, t: nat)
    requires i < |granted|
    ensures var rest := granted[..i] + granted[i + 1..];
      if granted[i].txn == t
      then rest[..i] + Without(rest[i..], t) == granted[..i] + Without(granted[i..], t)
      else granted[..i + 1] + Without(granted[i + 1..], t) == granted[..i] + Without(granted[i..], t)
  {
    assert granted[i..][1..] == granted[i + 1..] && granted[..i + 1] == granted[..i] + [granted[i]];
    var rest := granted[..i] + granted[i + 1..];
    assert rest[..i] == granted[..i] && rest[i..] == granted[i + 1..];
  }

  lemma ModeIsMember(granted: seq<Lock>, t: nat, mode: LockMode)
    ensures HasMode(granted, t, mode) <==> Lock(t, mode) in granted
  {
  }

  lemma WithoutKeepsOthers(granted: seq<Lock>, t: nat)
    ensures !HasEntry(Without(granted, t), t) && OthersKept(granted, Without(granted, t), t)
    ensures forall u :: u != t ==> (HasEntry(Without(granted, t), u) <==> HasEntry(granted, u))
  {
    var r := Without(granted, t);
    forall u, m | u != t ensures HasMode(r, u, m) <==> HasMode(granted, u, m) {
      ModeIsMember(r, u, m);
      ModeIsMember(granted, u, m);
    }
    forall u | u != t ensures HasEntry(r, u) <==> HasEntry(granted, u) {
      EntryIsMode(r, u);
      EntryIsMode(granted, u);
    }
  }

  lemma EntryIsMode(granted: seq<Lock>, t: nat)
    ensures HasEntry(granted, t) <==> HasMode(granted, t, Shared) || HasMode(granted, t, Exclusive)
  {
    if HasEntry(granted, t) {
      var i :| 0 <= i < |granted| && granted[i].txn == t;
      var m := granted[i].mode;
      assert HasMode(granted, t, m) && (m == Shared || m == Exclusive);
    }
    if m :| HasMode(granted, t, m) {
      assert m == Shared || m == Exclusive;
      var i :| 0 <= i < |granted| && granted[i] == Lock(t, m);
      assert granted[i].txn == t;
    }
  }

  lemma {:induction false} WithoutSafe(granted: seq<Lock>, t: nat)
    requires Safe(granted)
    ensures Safe(Without(granted, t))
  {
    if granted != [] {
      var first, rest := granted[0], granted[1..];
      assert forall i :: 0 <= i < |rest| ==> rest[i] == granted[i + 1];
      WithoutSafe(rest, t);
      forall l | l in Without(rest, t) ensures l.txn != first.txn && l.mode.Shared? && first.mode.Shared? {}
    }
  }

  class FrameLockManager {
    var granted: seq<Lock>
    var waiting: seq<Lock>

    constructor ()
      ensures granted == [] && waiting == []
    {
      granted, waiting := [], [];
    }

    /** The holder's position among the granted locks. */
    method Find(t: nat) returns (found: bool, i: nat)
      ensures found <==> HasEntry(granted, t)
      ensures found ==> i < |granted| && granted[i].txn == t
    {
      i := 0;
      while i < |granted|
        invariant i <= |granted|
        invariant forall j :: 0 <= j < i ==> granted[j].txn != t
      {
        if granted[i].txn == t {
          return true, i;
        }
        i := i + 1;
      }
      found := false;
    }

    method NoneExclusive(t: nat) returns (none: bool)
      ensures none <==> forall i :: 0 <= i < |granted| ==> granted[i].mode.Shared? || granted[i].txn == t
    {
      for i := 0 to |granted|
        invariant forall j :: 0 <= j < i ==> granted[j].mode.Shared? || granted[j].txn == t
      {
        if granted[i].mode.Exclusive? && granted[i].txn != t {
          return false;
        }
      }
      none := true;
    }

    /** True exactly when no other entry conflicts, that is, when `GrantLock` would not wait. */
    method CanGrantLock(t: nat, mode: LockMode) returns (can: bool)
      requires Safe(granted)
      ensures can <==> !Conflict(granted, t, mode)
    {
      var found, i := Find(t);
      if found {
        if mode == Shared || granted[i].mode == Exclusive {
          assert forall j :: 0 <= j < |granted| && j != i ==> granted[j].txn != t;
          return true;
        }
        assert |granted| > 1 ==> granted[if i == 0 then 1 else 0].txn != t;
        return |granted| == 1;
      }
      if granted == [] {
        return true;
      }
      if mode == Shared {
        can := NoneExclusive(t);
        return;
      }
      assert granted[0].txn != t;
      can := false;
    }

    /** `grant_lock` up to the point where it would block. */
    method GrantLock(t: nat, mode: LockMode) returns (g: Grant)
      requires Safe(granted)
      modifies this
      ensures Safe(granted)
      ensures g == Granted <==> !old(Conflict(granted, t, mode))
      ensures g == Granted ==>
        Obtained(old(granted), granted, t, mode) && OthersKept(old(granted), granted, t) && waiting == old(waiting)
      ensures g != Granted ==> granted == old(granted)
      ensures g == WaitUpgrade ==> HasEntry(granted, t) && mode == Exclusive && waiting == old(waiting)
      ensures g == WaitQueue ==> !HasEntry(granted, t) && waiting == old(waiting) + [Lock(t, mode)]
    {
      var found, i := Find(t);
      ghost var before := granted;
      if found {
        assert forall j :: 0 <= j < |granted| && j != i ==> granted[j].txn != t;
        assert granted[i] == Lock(t, granted[i].mode);
        if granted[i].mode == mode || (granted[i].mode == Exclusive && mode == Shared) {
          return Granted;
        }
        if |granted| == 1 {
          granted := granted[i := Lock(t, Exclusive)];
          assert granted[i] == Lock(t, Exclusive);
          return Granted;
        }
        assert before[if i == 0 then 1 else 0].txn != t;
        return WaitUpgrade;
      }
      var can := granted == [];
      if mode == Shared {
        can := NoneExclusive(t);
      }
      if can {
        Enter(t, mode);
        return Granted;
      }
      waiting := waiting + [Lock(t, mode)];
      assert mode == Exclusive ==> before[0].txn != t;
      g := WaitQueue;
    }

    /** `granted_locks_.emplace_back` when nothing conflicts. */
    method Enter(t: nat, mode: LockMode)
      requires Safe(granted) && !HasEntry(granted, t) && !Conflict(granted, t, mode)
      modifies this`granted
      ensures Safe(granted) && Obtained(old(granted), granted, t, mode) && OthersKept(old(granted), granted, t)
    {
      ghost var before := granted;
      granted := granted + [Lock(t, mode)];
      assert granted[|before|] == Lock(t, mode);
      assert forall i :: 0 <= i < |before| ==> granted[i] == before[i] && before[i].txn != t;
      assert !HasMode(before, t, Exclusive);
      forall m ensures HasMode(granted, t, m) <==> m == mode {
        assert m == mode ==> HasMode(granted, t, m);
      }
      forall u, m | u != t ensures HasMode(granted, u, m) <==> HasMode(before, u, m) {
        if HasMode(before, u, m) {
          var i :| 0 <= i < |before| && before[i] == Lock(u, m);
          assert granted[i] == Lock(u, m);
        }
      }
    }

    /** The end of a wait for an upgrade: success needs `t` to be the only holder. */
    method ResumeUpgrade(t: nat) returns (ok: bool)
      requires Safe(granted)
      modifies this
      ensures Safe(granted) && waiting == old(waiting)
      ensures ok <==> old(HasEntry(granted, t) && !Conflict(granted, t, Exclusive))
      ensures ok ==> Obtained(old(granted), granted, t, Exclusive) && OthersKept(old(granted), granted, t)
      ensures !ok ==> granted == old(granted)
    {
      ok := |granted| == 1 && granted[0].txn == t;
      if ok {
        granted := granted[0 := Lock(t, Exclusive)];
        assert granted[0] == Lock(t, Exclusive);
      } else if |granted| > 1 {
        assert granted[0].txn != granted[1].txn;
      }
    }

    /** The end of a wait in the queue: the waiter leaves the queue; success needs that no
        other entry conflicts. A transaction that has an entry by now gets no second one. */
    method ResumeQueued(t: nat, mode: LockMode) returns (ok: bool)
      requires Safe(granted)
      modifies this
      ensures Safe(granted)
      ensures ok <==> !old(Conflict(granted, t, mode))
      ensures ok && old(HasEntry(granted, t)) ==> granted == old(granted)
      ensures ok && !old(HasEntry(granted, t)) ==>
        Obtained(old(granted), granted, t, mode) && OthersKept(old(granted), granted, t)
      ensures !ok ==> granted == old(granted)
      ensures waiting == RemoveFirst(old(waiting), t)
    {
      if mode == Exclusive {
        ok := OnlyHolder(t);
      } else {
        ok := NoneExclusive(t);
      }
      waiting := RemoveFirst(waiting, t);
      if ok {
        var found, _ := Find(t);
        if !found {
          Enter(t, mode);
        }
      }
    }

    method OnlyHolder(t: nat) returns (only: bool)
      ensures only <==> forall i :: 0 <= i < |granted| ==> granted[i].txn == t
    {
      for i := 0 to |granted|
        invariant forall j :: 0 <= j < i ==> granted[j].txn == t
      {
        if granted[i].txn != t {
          return false;
        }
      }
      only := true;
    }

    method ReleaseLock(t: nat)
      modifies this`granted
      ensures granted == Without(old(granted), t)
    {
      hide Without;
      ghost var before := granted;
      var i := 0;
      assert before[..0] == [] && before[0..] == before;
      while i < |granted|
        invariant i <= |granted|
        invariant granted[..i] + Without(granted[i..], t) == Without(before, t)
        decreases |granted| - i
      {
        SplitWithout(granted, i, t);
        if granted[i].txn == t {
          granted := granted[..i] + granted[i + 1..];
        } else {
          i := i + 1;
        }
      }
      assert granted[i..] == [] && granted[..i] == granted;
      WithoutEmpty(t);
    }

    method HasLock(t: nat) returns (has: bool)
      ensures has <==> HasEntry(granted, t)
    {
      var i;
      has, i := Find(t);
    }

    method HasLockInMode(t: nat, mode: LockMode) returns (has: bool)
      ensures has <==> HasMode(granted, t, mode)
    {
      for i := 0 to |granted|
        invariant forall j :: 0 <= j < i ==> granted[j] != Lock(t, mode)
      {
        if granted[i].txn == t && granted[i].mode == mode {
          return true;
        }
      }
      has := false;
    }

    method CanUpgradeLock(t: nat) returns (can: bool)
      ensures can <==> HasMode(granted, t, Shared) && |granted| == 1
    {
      can := HasLockInMode(t, Shared);
      can := can && |granted| == 1;
    }
  }

  function RemoveFirst(waiting: seq<Lock>, t: nat): seq<Lock> {
    if waiting == [] then []
    else if waiting[0].txn == t then waiting[1..]
    else [waiting[0]] + RemoveFirst(waiting[1..], t)
  }
}
