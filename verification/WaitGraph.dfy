/** The wait-for graph: cycle search by depth-first traversal with backtracking, and the
    deadlock check that keeps the graph acyclic. */
module WaitGraph {

  type Graph = map<nat, set<nat>>

  ghost predicate Edge(g: Graph, u: nat, v: nat) {
    u in g && v in g[u]
  }

  /** A non-empty sequence of transactions, each waiting for the next. */
  ghost predicate Path(g: Graph, p: seq<nat>) {
    |p| > 0 && forall i :: 0 <= i < |p| - 1 ==> Edge(g, p[i], p[i + 1])
  }

  ghost predicate Leads(g: Graph, p: seq<nat>, u: nat, v: nat) {
    Path(g, p) && p[0] == u && p[|p| - 1] == v
  }

  /** `t` waits, directly or not, for itself. */
  ghost predicate OnCycle(g: Graph, t: nat) {
    exists p :: |p| > 1 && Leads(g, p, t, t)
  }

  /** `u` is `v`, or waits for it, directly or not. */
  ghost predicate LeadsTo(g: Graph, u: nat, v: nat) {
    exists p :: Leads(g, p, u, v)
  }

  ghost predicate Acyclic(g: Graph) {
    forall t :: !OnCycle(g, t)
  }

  /** A path from `current` to `start` that uses no visited transaction before its end. */
  ghost predicate Reaches(g: Graph, p: seq<nat>, current: nat, start: nat, visited: set<nat>) {
    && Leads(g, p, current, start)
    && (forall i :: 0 <= i < |p| - 1 ==> p[i] !in visited)
    && (visited == {} ==> |p| > 1)
  }

  /** The last visit to `current` on a path: what follows avoids it until the end. */
  lemma {:induction false} LastVisit(g: Graph, p: seq<nat>, current: nat, start: nat, visited: set<nat>)
      returns (q: seq<nat>)
    requires Path(g, p) && |p| > 1 && p[|p| - 1] == start && (exists i :: 0 <= i < |p| - 1 && p[i] == current)
    requires forall i :: 0 <= i < |p| - 1 ==> p[i] !in visited
    ensures |q| > 0 && Edge(g, current, q[0]) && Reaches(g, q, q[0], start, visited + {current})
    decreases |p|
  {
    var i :| 0 <= i < |p| - 1 && p[i] == current;
    var tail := p[i + 1..];
    assert forall k :: 0 <= k < |tail| ==> tail[k] == p[i + 1 + k];
    assert Edge(g, p[i], p[i + 1]);
    forall k | 0 <= k < |tail| - 1 ensures Edge(g, tail[k], tail[k + 1]) {
      assert Edge(g, p[i + 1 + k], p[i + 1 + k + 1]);
    }
    if exists k :: 0 <= k < |tail| - 1 && tail[k] == current {
      q := LastVisit(g, tail, current, start, visited);
    } else {
      q := tail;
    }
  }

  lemma Prepend(g: Graph, u: nat, q: seq<nat>, start: nat, visited: set<nat>)
    requires |q| > 0 && Edge(g, u, q[0]) && Reaches(g, q, q[0], start, visited + {u}) && u !in visited
    ensures Reaches(g, [u] + q, u, start, visited)
  {
    var p := [u] + q;
    forall i | 0 <= i < |p| - 1 ensures Edge(g, p[i], p[i + 1]) {
      if i > 0 { assert Edge(g, q[i - 1], q[i]); }
    }
  }

  /** `has_cycle` is exact: it finds a path back to the start that avoids the visited
      transactions if and only if there is one, and otherwise restores the visited set. What
      it has visited when it finds one leads to the start. It terminates because each level
      puts another waiting transaction on the current path. */
  method HasCycle(g: Graph, start: nat, current: nat, visited: set<nat>) returns (found: bool, visited': set<nat>)
    requires if visited == {} then current == start else start in visited
    ensures found <==> exists p :: Reaches(g, p, current, start, visited)
    ensures !found ==> visited' == visited
    ensures found ==> forall u :: u in visited' && u !in visited ==> LeadsTo(g, u, start)
    decreases |g.Keys - visited|
  {
    visited' := visited;
    if current == start && visited != {} {
      assert Reaches(g, [start], current, start, visited);
      return true, visited';
    }
    if current in visited {
      forall p ensures !Reaches(g, p, current, start, visited) {
        assert |p| > 1 && p[0] == current ==> p[0] in visited;
      }
      return false, visited';
    }
    visited' := visited + {current};
    if current in g {
      var todo := g[current];
      while todo != {}
        invariant todo <= g[current] && visited' == visited + {current}
        invariant forall w, q :: w in g[current] - todo ==> !Reaches(g, q, w, start, visited + {current})
        decreases todo
      {
        var w :| w in todo;
        todo := todo - {w};
        assert g.Keys - visited' < g.Keys - visited by { assert current in g.Keys - visited; }
        SmallerSet(g.Keys - visited', g.Keys - visited);
        found, visited' := HasCycle(g, start, w, visited');
        if found {
          ghost var q :| Reaches(g, q, w, start, visited + {current});
          Prepend(g, current, q, start, visited);
          assert Leads(g, [current] + q, current, start);
          return;
        }
      }
    }
    NoPathOn(g, start, current, visited);
    visited' := visited' - {current};
    found := false;
  }

  lemma SmallerSet(a: set<nat>, b: set<nat>)
    requires a < b
    ensures |a| < |b|
  {
    var x :| x in b && x !in a;
    assert a <= b - {x};
    SubsetSize(a, b - {x});
  }

  lemma {:induction false} SubsetSize(a: set<nat>, b: set<nat>)
    requires a <= b
    ensures |a| <= |b|
    decreases a
  {
    if a != {} {
      var x :| x in a;
      SubsetSize(a - {x}, b - {x});
    }
  }

  /** A path back to the start goes through a child that reaches it past `current`. */
  lemma ThroughChild(g: Graph, p: seq<nat>, current: nat, start: nat, visited: set<nat>)
    requires Reaches(g, p, current, start, visited) && (current == start ==> visited == {})
    ensures exists w, q :: Edge(g, current, w) && Reaches(g, q, w, start, visited + {current})
  {
    var q := LastVisit(g, p, current, start, visited);
    assert Edge(g, current, q[0]) && Reaches(g, q, q[0], start, visited + {current});
  }

  lemma NoPathOn(g: Graph, start: nat, current: nat, visited: set<nat>)
    requires current == start ==> visited == {}
    requires forall w, q :: Edge(g, current, w) ==> !Reaches(g, q, w, start, visited + {current})
    ensures forall p :: !Reaches(g, p, current, start, visited)
  {
    forall p ensures !Reaches(g, p, current, start, visited) {
      if Reaches(g, p, current, start, visited) {
        ThroughChild(g, p, current, start, visited);
      }
    }
  }

  /** From the empty visited set the search decides whether `t` is on a cycle. */
  lemma SearchMeansCycle(g: Graph, t: nat)
    ensures OnCycle(g, t) <==> exists p :: Reaches(g, p, t, t, {})
  {
    if OnCycle(g, t) {
      var p :| |p| > 1 && Leads(g, p, t, t);
      assert Reaches(g, p, t, t, {});
    }
    if p :| Reaches(g, p, t, t, {}) {
      assert |p| > 1 && Leads(g, p, t, t);
    }
  }

  ghost predicate Subgraph(g: Graph, h: Graph) {
    forall u, v :: Edge(g, u, v) ==> Edge(h, u, v)
  }

  lemma CycleLifts(g: Graph, h: Graph, t: nat)
    requires Subgraph(g, h) && OnCycle(g, t)
    ensures OnCycle(h, t)
  {
    var p :| |p| > 1 && Leads(g, p, t, t);
    assert Leads(h, p, t, t);
  }

  /** Erasing edges keeps a graph acyclic. */
  lemma SubgraphAcyclic(g: Graph, h: Graph)
    requires Subgraph(g, h) && Acyclic(h)
    ensures Acyclic(g)
  {
    forall t ensures !OnCycle(g, t) {
      if OnCycle(g, t) {
        CycleLifts(g, h, t);
      }
    }
  }

  /** A cycle after replacing the edges of `t` was there before or passes through `t`. */
  lemma NewCycle(g: Graph, t: nat, target: nat, u: nat)
    requires OnCycle(g[t := {target}], u)
    ensures OnCycle(g[t := {target}], t) || OnCycle(g, u)
  {
    var h := g[t := {target}];
    var p :| |p| > 1 && Leads(h, p, u, u);
    if k :| 0 <= k < |p| && p[k] == t {
      Rotate(h, p, k);
    } else {
      forall i | 0 <= i < |p| - 1 ensures Edge(g, p[i], p[i + 1]) {
        assert Edge(h, p[i], p[i + 1]);
      }
      assert Leads(g, p, u, u);
    }
  }

  /** Replacing the edges of `t` keeps a graph acyclic unless the new edge closes a cycle
      through `t`. */
  lemma ReplaceEdgeAcyclic(g: Graph, t: nat, target: nat)
    requires Acyclic(g) && !OnCycle(g[t := {target}], t)
    ensures Acyclic(g[t := {target}])
  {
    var h := g[t := {target}];
    forall u ensures !OnCycle(h, u) {
      if OnCycle(h, u) {
        NewCycle(g, t, target, u);
      }
    }
  }

  lemma Rotate(g: Graph, p: seq<nat>, k: nat)
    requires |p| > 1 && Leads(g, p, p[0], p[0]) && k < |p|
    ensures OnCycle(g, p[k])
  {
    var q := p[k..] + p[1..k + 1];
    forall i | 0 <= i < |q| - 1 ensures Edge(g, q[i], q[i + 1]) {
      if i < |p| - k - 1 {
        assert Edge(g, p[k + i], p[k + i + 1]);
      } else {
        var j := i - (|p| - k) + 1;
        assert Edge(g, p[j], p[j + 1]);
      }
    }
    assert |q| > 1 && Leads(g, q, p[k], p[k]);
  }

  /** Whoever leads to `t` does so without the edges of `t`. */
  lemma {:induction false} LeadsWithout(g: Graph, t: nat, targets: set<nat>, p: seq<nat>)
    requires Path(g[t := targets], p) && p[|p| - 1] == t
    ensures LeadsTo(g, p[0], t)
    decreases |p|
  {
    if p[0] == t {
      assert Leads(g, [t], t, t);
    } else {
      var rest := p[1..];
      assert Edge(g[t := targets], p[0], p[1]);
      forall i | 0 <= i < |rest| - 1 ensures Edge(g[t := targets], rest[i], rest[i + 1]) {
        assert Edge(g[t := targets], p[i + 1], p[i + 2]);
      }
      LeadsWithout(g, t, targets, rest);
      var q :| Leads(g, q, rest[0], t);
      Extend(g, p[0], q);
    }
  }

  lemma Extend(g: Graph, u: nat, q: seq<nat>)
    requires Path(g, q) && Edge(g, u, q[0])
    ensures LeadsTo(g, u, q[|q| - 1])
  {
    var p := [u] + q;
    forall i | 0 <= i < |p| - 1 ensures Edge(g, p[i], p[i + 1]) {
      if i > 0 { assert Edge(g, q[i - 1], q[i]); }
    }
    assert Leads(g, p, u, q[|q| - 1]);
  }

  /** Replacing the edges of `t` does not change who leads to it. */
  lemma LeadsToStays(g: Graph, t: nat, targets: set<nat>, u: nat)
    requires LeadsTo(g[t := targets], u, t)
    ensures LeadsTo(g, u, t)
  {
    var p :| Leads(g[t := targets], p, u, t);
    LeadsWithout(g, t, targets, p);
  }

  /** No edge is new, none starts or ends at `t`, and of the others only those are gone that
      start at a transaction that led to `t`. */
  ghost predicate Leaves(g: Graph, g': Graph, t: nat) {
    && Subgraph(g', g)
    && (forall u :: !Edge(g', t, u) && !Edge(g', u, t))
    && (forall u, v :: Edge(g, u, v) && u != t && v != t && !LeadsTo(g, u, t) ==> Edge(g', u, v))
  }

  /** `check_deadlock`: the requester's edges are replaced by one edge to the holder. If that
      closes a cycle, the requester disappears from the graph, and with it the waits of all
      transactions the search passed and of those that waited for it alone. */
  method CheckDeadlock(g: Graph, t: nat, holder: nat) returns (deadlock: bool, g': Graph)
    requires Acyclic(g)
    ensures Acyclic(g')
    ensures deadlock <==> OnCycle(g[t := {holder}], t)
    ensures !deadlock ==> g' == g[t := {holder}]
    ensures deadlock ==> Leaves(g, g', t)
  {
    g' := g;
    if t in g' {
      g' := g'[t := {}];
    }
    var targets := (if t in g' then g'[t] else {}) + {holder};
    assert targets == {holder};
    g' := g'[t := targets];
    var visited;
    deadlock, visited := HasCycle(g', t, t, {});
    SearchMeansCycle(g', t);
    if deadlock {
      ghost var searched := visited;
      assert g' == g[t := {holder}];
      g' := map u | u in g' && u != t :: g'[u];
      var emptied: set<nat>;
      g', emptied := EraseTarget(g', t);
      visited := visited + emptied;
      g' := map u | u in g' && !(u in visited && u != t) :: g'[u];
      assert Subgraph(g', g);
      SubgraphAcyclic(g', g);
      forall u, v | Edge(g, u, v) && u != t && v != t && !LeadsTo(g, u, t) ensures Edge(g', u, v) {
        assert v in g[u] - {t};
        if u in searched {
          LeadsToStays(g, t, {holder}, u);
        }
      }
    } else {
      assert g' == g[t := {holder}];
      ReplaceEdgeAcyclic(g, t, holder);
    }
  }

  /** Removes `t` from every set of targets and reports whose set became empty. */
  method EraseTarget(g: Graph, t: nat) returns (g': Graph, emptied: set<nat>)
    ensures g'.Keys == g.Keys && forall u :: u in g ==> g'[u] == g[u] - {t}
    ensures emptied == set u | u in g' && g'[u] == {}
  {
    g', emptied := g, {};
    var todo := g.Keys;
    while todo != {}
      invariant todo <= g.Keys && g'.Keys == g.Keys
      invariant forall u :: u in g ==> g'[u] == if u in todo then g[u] else g[u] - {t}
      invariant emptied == set u | u in g' && u !in todo && g'[u] == {}
      decreases todo
    {
      var u :| u in todo;
      todo := todo - {u};
      g' := g'[u := g'[u] - {t}];
      if g'[u] == {} {
        emptied := emptied + {u};
      }
    }
  }
}
