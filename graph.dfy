/** Dependency graphs of tasks, the paths and cycles in them, and the two
    facts the scheduler relies on: an order that puts every task after its
    dependencies rules out cycles, and a non-empty set of tasks each of which
    still waits on another task of the set contains one. */
module Graphs {

  /** Task identifiers; the service compares them only for equality. */
  type TaskId = string

  /** Each task id mapped to its ordered dependency list. The lists may name
      ids that are not keys: such a dependency is no edge at all. */
  type DepGraph = map<TaskId, seq<TaskId>>

  /** `x` depends on `y`, and both are tasks of the graph. */
  predicate Edge(g: DepGraph, x: TaskId, y: TaskId) {
    x in g && y in g && y in g[x]
  }

  /** A walk along dependency edges through tasks of the graph. */
  ghost predicate IsPath(g: DepGraph, p: seq<TaskId>) {
    |p| >= 1 && p[0] in g &&
    forall i :: 0 <= i < |p| - 1 ==> Edge(g, p[i], p[i + 1])
  }

  /** A walk of at least one edge that returns to its start; a self-dependency
      is the cycle `[x, x]`. */
  ghost predicate IsCycle(g: DepGraph, p: seq<TaskId>) {
    |p| >= 2 && IsPath(g, p) && p[0] == p[|p| - 1]
  }

  ghost predicate HasCycle(g: DepGraph) {
    exists p :: IsCycle(g, p)
  }

  ghost function SetOf(s: seq<TaskId>): set<TaskId> {
    set x | x in s
  }

  ghost predicate Distinct(s: seq<TaskId>) {
    forall i, j :: 0 <= i < j < |s| ==> s[i] != s[j]
  }

  /** Every entry of `order` is a task of the graph placed after all of its
      dependencies that are tasks of the graph. */
  ghost predicate DependenciesFirst(g: DepGraph, order: seq<TaskId>) {
    forall i :: 0 <= i < |order| ==>
      order[i] in g && forall d :: d in g[order[i]] && d in g ==> d in order[..i]
  }

  /** The position at which `x` first occurs in `s`. */
  function FirstIndex(s: seq<TaskId>, x: TaskId): (i: nat)
    requires x in s
    ensures i < |s| && s[i] == x && x !in s[..i]
  {
    if s[0] == x then 0
    else
      var j := FirstIndex(s[1..], x);
      assert s[..j + 1] == [s[0]] + s[1..][..j];
      j + 1
  }

  lemma FirstIndexBefore(s: seq<TaskId>, x: TaskId, k: nat)
    requires k <= |s| && x in s[..k]
    ensures FirstIndex(s, x) < k
  {
  }

  /** Along a path that starts at a placed task, every task is placed, and the
      first position of the last task precedes that of the first. */
  lemma {:induction false} PathDescends(g: DepGraph, order: seq<TaskId>, p: seq<TaskId>)
    requires DependenciesFirst(g, order)
    requires IsPath(g, p) && p[0] in order
    ensures p[|p| - 1] in order
    ensures |p| >= 2 ==> FirstIndex(order, p[|p| - 1]) < FirstIndex(order, p[0])
  {
    if |p| >= 2 {
      var k := FirstIndex(order, p[0]);
      assert Edge(g, p[0], p[1]);
      assert p[1] in order[..k];
      FirstIndexBefore(order, p[1], k);
      var q := p[1..];
      assert forall i :: 0 <= i < |q| - 1 ==> Edge(g, q[i], q[i + 1]) by {
        forall i | 0 <= i < |q| - 1 ensures Edge(g, q[i], q[i + 1]) {
          assert Edge(g, p[i + 1], p[i + 2]);
        }
      }
      PathDescends(g, order, q);
    }
  }

  /** An order that places every task after its dependencies, and places
      every task of the graph, proves the graph acyclic. */
  lemma OrderedGraphIsAcyclic(g: DepGraph, order: seq<TaskId>)
    requires DependenciesFirst(g, order)
    requires forall x :: x in g ==> x in order
    ensures !HasCycle(g)
  {
    if HasCycle(g) {
      var p :| IsCycle(g, p);
      PathDescends(g, order, p);
    }
  }

  /** `y` is a task of the graph that depends on some task of `s`. */
  ghost predicate WaitsWithin(g: DepGraph, s: set<TaskId>, y: TaskId) {
    y in g && exists d :: d in s && d in g[y]
  }

  /** Every task of `s` waits on a task of `s`. */
  ghost predicate AllWaitWithin(g: DepGraph, s: set<TaskId>) {
    forall y :: y in s ==> WaitsWithin(g, s, y)
  }

  /** A walk of `n` edges from `x` that never leaves `s`, when every task of
      `s` depends on some task of `s`. */
  lemma {:induction false} WalkWithin(g: DepGraph, s: set<TaskId>, x: TaskId, n: nat) returns (w: seq<TaskId>)
    requires x in s
    requires AllWaitWithin(g, s)
    ensures |w| == n + 1 && w[0] == x && IsPath(g, w)
    ensures forall i :: 0 <= i < |w| ==> w[i] in s
    decreases n
  {
    if n == 0 {
      w := [x];
    } else {
      assert WaitsWithin(g, s, x);
      var d :| d in s && d in g[x];
      var rest := WalkWithin(g, s, d, n - 1);
      w := [x] + rest;
      assert Edge(g, w[0], w[1]);
      forall i | 1 <= i < |w| - 1 ensures Edge(g, w[i], w[i + 1]) {
        assert Edge(g, rest[i - 1], rest[i]);
      }
    }
  }

  /** A sequence longer than the set it draws from repeats an element. */
  lemma {:induction false} Pigeonhole(w: seq<TaskId>, s: set<TaskId>) returns (i: nat, j: nat)
    requires forall k :: 0 <= k < |w| ==> w[k] in s
    requires |w| > |s|
    ensures i < j < |w| && w[i] == w[j]
  {
    if w[0] in w[1..] {
      var k :| 0 <= k < |w[1..]| && w[1..][k] == w[0];
      i, j := 0, k + 1;
    } else {
      var rest := w[1..];
      forall k | 0 <= k < |rest| ensures rest[k] in s - {w[0]} {
        assert rest[k] == w[k + 1];
      }
      var i', j' := Pigeonhole(rest, s - {w[0]});
      i, j := i' + 1, j' + 1;
    }
  }

  lemma {:induction false} SlicePath(g: DepGraph, p: seq<TaskId>, i: nat, j: nat)
    requires IsPath(g, p) && i < j <= |p|
    ensures IsPath(g, p[i..j])
  {
    var q := p[i..j];
    if i > 0 {
      assert Edge(g, p[i - 1], p[i]);
    }
    forall k | 0 <= k < |q| - 1 ensures Edge(g, q[k], q[k + 1]) {
      assert Edge(g, p[i + k], p[i + k + 1]);
    }
  }

  /** A non-empty set of tasks in which every task depends on another task
      of the set contains a cycle. */
  lemma StuckSetHasCycle(g: DepGraph, s: set<TaskId>)
    requires s != {}
    requires AllWaitWithin(g, s)
    ensures HasCycle(g)
  {
    var x :| x in s;
    var w := WalkWithin(g, s, x, |s|);
    var i, j := Pigeonhole(w, s);
    SlicePath(g, w, i, j + 1);
    var c := w[i..j + 1];
    assert c[0] == w[i] && c[|c| - 1] == w[j];
    assert IsCycle(g, c);
  }

  /** A walk that ends with an edge back to one of its own tasks closes a cycle. */
  lemma CycleThroughPath(g: DepGraph, p: seq<TaskId>, d: TaskId)
    requires IsPath(g, p) && d in p && p[|p| - 1] in g && d in g[p[|p| - 1]]
    ensures HasCycle(g)
  {
    var j :| 0 <= j < |p| && p[j] == d;
    SlicePath(g, p, j, |p|);
    var c := p[j..] + [d];
    assert d in g by {
      if j > 0 { assert Edge(g, p[j - 1], p[j]); }
    }
    forall k | 0 <= k < |c| - 1 ensures Edge(g, c[k], c[k + 1]) {
      if k < |p| - j - 1 {
        assert Edge(g, p[j..][k], p[j..][k + 1]);
      } else {
        assert c[k] == p[|p| - 1] && c[k + 1] == d;
        assert p[|p| - 1] in g by {
          if |p| > 1 { assert Edge(g, p[|p| - 2], p[|p| - 1]); }
        }
      }
    }
    assert IsCycle(g, c);
  }

  /** A task that lists itself among its dependencies is a cycle of length one. */
  lemma SelfDependencyIsCycle(g: DepGraph, x: TaskId)
    requires x in g && x in g[x]
    ensures HasCycle(g)
  {
    assert IsCycle(g, [x, x]);
  }

  /** Two tasks that depend on each other form a cycle. */
  lemma MutualDependencyIsCycle(g: DepGraph, x: TaskId, y: TaskId)
    requires Edge(g, x, y) && Edge(g, y, x)
    ensures HasCycle(g)
  {
    assert IsCycle(g, [x, y, x]);
  }

  /** Two graphs with the same tasks and the same edges have the same cycles. */
  lemma SameEdgesSameCycles(g1: DepGraph, g2: DepGraph)
    requires g1.Keys == g2.Keys
    requires forall a, b :: Edge(g1, a, b) <==> Edge(g2, a, b)
    ensures HasCycle(g1) <==> HasCycle(g2)
  {
    if HasCycle(g1) {
      var p :| IsCycle(g1, p);
      assert IsCycle(g2, p);
    }
    if HasCycle(g2) {
      var p :| IsCycle(g2, p);
      assert IsCycle(g1, p);
    }
  }

  /** Adding a dependency on an id that is not a task neither creates nor
      removes a cycle: such a dependency is always treated as satisfied. */
  lemma DanglingDependencyIgnored(g: DepGraph, x: TaskId, d: TaskId)
    requires x in g && d !in g
    ensures HasCycle(g[x := g[x] + [d]]) <==> HasCycle(g)
  {
    var g2 := g[x := g[x] + [d]];
    forall a, b ensures Edge(g, a, b) <==> Edge(g2, a, b) {
      if a == x && b in g {
        assert b in g2[x] <==> b in g[x];
      }
    }
    SameEdgesSameCycles(g, g2);
  }

  lemma {:induction false} SetOfDistinct(s: seq<TaskId>)
    requires Distinct(s)
    ensures |SetOf(s)| == |s|
  {
    if s != [] {
      var t := s[..|s| - 1];
      SetOfDistinct(t);
      assert SetOf(s) == SetOf(t) + {s[|s| - 1]};
      assert s[|s| - 1] !in SetOf(t);
    }
  }

  lemma {:induction false} SubsetCard(a: set<TaskId>, b: set<TaskId>)
    requires a <= b
    ensures |a| <= |b|
    ensures |a| == |b| ==> a == b
  {
    if a != {} {
      var x :| x in a;
      SubsetCard(a - {x}, b - {x});
    } else if b != {} {
      var x :| x in b;
    }
  }

  /** A sequence without repetition drawn from `s` is no longer than `s`,
      and as long as `s` only when it lists all of `s`. */
  lemma DistinctWithin(q: seq<TaskId>, s: set<TaskId>)
    requires Distinct(q) && forall x :: x in q ==> x in s
    ensures |q| <= |s|
    ensures |q| == |s| ==> forall x :: x in s ==> x in q
  {
    SetOfDistinct(q);
    SubsetCard(SetOf(q), s);
  }

  lemma DistinctConcat(a: seq<TaskId>, b: seq<TaskId>)
    requires Distinct(a) && Distinct(b)
    requires forall x :: x in a ==> x !in b
    ensures Distinct(a + b)
  {
    var c := a + b;
    forall i, j | 0 <= i < j < |c| ensures c[i] != c[j] {
      if i < |a| && j >= |a| {
        assert c[i] in a && c[j] == b[j - |a|];
      } else if j >= |a| {
        assert c[i] == b[i - |a|];
      }
    }
  }

  /** A task whose dependencies are all placed may be placed next. */
  lemma DependenciesFirstExtend(g: DepGraph, order: seq<TaskId>, p: TaskId)
    requires DependenciesFirst(g, order)
    requires p in g && forall d :: d in g[p] && d in g ==> d in order
    ensures DependenciesFirst(g, order + [p])
  {
    var order' := order + [p];
    forall i | 0 <= i < |order'|
      ensures order'[i] in g && forall d :: d in g[order'[i]] && d in g ==> d in order'[..i]
    {
      if i < |order| {
        assert order'[..i] == order[..i];
      } else {
        assert order'[..i] == order;
      }
    }
  }

  /** A walk extended by one edge is still a walk. */
  lemma PathExtend(g: DepGraph, p: seq<TaskId>, t: TaskId)
    requires t in g
    requires p == [] || (IsPath(g, p) && p[|p| - 1] in g && t in g[p[|p| - 1]])
    ensures IsPath(g, p + [t])
  {
    var q := p + [t];
    forall i | 0 <= i < |q| - 1 ensures Edge(g, q[i], q[i + 1]) {
      if i < |p| - 1 {
        assert Edge(g, p[i], p[i + 1]);
      } else if i > 0 {
        assert Edge(g, p[i - 1], p[i]);
      }
    }
  }
}
