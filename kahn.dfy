/** What Kahn's algorithm in `GetSchedule` computes, stated over the input
    list: the tables it builds, the queue it seeds, the successors each placed
    task frees, and the invariant the main loop keeps. */
module KahnSpec {
  import opened Graphs

  /** One task as the scheduler receives it; the caller has already mapped a
      missing estimate to 0. */
  datatype ScheduleTaskInput = ScheduleTaskInput(
    id: TaskId,
    title: string,
    estimatedHours: int,
    dependencies: seq<TaskId>)

  ghost predicate DistinctIds(tasks: seq<ScheduleTaskInput>) {
    forall i, j :: 0 <= i < j < |tasks| ==> tasks[i].id != tasks[j].id
  }

  /** The `taskMap` table: each id mapped to its task. */
  function TaskMapOf(tasks: seq<ScheduleTaskInput>): map<TaskId, ScheduleTaskInput> {
    if tasks == [] then map[]
    else TaskMapOf(tasks[..|tasks| - 1])[tasks[|tasks| - 1].id := tasks[|tasks| - 1]]
  }

  /** The dependency graph of the input: each id mapped to its dependency list. */
  function GraphOf(tasks: seq<ScheduleTaskInput>): DepGraph {
    var tm := TaskMapOf(tasks);
    map x | x in tm :: tm[x].dependencies
  }

  function Ids(tasks: seq<ScheduleTaskInput>): seq<TaskId> {
    if tasks == [] then [] else Ids(tasks[..|tasks| - 1]) + [tasks[|tasks| - 1].id]
  }

  lemma {:induction false} TaskMapKeys(tasks: seq<ScheduleTaskInput>)
    ensures forall x :: x in TaskMapOf(tasks) <==> exists k :: 0 <= k < |tasks| && tasks[k].id == x
  {
    if tasks != [] {
      var front := tasks[..|tasks| - 1];
      TaskMapKeys(front);
      forall x | x in TaskMapOf(tasks) ensures exists k :: 0 <= k < |tasks| && tasks[k].id == x {
        if x in TaskMapOf(front) {
          var k :| 0 <= k < |front| && front[k].id == x;
          assert tasks[k].id == x;
        } else {
          assert tasks[|tasks| - 1].id == x;
        }
      }
      forall x, k | 0 <= k < |tasks| && tasks[k].id == x ensures x in TaskMapOf(tasks) {
        if k < |front| { assert front[k].id == x; }
      }
    }
  }

  /** With distinct ids, the last task's id is not yet a key of the table
      built from the tasks before it. */
  lemma {:induction false} IdsAreKeys(tasks: seq<ScheduleTaskInput>)
    ensures forall k :: 0 <= k < |tasks| ==> tasks[k].id in TaskMapOf(tasks)
  {
    if tasks != [] {
      var front := tasks[..|tasks| - 1];
      IdsAreKeys(front);
      assert forall k :: 0 <= k < |front| ==> front[k] == tasks[k];
    }
  }

  lemma LastIdFresh(tasks: seq<ScheduleTaskInput>)
    requires DistinctIds(tasks) && tasks != []
    ensures tasks[|tasks| - 1].id !in TaskMapOf(tasks[..|tasks| - 1])
  {
    var front := tasks[..|tasks| - 1];
    TaskMapKeys(front);
  }

  lemma {:induction false} TaskMapOfFacts(tasks: seq<ScheduleTaskInput>)
    requires DistinctIds(tasks)
    ensures forall i :: 0 <= i < |tasks| ==>
      tasks[i].id in TaskMapOf(tasks) && TaskMapOf(tasks)[tasks[i].id] == tasks[i]
    ensures forall x :: x in TaskMapOf(tasks) <==> x in Ids(tasks)
    ensures |Ids(tasks)| == |tasks| && Distinct(Ids(tasks))
    ensures |TaskMapOf(tasks).Keys| == |tasks|
  {
    if tasks != [] {
      var n := |tasks| - 1;
      var front := tasks[..n];
      assert DistinctIds(front);
      TaskMapOfFacts(front);
      LastIdFresh(tasks);
      var last := tasks[n];
      assert TaskMapOf(tasks).Keys == TaskMapOf(front).Keys + {last.id};
      forall i | 0 <= i < |tasks|
        ensures tasks[i].id in TaskMapOf(tasks) && TaskMapOf(tasks)[tasks[i].id] == tasks[i]
      {
        if i < n { assert front[i] == tasks[i]; }
      }
      var ids := Ids(tasks);
      assert ids == Ids(front) + [last.id];
      forall i, j | 0 <= i < j < |ids| ensures ids[i] != ids[j] {
        if j == n { assert ids[i] in Ids(front); }
        else { assert ids[i] == Ids(front)[i] && ids[j] == Ids(front)[j]; }
      }
    }
  }

  /** Ids whose tasks list each of them among their dependencies: `inDegree`
      counts, for one dependency list, the entries that are tasks and are
      not yet placed. */
  function CountPending(g: DepGraph, deps: seq<TaskId>, placed: set<TaskId>): nat {
    if deps == [] then 0
    else
      CountPending(g, deps[..|deps| - 1], placed) +
      (if deps[|deps| - 1] in g && deps[|deps| - 1] !in placed then 1 else 0)
  }

  /** No pending entry means every dependency that is a task is placed. */
  lemma {:induction false} CountPendingZero(g: DepGraph, deps: seq<TaskId>, placed: set<TaskId>)
    ensures CountPending(g, deps, placed) == 0 <==>
      forall d :: d in deps && d in g ==> d in placed
  {
    if deps != [] {
      var front := deps[..|deps| - 1];
      CountPendingZero(g, front, placed);
      assert deps == front + [deps[|deps| - 1]];
    }
  }

  /** Placing `p` removes exactly its occurrences from the pending count. */
  lemma {:induction false} CountPendingPlace(g: DepGraph, deps: seq<TaskId>, placed: set<TaskId>, p: TaskId)
    requires p in g && p !in placed
    ensures CountPending(g, deps, placed) == CountPending(g, deps, placed + {p}) + multiset(deps)[p]
  {
    if deps != [] {
      var front := deps[..|deps| - 1];
      CountPendingPlace(g, front, placed, p);
      assert deps == front + [deps[|deps| - 1]];
    }
  }

  /** `id` once for every occurrence of `p` in `deps`: what the edge pass
      appends to `adj[p]` while it walks the dependency list of task `id`. */
  function Mentions(id: TaskId, deps: seq<TaskId>, p: TaskId): seq<TaskId> {
    if deps == [] then []
    else Mentions(id, deps[..|deps| - 1], p) + (if deps[|deps| - 1] == p then [id] else [])
  }

  lemma {:induction false} MentionsCount(id: TaskId, deps: seq<TaskId>, p: TaskId, y: TaskId)
    ensures multiset(Mentions(id, deps, p))[y] == if y == id then multiset(deps)[p] else 0
  {
    if deps != [] {
      var front := deps[..|deps| - 1];
      MentionsCount(id, front, p, y);
      assert deps == front + [deps[|deps| - 1]];
    }
  }

  /** The adjacency list `adj[p]`: the ids of the tasks that depend on `p`, in
      input order, one entry per occurrence of `p` in their dependency lists. */
  function Dependents(tasks: seq<ScheduleTaskInput>, p: TaskId): seq<TaskId> {
    if tasks == [] then []
    else
      var last := tasks[|tasks| - 1];
      Dependents(tasks[..|tasks| - 1], p) + Mentions(last.id, last.dependencies, p)
  }

  /** `adj[p]` lists `x` as often as `x` lists `p`. */
  lemma {:induction false} DependentsCount(tasks: seq<ScheduleTaskInput>, p: TaskId, x: TaskId)
    requires DistinctIds(tasks)
    ensures multiset(Dependents(tasks, p))[x] ==
      if x in TaskMapOf(tasks) then multiset(TaskMapOf(tasks)[x].dependencies)[p] else 0
  {
    if tasks != [] {
      var front := tasks[..|tasks| - 1];
      assert DistinctIds(front);
      DependentsCount(front, p, x);
      LastIdFresh(tasks);
      MentionsCount(tasks[|tasks| - 1].id, tasks[|tasks| - 1].dependencies, p, x);
    }
  }

  /** The ids that the successor walk appends to the queue while it visits
      the first `n` entries of `adj[p]`: an id is appended at its last
      occurrence, when its task has no dependency left unplaced. */
  function Freed(g: DepGraph, adj: seq<TaskId>, n: nat, placed: set<TaskId>): seq<TaskId>
    requires n <= |adj|
  {
    if n == 0 then []
    else
      var x := adj[n - 1];
      Freed(g, adj, n - 1, placed) +
      (if x !in adj[n..] && x in g && CountPending(g, g[x], placed) == 0 then [x] else [])
  }

  lemma {:induction false} FreedFacts(g: DepGraph, adj: seq<TaskId>, n: nat, placed: set<TaskId>)
    requires n <= |adj|
    ensures Distinct(Freed(g, adj, n, placed))
    ensures forall x :: x in Freed(g, adj, n, placed) <==>
      x in g && CountPending(g, g[x], placed) == 0 &&
      exists j :: 0 <= j < n && adj[j] == x && x !in adj[j + 1..]
  {
    if n > 0 {
      FreedFacts(g, adj, n - 1, placed);
      var front := Freed(g, adj, n - 1, placed);
      var x := adj[n - 1];
      if x !in adj[n..] && x in g && CountPending(g, g[x], placed) == 0 {
        assert x !in front;
        DistinctConcat(front, [x]);
      }
    }
  }

  lemma {:induction false} LastOccurrence(adj: seq<TaskId>, x: TaskId) returns (j: nat)
    requires x in adj
    ensures j < |adj| && adj[j] == x && x !in adj[j + 1..]
  {
    var n := |adj| - 1;
    if adj[n] == x {
      j := n;
    } else {
      j := LastOccurrence(adj[..n], x);
      assert adj[j + 1..] == adj[..n][j + 1..] + [adj[n]];
    }
  }

  /** The initial queue: the ids of the tasks none of whose dependencies is a
      task, in input order. */
  function Seeds(g: DepGraph, tasks: seq<ScheduleTaskInput>): seq<TaskId> {
    if tasks == [] then []
    else
      var last := tasks[|tasks| - 1];
      Seeds(g, tasks[..|tasks| - 1]) +
      (if CountPending(g, last.dependencies, {}) == 0 then [last.id] else [])
  }

  lemma {:induction false} SeedsFacts(g: DepGraph, tasks: seq<ScheduleTaskInput>)
    requires DistinctIds(tasks)
    ensures Distinct(Seeds(g, tasks))
    ensures forall x :: x in Seeds(g, tasks) <==>
      x in TaskMapOf(tasks) && CountPending(g, TaskMapOf(tasks)[x].dependencies, {}) == 0
  {
    if tasks != [] {
      var front := tasks[..|tasks| - 1];
      assert DistinctIds(front);
      SeedsFacts(g, front);
      LastIdFresh(tasks);
      var last := tasks[|tasks| - 1];
      if CountPending(g, last.dependencies, {}) == 0 {
        DistinctConcat(Seeds(g, front), [last.id]);
      }
    }
  }

  /** Everything the successor walks append to the queue while the tasks of
      `order` are placed one after the other. */
  ghost function Released(tasks: seq<ScheduleTaskInput>, order: seq<TaskId>): seq<TaskId> {
    if order == [] then []
    else
      var adj := Dependents(tasks, order[|order| - 1]);
      Released(tasks, order[..|order| - 1]) + Freed(GraphOf(tasks), adj, |adj|, SetOf(order))
  }

  /** The invariant of the main loop: `order` are the ids placed so far,
      `queue` the ids waiting. Nothing is placed or queued twice, every
      placed task follows its dependencies, a task that is neither placed nor
      queued still waits on an unplaced dependency, and the queue has been
      filled first-in first-out: the seeds in input order, then what each
      placed task freed, in the order of its adjacency list. */
  ghost predicate KahnState(tasks: seq<ScheduleTaskInput>, order: seq<TaskId>, queue: seq<TaskId>) {
    var g := GraphOf(tasks);
    && Distinct(order + queue)
    && (forall x :: x in order + queue ==> x in g)
    && DependenciesFirst(g, order)
    && (forall x :: x in g && x !in order ==>
          (x in queue <==> CountPending(g, g[x], SetOf(order)) == 0))
    && order + queue == Seeds(g, tasks) + Released(tasks, order)
  }

  lemma KahnInit(tasks: seq<ScheduleTaskInput>)
    requires DistinctIds(tasks)
    ensures KahnState(tasks, [], Seeds(GraphOf(tasks), tasks))
  {
    var g := GraphOf(tasks);
    SeedsFacts(g, tasks);
    assert SetOf([]) == {};
  }

  /** `adj[p]` holds exactly the tasks that list `p` as a dependency. */
  lemma DependentsMembers(tasks: seq<ScheduleTaskInput>, p: TaskId)
    requires DistinctIds(tasks)
    ensures forall x :: x in Dependents(tasks, p) <==> x in GraphOf(tasks) && p in GraphOf(tasks)[x]
  {
    forall x ensures x in Dependents(tasks, p) <==> x in GraphOf(tasks) && p in GraphOf(tasks)[x] {
      DependentsCount(tasks, p, x);
    }
  }

  /** Placing the head `p` of the queue: `p` is a task, not yet placed, and
      every dependency of `p` that is a task is placed already. */
  lemma HeadIsReady(tasks: seq<ScheduleTaskInput>, order: seq<TaskId>, queue: seq<TaskId>)
    requires KahnState(tasks, order, queue) && queue != []
    ensures queue[0] in GraphOf(tasks) && queue[0] !in order
    ensures forall d :: d in GraphOf(tasks)[queue[0]] && d in GraphOf(tasks) ==> d in order
  {
    var g := GraphOf(tasks);
    var p := queue[0];
    assert (order + queue)[|order|] == p;
    assert p in order + queue;
    assert forall i :: 0 <= i < |order| ==> order[i] == (order + queue)[i];
    CountPendingZero(g, g[p], SetOf(order));
  }

  /** The successor walk's precondition: before it, the in-degree of every
      task is its pending count after placing `p` plus its entries in `adj[p]`. */
  lemma PlaceSplitsCount(tasks: seq<ScheduleTaskInput>, order: seq<TaskId>, p: TaskId)
    requires DistinctIds(tasks)
    requires p in GraphOf(tasks) && p !in order
    ensures forall x :: x in GraphOf(tasks) ==>
      CountPending(GraphOf(tasks), GraphOf(tasks)[x], SetOf(order)) ==
      CountPending(GraphOf(tasks), GraphOf(tasks)[x], SetOf(order + [p])) + multiset(Dependents(tasks, p))[x]
  {
    var g := GraphOf(tasks);
    assert SetOf(order + [p]) == SetOf(order) + {p};
    forall x | x in g
      ensures CountPending(g, g[x], SetOf(order)) ==
        CountPending(g, g[x], SetOf(order + [p])) + multiset(Dependents(tasks, p))[x]
    {
      CountPendingPlace(g, g[x], SetOf(order), p);
      DependentsCount(tasks, p, x);
    }
  }

  /** What the successor walk frees was neither placed nor queued before. */
  lemma FreedIsFresh(tasks: seq<ScheduleTaskInput>, order: seq<TaskId>, queue: seq<TaskId>)
    requires DistinctIds(tasks)
    requires KahnState(tasks, order, queue) && queue != []
    ensures var p := queue[0];
      var adj := Dependents(tasks, p);
      forall x :: x in Freed(GraphOf(tasks), adj, |adj|, SetOf(order + [p])) ==>
        x in GraphOf(tasks) && x !in order + [p] + queue[1..]
  {
    var g := GraphOf(tasks);
    var p := queue[0];
    var adj := Dependents(tasks, p);
    var freed := Freed(g, adj, |adj|, SetOf(order + [p]));
    HeadIsReady(tasks, order, queue);
    DependentsMembers(tasks, p);
    FreedFacts(g, adj, |adj|, SetOf(order + [p]));
    forall x | x in freed ensures x in g && x !in order + [p] + queue[1..] {
      var j :| 0 <= j < |adj| && adj[j] == x && x !in adj[j + 1..];
      assert x in adj && p in g[x];
      if x in queue[1..] {
        assert x in queue;
        CountPendingZero(g, g[x], SetOf(order));
      }
    }
  }

  /** After the step, a task that is not placed is queued exactly when none of
      its dependencies is pending. */
  lemma QueuedWhenReady(tasks: seq<ScheduleTaskInput>, order: seq<TaskId>, queue: seq<TaskId>)
    requires DistinctIds(tasks)
    requires KahnState(tasks, order, queue) && queue != []
    ensures var g := GraphOf(tasks);
      var p := queue[0];
      var adj := Dependents(tasks, p);
      var queue' := queue[1..] + Freed(g, adj, |adj|, SetOf(order + [p]));
      forall x :: x in g && x !in order + [p] ==>
        (x in queue' <==> CountPending(g, g[x], SetOf(order + [p])) == 0)
  {
    var g := GraphOf(tasks);
    var p := queue[0];
    var adj := Dependents(tasks, p);
    var placed := SetOf(order);
    var placed' := SetOf(order + [p]);
    assert placed' == placed + {p};
    var freed := Freed(g, adj, |adj|, placed');
    var queue' := queue[1..] + freed;
    DependentsMembers(tasks, p);
    FreedFacts(g, adj, |adj|, placed');
    forall x | x in g && x !in order + [p]
      ensures x in queue' <==> CountPending(g, g[x], placed') == 0
    {
      CountPendingZero(g, g[x], placed);
      CountPendingZero(g, g[x], placed');
      if CountPending(g, g[x], placed') == 0 && x !in queue[1..] {
        if CountPending(g, g[x], placed) != 0 {
          assert p in g[x];
          var j := LastOccurrence(adj, x);
          assert x in freed;
        }
      }
    }
  }

  /** One iteration of the main loop keeps the invariant. */
  lemma KahnStep(tasks: seq<ScheduleTaskInput>, order: seq<TaskId>, queue: seq<TaskId>)
    requires DistinctIds(tasks)
    requires KahnState(tasks, order, queue) && queue != []
    ensures var p := queue[0];
      var adj := Dependents(tasks, p);
      KahnState(tasks, order + [p],
                queue[1..] + Freed(GraphOf(tasks), adj, |adj|, SetOf(order + [p])))
  {
    var g := GraphOf(tasks);
    var p := queue[0];
    var adj := Dependents(tasks, p);
    var order' := order + [p];
    var freed := Freed(g, adj, |adj|, SetOf(order'));
    var queue' := queue[1..] + freed;
    HeadIsReady(tasks, order, queue);
    FreedIsFresh(tasks, order, queue);
    QueuedWhenReady(tasks, order, queue);
    FreedFacts(g, adj, |adj|, SetOf(order'));
    MoveHead(order, queue, freed, g.Keys);
    DependenciesFirstExtend(g, order, p);
    FifoStep(tasks, order, queue);
  }

  /** Moving the head of the queue to the placed list and appending fresh
      ids keeps the two lists free of repetition and within `keys`. */
  lemma MoveHead(order: seq<TaskId>, queue: seq<TaskId>, freed: seq<TaskId>, keys: set<TaskId>)
    requires queue != [] && Distinct(order + queue) && Distinct(freed)
    requires forall x :: x in order + queue ==> x in keys
    requires forall x :: x in freed ==> x in keys && x !in order + [queue[0]] + queue[1..]
    ensures Distinct((order + [queue[0]]) + (queue[1..] + freed))
    ensures forall x :: x in (order + [queue[0]]) + (queue[1..] + freed) ==> x in keys
  {
    var front := order + [queue[0]] + queue[1..];
    assert front == order + queue by {
      assert queue == [queue[0]] + queue[1..];
    }
    DistinctConcat(front, freed);
    assert (order + [queue[0]]) + (queue[1..] + freed) == front + freed;
  }

  lemma FifoStep(tasks: seq<ScheduleTaskInput>, order: seq<TaskId>, queue: seq<TaskId>)
    requires queue != []
    requires order + queue == Seeds(GraphOf(tasks), tasks) + Released(tasks, order)
    ensures var p := queue[0];
      var adj := Dependents(tasks, p);
      var freed := Freed(GraphOf(tasks), adj, |adj|, SetOf(order + [p]));
      (order + [p]) + (queue[1..] + freed) == Seeds(GraphOf(tasks), tasks) + Released(tasks, order + [p])
  {
    var g := GraphOf(tasks);
    var p := queue[0];
    var order' := order + [p];
    var adj := Dependents(tasks, p);
    var freed := Freed(g, adj, |adj|, SetOf(order'));
    ReleasedStep(tasks, order, p);
    ShiftHead(order, queue, Seeds(g, tasks), Released(tasks, order), freed);
  }

  lemma ReleasedStep(tasks: seq<ScheduleTaskInput>, order: seq<TaskId>, p: TaskId)
    ensures Released(tasks, order + [p]) ==
      Released(tasks, order) + Freed(GraphOf(tasks), Dependents(tasks, p), |Dependents(tasks, p)|, SetOf(order + [p]))
  {
    assert (order + [p])[..|order|] == order;
  }

  lemma ShiftHead(a: seq<TaskId>, q: seq<TaskId>, b1: seq<TaskId>, b2: seq<TaskId>, f: seq<TaskId>)
    requires q != [] && a + q == b1 + b2
    ensures (a + [q[0]]) + (q[1..] + f) == b1 + (b2 + f)
  {
    calc {
      (a + [q[0]]) + (q[1..] + f);
      a + ([q[0]] + q[1..]) + f;
      { assert [q[0]] + q[1..] == q; }
      (a + q) + f;
      (b1 + b2) + f;
    }
  }

  /** Placed and queued ids together never outnumber the tasks. */
  lemma KahnBound(tasks: seq<ScheduleTaskInput>, order: seq<TaskId>, queue: seq<TaskId>)
    requires DistinctIds(tasks) && KahnState(tasks, order, queue)
    ensures |order| + |queue| <= |tasks|
  {
    TaskMapOfFacts(tasks);
    assert GraphOf(tasks).Keys == TaskMapOf(tasks).Keys;
    DistinctWithin(order + queue, GraphOf(tasks).Keys);
  }

  /** When the queue runs dry, every task has been placed exactly when the
      graph has no cycle; then the placed list holds every task. */
  lemma KahnDone(tasks: seq<ScheduleTaskInput>, order: seq<TaskId>)
    requires DistinctIds(tasks) && KahnState(tasks, order, [])
    ensures |order| <= |tasks|
    ensures |order| == |tasks| <==> !HasCycle(GraphOf(tasks))
    ensures |order| == |tasks| ==> forall x :: x in GraphOf(tasks) ==> x in order
  {
    var g := GraphOf(tasks);
    assert order + [] == order;
    assert Distinct(order) && DependenciesFirst(g, order);
    assert forall x :: x in order ==> x in g;
    KeysCount(tasks);
    DistinctWithin(order, g.Keys);
    if |order| == |tasks| {
      OrderedGraphIsAcyclic(g, order);
    } else {
      assert forall x :: x in g && x !in order ==> CountPending(g, g[x], SetOf(order)) != 0;
      var y := MissingKey(order, g.Keys);
      WaitingHasCycle(g, SetOf(order), y);
    }
  }

  lemma KeysCount(tasks: seq<ScheduleTaskInput>)
    requires DistinctIds(tasks)
    ensures |GraphOf(tasks).Keys| == |tasks|
  {
    TaskMapOfFacts(tasks);
    assert GraphOf(tasks).Keys == TaskMapOf(tasks).Keys;
  }

  /** A sequence without repetition shorter than the set it draws from misses
      one of its elements. */
  lemma MissingKey(order: seq<TaskId>, keys: set<TaskId>) returns (y: TaskId)
    requires Distinct(order) && |order| < |keys|
    ensures y in keys && y !in order
  {
    SetOfDistinct(order);
    if keys <= SetOf(order) {
      SubsetCard(keys, SetOf(order));
      assert false;
    }
    y :| y in keys && y !in SetOf(order);
  }

  /** If some task is unplaced and every unplaced task still waits on an
      unplaced task, the graph has a cycle. */
  lemma WaitingHasCycle(g: DepGraph, placed: set<TaskId>, y: TaskId)
    requires y in g && y !in placed
    requires forall x :: x in g && x !in placed ==> CountPending(g, g[x], placed) != 0
    ensures HasCycle(g)
  {
    var stuck := g.Keys - placed;
    forall x | x in stuck ensures x in g && exists d :: d in stuck && d in g[x] {
      CountPendingZero(g, g[x], placed);
      var d :| d in g[x] && d in g && d !in placed;
      assert d in stuck;
    }
    StuckSetHasCycle(g, stuck);
  }

  /** The titles of the placed tasks, in placement order. */
  function Titles(taskMap: map<TaskId, ScheduleTaskInput>, order: seq<TaskId>): (r: seq<string>)
    requires forall x :: x in order ==> x in taskMap
    ensures |r| == |order|
    ensures forall i :: 0 <= i < |order| ==> r[i] == taskMap[order[i]].title
  {
    if order == [] then []
    else Titles(taskMap, order[..|order| - 1]) + [taskMap[order[|order| - 1]].title]
  }

  /** The running total of the placed tasks' estimates. */
  function Hours(taskMap: map<TaskId, ScheduleTaskInput>, order: seq<TaskId>): int
    requires forall x :: x in order ==> x in taskMap
  {
    if order == [] then 0
    else Hours(taskMap, order[..|order| - 1]) + taskMap[order[|order| - 1]].estimatedHours
  }

  /** The sum of the estimates over the input list, in input order. */
  function InputHours(tasks: seq<ScheduleTaskInput>): int {
    if tasks == [] then 0 else InputHours(tasks[..|tasks| - 1]) + tasks[|tasks| - 1].estimatedHours
  }

  lemma {:induction false} HoursAppend(taskMap: map<TaskId, ScheduleTaskInput>, u: seq<TaskId>, v: seq<TaskId>)
    requires forall x :: x in u + v ==> x in taskMap
    ensures Hours(taskMap, u + v) == Hours(taskMap, u) + Hours(taskMap, v)
  {
    if v != [] {
      var w := v[..|v| - 1];
      assert (u + v)[..|u + v| - 1] == u + w;
      HoursAppend(taskMap, u, w);
    } else {
      assert u + v == u;
    }
  }

  /** Reordering the placed tasks does not change their total. */
  lemma {:induction false} HoursPermutation(taskMap: map<TaskId, ScheduleTaskInput>, a: seq<TaskId>, b: seq<TaskId>)
    requires multiset(a) == multiset(b)
    requires forall x :: x in a ==> x in taskMap
    ensures forall x :: x in b ==> x in taskMap
    ensures Hours(taskMap, a) == Hours(taskMap, b)
  {
    PermutationMembers(a, b);
    if a != [] {
      var k := MatchLast(a, b);
      HoursPermutation(taskMap, a[..|a| - 1], b[..k] + b[k + 1..]);
      HoursRemove(taskMap, b, k);
    }
  }

  /** The last element of `a` sits somewhere in a permutation `b` of it;
      taking both out leaves permutations of each other. */
  lemma MatchLast(a: seq<TaskId>, b: seq<TaskId>) returns (k: nat)
    requires multiset(a) == multiset(b) && a != []
    ensures k < |b| && b[k] == a[|a| - 1]
    ensures multiset(a[..|a| - 1]) == multiset(b[..k] + b[k + 1..])
  {
    var n := |a| - 1;
    assert a[n] in multiset(b);
    k :| 0 <= k < |b| && b[k] == a[n];
    MultisetRemove(b, k);
    MultisetRemove(a, n);
    assert a[..n] + a[n + 1..] == a[..n];
  }

  lemma PermutationMembers(a: seq<TaskId>, b: seq<TaskId>)
    requires multiset(a) == multiset(b)
    ensures forall x :: x in a <==> x in b
  {
    forall x ensures x in a <==> x in b {
      assert x in a <==> x in multiset(a);
    }
  }

  /** Taking one task out of a list takes its estimate out of the total. */
  lemma HoursRemove(taskMap: map<TaskId, ScheduleTaskInput>, b: seq<TaskId>, k: nat)
    requires k < |b| && forall x :: x in b ==> x in taskMap
    ensures forall x :: x in b[..k] + b[k + 1..] ==> x in taskMap
    ensures Hours(taskMap, b) == Hours(taskMap, b[..k] + b[k + 1..]) + taskMap[b[k]].estimatedHours
  {
    assert b == b[..k] + [b[k]] + b[k + 1..];
    HoursAppend(taskMap, b[..k] + [b[k]], b[k + 1..]);
    HoursAppend(taskMap, b[..k], [b[k]]);
    HoursAppend(taskMap, b[..k], b[k + 1..]);
  }

  lemma MultisetRemove(b: seq<TaskId>, k: nat)
    requires k < |b|
    ensures multiset(b[..k] + b[k + 1..]) == multiset(b) - multiset{b[k]}
  {
    assert b == b[..k] + [b[k]] + b[k + 1..];
  }

  lemma {:induction false} HoursOfIds(taskMap: map<TaskId, ScheduleTaskInput>, tasks: seq<ScheduleTaskInput>)
    requires forall i :: 0 <= i < |tasks| ==> tasks[i].id in taskMap && taskMap[tasks[i].id] == tasks[i]
    ensures forall x :: x in Ids(tasks) ==> x in taskMap
    ensures Hours(taskMap, Ids(tasks)) == InputHours(tasks)
  {
    IdsMembers(tasks);
    if tasks != [] {
      var front := tasks[..|tasks| - 1];
      HoursOfIds(taskMap, front);
      assert Ids(tasks)[..|Ids(tasks)| - 1] == Ids(front);
    }
  }

  lemma {:induction false} IdsMembers(ts: seq<ScheduleTaskInput>)
    ensures |Ids(ts)| == |ts|
    ensures forall y :: y in Ids(ts) ==> exists k :: 0 <= k < |ts| && ts[k].id == y
  {
    if ts != [] {
      var front := ts[..|ts| - 1];
      IdsMembers(front);
      forall y | y in Ids(ts) ensures exists k :: 0 <= k < |ts| && ts[k].id == y {
        if y in Ids(front) {
          var k :| 0 <= k < |front| && front[k].id == y;
          assert ts[k].id == y;
        } else {
          assert ts[|ts| - 1].id == y;
        }
      }
    }
  }

  lemma {:induction false} DistinctMultiset(s: seq<TaskId>, x: TaskId)
    requires Distinct(s)
    ensures multiset(s)[x] == if x in s then 1 else 0
  {
    if s != [] {
      var front := s[..|s| - 1];
      DistinctMultiset(front, x);
      assert s == front + [s[|s| - 1]];
    }
  }

  /** Two lists without repetition that hold the same ids are permutations
      of each other. */
  lemma SameMembersPermutation(a: seq<TaskId>, b: seq<TaskId>)
    requires Distinct(a) && Distinct(b)
    requires forall x :: x in a <==> x in b
    ensures multiset(a) == multiset(b)
  {
    forall x ensures multiset(a)[x] == multiset(b)[x] {
      DistinctMultiset(a, x);
      DistinctMultiset(b, x);
    }
  }

  /** A complete schedule's total is the sum of all estimates of the input. */
  lemma ScheduleHours(tasks: seq<ScheduleTaskInput>, order: seq<TaskId>)
    requires DistinctIds(tasks) && Distinct(order)
    requires forall x :: x in GraphOf(tasks) ==> x in order
    requires forall x :: x in order ==> x in TaskMapOf(tasks)
    ensures Hours(TaskMapOf(tasks), order) == InputHours(tasks)
  {
    var tm := TaskMapOf(tasks);
    TaskMapOfFacts(tasks);
    HoursOfIds(tm, tasks);
    SameMembersPermutation(Ids(tasks), order);
    HoursPermutation(tm, Ids(tasks), order);
  }
}
