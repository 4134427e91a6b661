/** The scheduling service: Kahn's algorithm over schedule inputs, and the
    depth-first cycle check run before a task's dependencies are stored. */
module SchedulingService {
  import opened Graphs
  import opened Dtos
  import opened KahnSpec
  import opened Models

  /** The three tables as the first loop leaves them: every id of the input
      has an empty successor list, in-degree 0 and its task. */
  method InitTables(tasks: seq<ScheduleTaskInput>)
    returns (adj: map<TaskId, seq<TaskId>>, inDegree: map<TaskId, int>,
             taskMap: map<TaskId, ScheduleTaskInput>)
    ensures taskMap == TaskMapOf(tasks)
    ensures adj.Keys == taskMap.Keys && inDegree.Keys == taskMap.Keys
    ensures forall x :: x in adj ==> adj[x] == [] && inDegree[x] == 0
  {
    adj, inDegree, taskMap := map[], map[], map[];
    for i := 0 to |tasks|
      invariant taskMap == TaskMapOf(tasks[..i])
      invariant adj.Keys == taskMap.Keys && inDegree.Keys == taskMap.Keys
      invariant forall x :: x in adj ==> adj[x] == [] && inDegree[x] == 0
    {
      var task := tasks[i];
      assert tasks[..i + 1][..i] == tasks[..i];
      adj := adj[task.id := []];
      inDegree := inDegree[task.id := 0];
      taskMap := taskMap[task.id := task];
    }
    assert tasks[..|tasks|] == tasks;
  }

  /** The inner loop of the edge pass for one task: each dependency that is
      a task gets this task appended to its successor list, and this task's
      in-degree grows by one, once per occurrence. */
  method AddEdges(task: ScheduleTaskInput, taskMap: map<TaskId, ScheduleTaskInput>,
                  adj: map<TaskId, seq<TaskId>>, inDegree: map<TaskId, int>, ghost g: DepGraph)
    returns (adj': map<TaskId, seq<TaskId>>, inDegree': map<TaskId, int>)
    requires g.Keys == taskMap.Keys && adj.Keys == taskMap.Keys && inDegree.Keys == taskMap.Keys
    requires task.id in taskMap
    ensures adj'.Keys == adj.Keys && inDegree'.Keys == inDegree.Keys
    ensures forall x :: x in adj ==> adj'[x] == adj[x] + Mentions(task.id, task.dependencies, x)
    ensures inDegree'[task.id] == inDegree[task.id] + CountPending(g, task.dependencies, {})
    ensures forall x :: x in inDegree && x != task.id ==> inDegree'[x] == inDegree[x]
  {
    adj', inDegree' := adj, inDegree;
    var deps := task.dependencies;
    for j := 0 to |deps|
      invariant adj'.Keys == adj.Keys && inDegree'.Keys == inDegree.Keys
      invariant forall x :: x in adj ==> adj'[x] == adj[x] + Mentions(task.id, deps[..j], x)
      invariant inDegree'[task.id] == inDegree[task.id] + CountPending(g, deps[..j], {})
      invariant forall x :: x in inDegree && x != task.id ==> inDegree'[x] == inDegree[x]
    {
      var depId := deps[j];
      EdgeStep(g, deps, j);
      ghost var adj0 := adj';
      if depId in taskMap {
        adj' := adj'[depId := adj'[depId] + [task.id]];
        inDegree' := inDegree'[task.id := inDegree'[task.id] + 1];
      }
      SuccessorStep(adj, adj0, adj', task.id, deps, j);
    }
    assert deps[..|deps|] == deps;
  }

  /** The edge pass (both loops): afterwards `adj[p]` lists the dependents
      of `p` in input order and each task's in-degree counts its
      dependencies that are tasks of the input. */
  method CountEdges(tasks: seq<ScheduleTaskInput>, taskMap: map<TaskId, ScheduleTaskInput>,
                    adj: map<TaskId, seq<TaskId>>, inDegree: map<TaskId, int>)
    returns (adj': map<TaskId, seq<TaskId>>, inDegree': map<TaskId, int>)
    requires DistinctIds(tasks) && taskMap == TaskMapOf(tasks)
    requires adj.Keys == taskMap.Keys && inDegree.Keys == taskMap.Keys
    requires forall x :: x in adj ==> adj[x] == [] && inDegree[x] == 0
    ensures adj'.Keys == taskMap.Keys && inDegree'.Keys == taskMap.Keys
    ensures forall x :: x in adj' ==> adj'[x] == Dependents(tasks, x)
    ensures forall x :: x in inDegree' ==>
      inDegree'[x] == CountPending(GraphOf(tasks), GraphOf(tasks)[x], {})
  {
    ghost var g := GraphOf(tasks);
    IdsAreKeys(tasks);
    assert g.Keys == taskMap.Keys;
    adj', inDegree' := adj, inDegree;
    for i := 0 to |tasks|
      invariant adj'.Keys == taskMap.Keys && inDegree'.Keys == taskMap.Keys
      invariant forall x :: x in adj' ==> adj'[x] == Dependents(tasks[..i], x)
      invariant forall k :: 0 <= k < |tasks| ==>
        inDegree'[tasks[k].id] == if k < i then CountPending(g, tasks[k].dependencies, {}) else 0
    {
      ghost var adj0 := adj';
      adj', inDegree' := AddEdges(tasks[i], taskMap, adj', inDegree', g);
      forall x | x in adj' ensures adj'[x] == Dependents(tasks[..i + 1], x) {
        DependentsSnoc(tasks, i, x);
      }
      forall k | 0 <= k < |tasks|
        ensures inDegree'[tasks[k].id] == if k < i + 1 then CountPending(g, tasks[k].dependencies, {}) else 0
      {
        if k != i {
          assert tasks[k].id != tasks[i].id;
        }
      }
    }
    assert tasks[..|tasks|] == tasks;
    InDegreeByKey(tasks, inDegree');
  }

  lemma DependentsSnoc(tasks: seq<ScheduleTaskInput>, i: nat, x: TaskId)
    requires i < |tasks|
    ensures Dependents(tasks[..i + 1], x) ==
      Dependents(tasks[..i], x) + Mentions(tasks[i].id, tasks[i].dependencies, x)
  {
    assert tasks[..i + 1][..i] == tasks[..i];
  }

  lemma InDegreeByKey(tasks: seq<ScheduleTaskInput>, inDegree: map<TaskId, int>)
    requires DistinctIds(tasks) && inDegree.Keys == TaskMapOf(tasks).Keys
    requires forall k :: 0 <= k < |tasks| ==>
      tasks[k].id in inDegree && inDegree[tasks[k].id] == CountPending(GraphOf(tasks), tasks[k].dependencies, {})
    ensures forall x :: x in inDegree ==>
      inDegree[x] == CountPending(GraphOf(tasks), GraphOf(tasks)[x], {})
  {
    TaskMapOfFacts(tasks);
    TaskMapKeys(tasks);
    forall x | x in inDegree ensures inDegree[x] == CountPending(GraphOf(tasks), GraphOf(tasks)[x], {}) {
      var k :| 0 <= k < |tasks| && tasks[k].id == x;
    }
  }

  /** The seeding pass: the queue starts with the tasks of in-degree 0, in input order. */
  method SeedQueue(tasks: seq<ScheduleTaskInput>, inDegree: map<TaskId, int>) returns (queue: seq<TaskId>)
    requires DistinctIds(tasks)
    requires forall x :: x in GraphOf(tasks) ==>
      x in inDegree && inDegree[x] == CountPending(GraphOf(tasks), GraphOf(tasks)[x], {})
    ensures queue == Seeds(GraphOf(tasks), tasks)
  {
    ghost var g := GraphOf(tasks);
    TaskMapOfFacts(tasks);
    queue := [];
    for i := 0 to |tasks|
      invariant queue == Seeds(g, tasks[..i])
    {
      assert tasks[..i + 1][..i] == tasks[..i];
      assert tasks[..i + 1][i] == tasks[i];
      assert g[tasks[i].id] == tasks[i].dependencies;
      if inDegree[tasks[i].id] == 0 {
        queue := queue + [tasks[i].id];
      }
    }
    assert tasks[..|tasks|] == tasks;
  }

  const CycleMessage: string := "Circular dependency detected. Cannot generate schedule."

  /** Kahn's algorithm over the input list. On success the response holds
      the titles of all tasks, each after every dependency that is also in
      the input, in first-in-first-out order, and the sum of all estimates;
      it fails, with an empty order, 0 and a fixed message, exactly when the
      dependencies among the given tasks form a cycle. The ghost `order` is
      the sequence of ids the main loop placed. */
  method GetSchedule(tasks: seq<ScheduleTaskInput>) returns (response: ScheduleResponseDto, ghost order: seq<TaskId>)
    requires DistinctIds(tasks)
    ensures response.errorMessage.None? <==> !HasCycle(GraphOf(tasks))
    ensures Distinct(order) && DependenciesFirst(GraphOf(tasks), order)
    ensures order == Seeds(GraphOf(tasks), tasks) + Released(tasks, order)
    ensures response.errorMessage.None? ==>
      && (forall x :: x in GraphOf(tasks) ==> x in order)
      && |response.recommendedOrder| == |tasks|
      && response.recommendedOrder == Titles(TaskMapOf(tasks), order)
      && response.totalEstimatedHours == InputHours(tasks)
    ensures response.errorMessage.Some? ==> response == ScheduleResponseDto([], 0, Some(CycleMessage))
  {
    var adj, inDegree, taskMap := InitTables(tasks);
    adj, inDegree := CountEdges(tasks, taskMap, adj, inDegree);
    var queue := SeedQueue(tasks, inDegree);
    ghost var g := GraphOf(tasks);
    assert g.Keys == taskMap.Keys;
    KahnInit(tasks);
    order := [];
    assert SetOf(order) == {};
    var orderedList: seq<string> := [];
    var totalHours := 0;
    while |queue| > 0
      invariant Progress(tasks, inDegree, order, queue, orderedList, totalHours)
      invariant |order| <= |tasks|
      decreases |tasks| - |order|
    {
      inDegree, queue, orderedList, totalHours, order :=
        PlaceHead(tasks, taskMap, adj, inDegree, queue, orderedList, totalHours, order);
    }
    ScheduleComplete(tasks, inDegree, order, orderedList, totalHours);
    if |orderedList| == |tasks| {
      response := ScheduleResponseDto(orderedList, totalHours, None);
    } else {
      response := ScheduleResponseDto([], 0, Some(CycleMessage));
    }
  }

  /** The state of the main loop: the Kahn state of the placed ids and the
      queue, every in-degree counting the dependencies still unplaced, and
      the titles and hours of the placed tasks. */
  ghost predicate Progress(tasks: seq<ScheduleTaskInput>, inDegree: map<TaskId, int>, order: seq<TaskId>,
                           queue: seq<TaskId>, orderedList: seq<string>, totalHours: int)
  {
    var g := GraphOf(tasks);
    && KahnState(tasks, order, queue)
    && inDegree.Keys == g.Keys
    && (forall x :: x in g ==> inDegree[x] == CountPending(g, g[x], SetOf(order)))
    && (forall x :: x in order ==> x in TaskMapOf(tasks))
    && orderedList == Titles(TaskMapOf(tasks), order)
    && totalHours == Hours(TaskMapOf(tasks), order)
  }

  /** One turn of the main loop: dequeue the head, record its
      title and hours, and release its dependents. */
  method PlaceHead(tasks: seq<ScheduleTaskInput>, taskMap: map<TaskId, ScheduleTaskInput>,
                   adj: map<TaskId, seq<TaskId>>, inDegree: map<TaskId, int>, queue: seq<TaskId>,
                   orderedList: seq<string>, totalHours: int, ghost order: seq<TaskId>)
    returns (inDegree': map<TaskId, int>, queue': seq<TaskId>, orderedList': seq<string>,
             totalHours': int, ghost order': seq<TaskId>)
    requires DistinctIds(tasks) && taskMap == TaskMapOf(tasks)
    requires adj.Keys == taskMap.Keys && forall x :: x in adj ==> adj[x] == Dependents(tasks, x)
    requires Progress(tasks, inDegree, order, queue, orderedList, totalHours) && queue != []
    ensures Progress(tasks, inDegree', order', queue', orderedList', totalHours')
    ensures order' == order + [queue[0]] && |order'| <= |tasks|
  {
    ghost var g := GraphOf(tasks);
    KahnBound(tasks, order, queue);
    var taskId := queue[0];
    queue' := queue[1..];
    var task := taskMap[taskId];
    orderedList' := orderedList + [task.title];
    totalHours' := totalHours + task.estimatedHours;
    PrepareRelease(tasks, order, queue);
    inDegree', queue' := ReleaseSuccessors(adj[taskId], inDegree, queue', g, SetOf(order + [taskId]));
    KahnStep(tasks, order, queue);
    PlacedTotals(taskMap, order, taskId);
    order' := order + [taskId];
  }

  /** When the queue runs dry, every task was placed exactly when the graph
      has no cycle, and then the titles and hours cover all of the input. */
  lemma ScheduleComplete(tasks: seq<ScheduleTaskInput>, inDegree: map<TaskId, int>, order: seq<TaskId>,
                         orderedList: seq<string>, totalHours: int)
    requires DistinctIds(tasks) && Progress(tasks, inDegree, order, [], orderedList, totalHours)
    ensures Distinct(order) && DependenciesFirst(GraphOf(tasks), order)
    ensures order == Seeds(GraphOf(tasks), tasks) + Released(tasks, order)
    ensures |orderedList| == |tasks| <==> !HasCycle(GraphOf(tasks))
    ensures |orderedList| == |tasks| ==>
      && (forall x :: x in GraphOf(tasks) ==> x in order)
      && totalHours == InputHours(tasks)
  {
    KahnDone(tasks, order);
    assert order + [] == order;
    if |orderedList| == |tasks| {
      ScheduleHours(tasks, order);
    }
  }

  lemma PlacedTotals(taskMap: map<TaskId, ScheduleTaskInput>, order: seq<TaskId>, p: TaskId)
    requires forall x :: x in order ==> x in taskMap
    requires p in taskMap
    ensures forall x :: x in order + [p] ==> x in taskMap
    ensures Titles(taskMap, order + [p]) == Titles(taskMap, order) + [taskMap[p].title]
    ensures Hours(taskMap, order + [p]) == Hours(taskMap, order) + taskMap[p].estimatedHours
  {
    assert (order + [p])[..|order|] == order;
  }

  /** Placing the head of the queue leaves its successors' in-degrees as the
      successor walk expects them. */
  lemma PrepareRelease(tasks: seq<ScheduleTaskInput>, order: seq<TaskId>, queue: seq<TaskId>)
    requires DistinctIds(tasks) && KahnState(tasks, order, queue) && queue != []
    ensures queue[0] in GraphOf(tasks) && queue[0] !in order
    ensures forall x :: x in Dependents(tasks, queue[0]) ==> x in GraphOf(tasks)
    ensures forall x :: x in GraphOf(tasks) ==>
      CountPending(GraphOf(tasks), GraphOf(tasks)[x], SetOf(order)) ==
      CountPending(GraphOf(tasks), GraphOf(tasks)[x], SetOf(order + [queue[0]])) +
      multiset(Dependents(tasks, queue[0]))[x]
  {
    HeadIsReady(tasks, order, queue);
    DependentsMembers(tasks, queue[0]);
    PlaceSplitsCount(tasks, order, queue[0]);
  }

  /** The successor walk: after `placed` grows by the dequeued task, walk its
      successor list, decrement each successor's in-degree once per entry
      and enqueue it when the count reaches 0, which happens at its last
      entry once none of its dependencies is pending. */
  method ReleaseSuccessors(succ: seq<TaskId>, inDegree: map<TaskId, int>, queue: seq<TaskId>,
                           ghost g: DepGraph, ghost placed: set<TaskId>)
    returns (inDegree': map<TaskId, int>, queue': seq<TaskId>)
    requires inDegree.Keys == g.Keys && forall x :: x in succ ==> x in g
    requires forall x :: x in g ==> inDegree[x] == CountPending(g, g[x], placed) + multiset(succ)[x]
    ensures inDegree'.Keys == g.Keys
    ensures forall x :: x in g ==> inDegree'[x] == CountPending(g, g[x], placed)
    ensures queue' == queue + Freed(g, succ, |succ|, placed)
  {
    inDegree', queue' := inDegree, queue;
    var k := 0;
    assert succ[k..] == succ;
    while k < |succ|
      invariant 0 <= k <= |succ|
      invariant inDegree'.Keys == g.Keys
      invariant forall x :: x in g ==> inDegree'[x] == CountPending(g, g[x], placed) + multiset(succ[k..])[x]
      invariant queue' == queue + Freed(g, succ, k, placed)
    {
      inDegree', queue' := ReleaseEntry(succ, k, inDegree', queue', g, placed, queue);
      k := k + 1;
    }
    assert multiset(succ[k..]) == multiset{};
  }

  /** One entry of the successor walk: decrement the entry's
      in-degree and enqueue it when the count reaches 0; this keeps the walk's
      invariant. */
  method ReleaseEntry(succ: seq<TaskId>, k: nat, inDegree: map<TaskId, int>, q: seq<TaskId>,
                      ghost g: DepGraph, ghost placed: set<TaskId>, ghost queue: seq<TaskId>)
    returns (inDegree': map<TaskId, int>, q': seq<TaskId>)
    requires k < |succ| && succ[k] in g && inDegree.Keys == g.Keys
    requires forall x :: x in g ==> inDegree[x] == CountPending(g, g[x], placed) + multiset(succ[k..])[x]
    requires q == queue + Freed(g, succ, k, placed)
    ensures inDegree'.Keys == g.Keys
    ensures forall x :: x in g ==> inDegree'[x] == CountPending(g, g[x], placed) + multiset(succ[k + 1..])[x]
    ensures q' == queue + Freed(g, succ, k + 1, placed)
  {
    var neighborId := succ[k];
    var degree := inDegree[neighborId] - 1;
    inDegree' := inDegree[neighborId := degree];
    q' := q;
    if degree == 0 {
      q' := q' + [neighborId];
    }
    DecrementStep(g, succ, k, placed, inDegree, inDegree');
    FreedNext(g, succ, k, placed);
    AppendAssoc(queue, Freed(g, succ, k, placed), q'[|q|..]);
  }

  lemma FreedNext(g: DepGraph, succ: seq<TaskId>, k: nat, placed: set<TaskId>)
    requires k < |succ|
    ensures Freed(g, succ, k + 1, placed) == Freed(g, succ, k, placed) +
      if succ[k] !in succ[k + 1..] && succ[k] in g && CountPending(g, g[succ[k]], placed) == 0
      then [succ[k]] else []
  {
  }

  /** One successor entry: its in-degree drops by one, and reaches 0 exactly
      when this is its last entry and none of its dependencies is pending. */
  lemma DecrementStep(g: DepGraph, succ: seq<TaskId>, k: nat, placed: set<TaskId>,
                      inDegree: map<TaskId, int>, inDegree': map<TaskId, int>)
    requires k < |succ| && succ[k] in g && inDegree.Keys == g.Keys
    requires forall x :: x in g ==> inDegree[x] == CountPending(g, g[x], placed) + multiset(succ[k..])[x]
    requires inDegree' == inDegree[succ[k] := inDegree[succ[k]] - 1]
    ensures inDegree'.Keys == g.Keys
    ensures forall x :: x in g ==> inDegree'[x] == CountPending(g, g[x], placed) + multiset(succ[k + 1..])[x]
    ensures inDegree'[succ[k]] == 0 <==>
      succ[k] !in succ[k + 1..] && CountPending(g, g[succ[k]], placed) == 0
  {
    assert succ[k..] == [succ[k]] + succ[k + 1..];
  }

  /** One dependency of the edge pass extends the successor lists as the
      loop invariant says. */
  lemma SuccessorStep(adj: map<TaskId, seq<TaskId>>, adj0: map<TaskId, seq<TaskId>>,
                      adj1: map<TaskId, seq<TaskId>>, id: TaskId, deps: seq<TaskId>, j: nat)
    requires j < |deps| && adj0.Keys == adj.Keys
    requires forall x :: x in adj ==> adj0[x] == adj[x] + Mentions(id, deps[..j], x)
    requires adj1 == if deps[j] in adj then adj0[deps[j] := adj0[deps[j]] + [id]] else adj0
    ensures adj1.Keys == adj.Keys
    ensures forall x :: x in adj ==> adj1[x] == adj[x] + Mentions(id, deps[..j + 1], x)
  {
    assert deps[..j + 1][..j] == deps[..j];
    forall x | x in adj ensures adj1[x] == adj[x] + Mentions(id, deps[..j + 1], x) {
      AppendAssoc(adj[x], Mentions(id, deps[..j], x), if deps[j] == x then [id] else []);
    }
  }

  lemma AppendAssoc(a: seq<TaskId>, b: seq<TaskId>, c: seq<TaskId>)
    ensures (a + b) + c == a + (b + c)
  {
  }

  lemma EdgeStep(g: DepGraph, deps: seq<TaskId>, j: nat)
    requires j < |deps|
    ensures CountPending(g, deps[..j + 1], {}) == CountPending(g, deps[..j], {}) + if deps[j] in g then 1 else 0
  {
    assert deps[..j + 1] == deps[..j] + [deps[j]];
    assert deps[..j + 1][..j] == deps[..j];
  }

  /** The depth-first search state: the recursion stack is the walk the
      search is on, every visited task is either on it or finished, and
      the finished tasks, in finishing order, come after their dependencies. */
  ghost predicate SearchState(g: DepGraph, visited: set<TaskId>, recursionStack: set<TaskId>,
                              path: seq<TaskId>, done: seq<TaskId>) {
    && recursionStack == SetOf(path)
    && (path != [] ==> IsPath(g, path))
    && visited == SetOf(done) + recursionStack
    && DependenciesFirst(g, done)
  }

  /** Entering a task pushes it on the stack and marks it visited. */
  lemma EnterTask(g: DepGraph, visited: set<TaskId>, recursionStack: set<TaskId>,
                  path: seq<TaskId>, done: seq<TaskId>, t: TaskId)
    requires SearchState(g, visited, recursionStack, path, done)
    requires t in g && (path == [] || (path[|path| - 1] in g && t in g[path[|path| - 1]]))
    ensures SearchState(g, visited + {t}, recursionStack + {t}, path + [t], done)
  {
    PathExtend(g, path, t);
    assert SetOf(path + [t]) == SetOf(path) + {t};
  }

  /** Leaving a task whose dependencies are all finished pops it from the
      stack and finishes it. */
  lemma LeaveTask(g: DepGraph, visited: set<TaskId>, recursionStack: set<TaskId>,
                  path: seq<TaskId>, done: seq<TaskId>, t: TaskId)
    requires SearchState(g, visited, recursionStack, path + [t], done)
    requires t in g && t !in path && forall d :: d in g[t] && d in g ==> d in done
    ensures SearchState(g, visited, recursionStack - {t}, path, done + [t])
  {
    assert SetOf(path + [t]) == SetOf(path) + {t};
    assert SetOf(done + [t]) == SetOf(done) + {t};
    SlicePath(g, path + [t], 0, |path| + 1);
    assert (path + [t])[|path|] == t;
    DependenciesFirstExtend(g, done, t);
    if path != [] {
      SlicePath(g, path + [t], 0, |path|);
      assert (path + [t])[0..|path|] == path;
    }
  }

  /** After the search returns from one more dependency without finding a
      cycle, the loop's bookkeeping still holds one position further on. */
  lemma AfterDependency(g: DepGraph, deps: seq<TaskId>, k: nat, visited: set<TaskId>, done: seq<TaskId>,
                        visited1: set<TaskId>, done1: seq<TaskId>, visited2: set<TaskId>, done2: seq<TaskId>)
    requires k < |deps|
    requires visited <= visited1 <= visited2 && done <= done1 <= done2
    requires forall d :: d in deps[..k] && d in g ==> d in done1
    requires deps[k] in g ==> deps[k] in done2
    ensures visited <= visited2 && done <= done2
    ensures forall d :: d in deps[..k + 1] && d in g ==> d in done2
  {
    assert deps[..k + 1] == deps[..k] + [deps[k]];
    assert forall x :: x in done1 ==> x in done2;
  }

  lemma UnvisitedShrinks(keys: set<TaskId>, visited: set<TaskId>, visited': set<TaskId>, t: TaskId)
    requires t in keys && visited + {t} <= visited'
    ensures |keys - visited'| <= |keys - visited|
    ensures t !in visited ==> |keys - visited'| < |keys - visited|
  {
    SubsetCard(keys - visited', keys - visited);
    if t !in visited {
      SubsetCard(keys - visited', keys - visited - {t});
    }
  }

  /** Depth-first search from `taskId`. It reports a cycle exactly when it
      meets a dependency still on the recursion stack; otherwise it
      finishes `taskId` and every task reachable from it, leaves the stack
      as it found it and only adds to `visited`. An id that is not a key is
      skipped without being visited. */
  method DetectCycleDfs(taskId: TaskId, taskMap: map<TaskId, TaskItem>,
                        visited: set<TaskId>, recursionStack: set<TaskId>,
                        ghost g: DepGraph, ghost path: seq<TaskId>, ghost done: seq<TaskId>)
    returns (found: bool, visited': set<TaskId>, recursionStack': set<TaskId>, ghost done': seq<TaskId>)
    requires g == Snapshot(taskMap)
    requires SearchState(g, visited, recursionStack, path, done)
    requires path == [] || (path[|path| - 1] in g && taskId in g[path[|path| - 1]] && taskId !in visited)
    ensures found ==> HasCycle(g)
    ensures !found ==> recursionStack' == recursionStack && visited <= visited' && done <= done'
    ensures !found ==> SearchState(g, visited', recursionStack', path, done')
    ensures !found && taskId in g ==> taskId in done'
    ensures taskId !in taskMap ==>
      !found && visited' == visited && recursionStack' == recursionStack && done' == done
    decreases |taskMap.Keys - visited|, if taskId in visited then 1 else 0
  {
    if taskId !in taskMap {
      return false, visited, recursionStack, done;
    }
    ghost var path' := path + [taskId];
    EnterTask(g, visited, recursionStack, path, done, taskId);
    visited' := visited + {taskId};
    recursionStack' := recursionStack + {taskId};
    done' := done;
    var deps := taskMap[taskId].dependencies;
    assert deps == g[taskId];
    var k := 0;
    while k < |deps|
      invariant 0 <= k <= |deps|
      invariant visited + {taskId} <= visited' && done <= done'
      invariant SearchState(g, visited', recursionStack', path', done')
      invariant forall d :: d in deps[..k] && d in g ==> d in done'
    {
      var depId := deps[k];
      if depId !in visited' {
        UnvisitedShrinks(taskMap.Keys, visited, visited', taskId);
        ghost var visited1, done1 := visited', done';
        found, visited', recursionStack', done' := DetectCycleDfs(depId, taskMap, visited', recursionStack', g, path', done');
        if found {
          return;
        }
        AfterDependency(g, deps, k, visited + {taskId}, done, visited1, done1, visited', done');
      } else if depId in recursionStack' {
        CycleThroughPath(g, path', depId);
        return true, visited', recursionStack', done';
      } else {
        AfterDependency(g, deps, k, visited + {taskId}, done, visited', done', visited', done');
      }
      k := k + 1;
    }
    assert deps[..k] == deps;
    LeaveTask(g, visited', recursionStack', path, done', taskId);
    recursionStack' := recursionStack' - {taskId};
    done' := done' + [taskId];
    found := false;
  }

  /** Starts a search from every task of the dictionary, one after the
      other, sharing `visited` and the stack; reports whether any of them
      met a cycle. `roots` is the dictionary's enumeration of its values. */
  method SearchAllTasks(taskMap: map<TaskId, TaskItem>, roots: seq<TaskItem>) returns (found: bool)
    requires forall x :: x in taskMap ==> taskMap[x].id == x && taskMap[x] in roots
    ensures found <==> HasCycle(Snapshot(taskMap))
  {
    ghost var g := Snapshot(taskMap);
    var visited: set<TaskId> := {};
    var recursionStack: set<TaskId> := {};
    ghost var done: seq<TaskId> := [];
    for i := 0 to |roots|
      invariant recursionStack == {}
      invariant SearchState(g, visited, recursionStack, [], done)
      invariant forall j :: 0 <= j < i && roots[j].id in g ==> roots[j].id in done
    {
      ghost var done0 := done;
      found, visited, recursionStack, done := DetectCycleDfs(roots[i].id, taskMap, visited, recursionStack, g, [], done);
      if found {
        return;
      }
      assert forall x :: x in done0 ==> x in done;
    }
    forall x | x in g ensures x in done {
      var j :| 0 <= j < |roots| && roots[j] == taskMap[x];
    }
    OrderedGraphIsAcyclic(g, done);
    found := false;
  }

  /** Builds the id-keyed dictionary of the project's tasks and puts the
      candidate dependency list in it: by writing it into the existing
      task object with that id, or by adding a new task when there is none.
      `roots` enumerates the dictionary's values in insertion order. */
  method OverlayCandidate(currentTaskId: TaskId, newDependencies: seq<TaskId>,
                          allTasksInProject: seq<TaskItem>)
    returns (taskMap: map<TaskId, TaskItem>, roots: seq<TaskItem>)
    requires UniqueIds(allTasksInProject)
    modifies set t | t in allTasksInProject
    ensures Snapshot(taskMap) == old(ProjectGraph(allTasksInProject))[currentTaskId := newDependencies]
    ensures forall x :: x in taskMap ==> taskMap[x].id == x && taskMap[x] in roots
    ensures forall t :: t in allTasksInProject ==>
      t.dependencies == if t.id == currentTaskId then newDependencies else old(t.dependencies)
  {
    taskMap := ItemMap(allTasksInProject);
    ItemMapEntries(allTasksInProject);
    roots := allTasksInProject;
    if currentTaskId in taskMap {
      taskMap[currentTaskId].dependencies := newDependencies;
    } else {
      var item := new TaskItem(currentTaskId, newDependencies);
      SnapshotAfterInsert(taskMap, currentTaskId, item);
      taskMap := taskMap[currentTaskId := item];
      roots := roots + [item];
    }
  }

  /** Checks whether giving `currentTaskId` the dependency list
      `newDependencies` would close a cycle among the project's tasks. The
      candidate list is written into the caller's own task object (or a
      new node is added when the id is not in the list) and the write is
      never undone: whatever the answer, the task keeps the new list. */
  method HasCircularDependency(currentTaskId: TaskId, newDependencies: seq<TaskId>,
                               allTasksInProject: seq<TaskItem>) returns (cyclic: bool)
    requires UniqueIds(allTasksInProject)
    modifies set t | t in allTasksInProject
    ensures cyclic <==> HasCycle(old(ProjectGraph(allTasksInProject))[currentTaskId := newDependencies])
    ensures forall t :: t in allTasksInProject ==>
      t.dependencies == if t.id == currentTaskId then newDependencies else old(t.dependencies)
  {
    var taskMap, roots := OverlayCandidate(currentTaskId, newDependencies, allTasksInProject);
    ghost var overlay := Snapshot(taskMap);
    cyclic := SearchAllTasks(taskMap, roots);
    assert Snapshot(taskMap) == overlay;
  }

  /** The check as the update and create handlers need it: the candidate
      list goes into a new node that replaces the task's entry in the
      dictionary, so no task of the project is written to. */
  method CheckCandidate(currentTaskId: TaskId, newDependencies: seq<TaskId>,
                        allTasksInProject: seq<TaskItem>) returns (cyclic: bool)
    ensures cyclic <==> HasCycle(ProjectGraph(allTasksInProject)[currentTaskId := newDependencies])
  {
    var taskMap := ItemMap(allTasksInProject);
    var item := new TaskItem(currentTaskId, newDependencies);
    SnapshotAfterInsert(taskMap, currentTaskId, item);
    taskMap := taskMap[currentTaskId := item];
    cyclic := SearchAllTasks(taskMap, allTasksInProject + [item]);
  }

  /** Task A depends on B; the update that would make B depend on A is
      rejected, yet B keeps the list [A] and the project now holds the cycle
      A -> B -> A. */
  method RejectedUpdateKeepsCycle() returns (cyclic: bool, a: TaskItem, b: TaskItem)
    ensures cyclic
    ensures a.id == "A" && a.dependencies == ["B"] && b.id == "B" && b.dependencies == ["A"]
    ensures HasCycle(ProjectGraph([a, b]))
  {
    a := new TaskItem("A", ["B"]);
    b := new TaskItem("B", []);
    ItemMapEntries([a, b]);
    assert [a, b][0] == a && [a, b][1] == b;
    ghost var before := ProjectGraph([a, b]);
    assert "A" in before && "B" in before && before["A"] == ["B"];
    cyclic := HasCircularDependency("B", ["A"], [a, b]);
    ghost var after := ProjectGraph([a, b]);
    assert "A" in after && "B" in after && after["A"] == ["B"] && after["B"] == ["A"];
    MutualDependencyIsCycle(after, "A", "B");
    MutualDependencyIsCycle(before["B" := ["A"]], "A", "B");
  }

  /** Tasks A and B have no dependencies and C depends on both. */
  function TieBreakTasks(): seq<ScheduleTaskInput> {
    [ScheduleTaskInput("A", "Design", 2, []),
     ScheduleTaskInput("B", "Build", 3, []),
     ScheduleTaskInput("C", "Ship", 1, ["A", "B"])]
  }

  lemma TieBreakMap()
    ensures TaskMapOf(TieBreakTasks()) ==
      map["A" := TieBreakTasks()[0], "B" := TieBreakTasks()[1], "C" := TieBreakTasks()[2]]
  {
    var t := TieBreakTasks();
    assert t[..2] == [t[0], t[1]] && [t[0], t[1]][..1] == [t[0]] && [t[0]][..0] == [];
    assert TaskMapOf([t[0]]) == map["A" := t[0]];
    assert TaskMapOf([t[0], t[1]]) == map["A" := t[0], "B" := t[1]];
  }

  lemma TieBreakTables()
    ensures DistinctIds(TieBreakTasks())
    ensures GraphOf(TieBreakTasks()) == map["A" := [], "B" := [], "C" := ["A", "B"]]
    ensures Seeds(GraphOf(TieBreakTasks()), TieBreakTasks()) == ["A", "B"]
    ensures InputHours(TieBreakTasks()) == 6
  {
    var t := TieBreakTasks();
    TieBreakMap();
    var g := GraphOf(t);
    assert g.Keys == {"A", "B", "C"};
    assert g == map["A" := [], "B" := [], "C" := ["A", "B"]];
    assert t[..2] == [t[0], t[1]] && [t[0], t[1]][..1] == [t[0]] && [t[0]][..0] == [];
    assert ["A", "B"][..1] == ["A"] && ["A"][..0] == [];
    assert CountPending(g, ["A"], {}) == 1;
    assert CountPending(g, ["A", "B"], {}) == 2;
    assert Seeds(g, [t[0]]) == ["A"];
    assert Seeds(g, [t[0], t[1]]) == ["A", "B"];
    assert InputHours([t[0]]) == 2;
    assert InputHours([t[0], t[1]]) == 5;
  }

  lemma TieBreakAcyclic()
    ensures !HasCycle(GraphOf(TieBreakTasks()))
  {
    TieBreakTables();
    var g := GraphOf(TieBreakTasks());
    assert DependenciesFirst(g, ["A", "B", "C"]) by {
      assert ["A", "B", "C"][..2] == ["A", "B"];
    }
    OrderedGraphIsAcyclic(g, ["A", "B", "C"]);
  }

  /** The only order that starts with the ready tasks A and B and holds every
      task once is A, B, C. */
  lemma TieBreakOrder(order: seq<TaskId>)
    requires Distinct(order) && |order| == 3
    requires order == Seeds(GraphOf(TieBreakTasks()), TieBreakTasks()) + Released(TieBreakTasks(), order)
    requires forall x :: x in GraphOf(TieBreakTasks()) ==> x in order
    ensures order == ["A", "B", "C"]
  {
    TieBreakTables();
    assert order[..2] == ["A", "B"];
    assert "C" in order;
  }

  lemma TieBreakTitles()
    ensures TaskMapOf(TieBreakTasks()).Keys == {"A", "B", "C"}
    ensures Titles(TaskMapOf(TieBreakTasks()), ["A", "B", "C"]) == ["Design", "Build", "Ship"]
  {
    TieBreakMap();
    var r := Titles(TaskMapOf(TieBreakTasks()), ["A", "B", "C"]);
    assert r[0] == "Design" && r[1] == "Build" && r[2] == "Ship";
  }

  /** Ready tasks are scheduled in input order: with A and B ready and C
      waiting on both, the schedule is A, B, C. */
  method TieBreakSchedule() returns (response: ScheduleResponseDto)
    ensures response == ScheduleResponseDto(["Design", "Build", "Ship"], 6, None)
  {
    var tasks := TieBreakTasks();
    TieBreakTables();
    TieBreakAcyclic();
    ghost var order;
    response, order := GetSchedule(tasks);
    TieBreakOrder(order);
    TieBreakTitles();
  }

  /** The scheduler's input and the project's stored tasks describe the
      same tasks: the same ids and dependency lists, position by position. */
  ghost predicate SameTasks(tasks: seq<ScheduleTaskInput>, items: seq<TaskItem>)
    reads set t | t in items
  {
    |tasks| == |items| &&
    forall i :: 0 <= i < |tasks| ==>
      tasks[i].id == items[i].id && tasks[i].dependencies == items[i].dependencies
  }

  /** Both services build the same dependency graph from the same tasks. */
  lemma {:induction false} SameGraph(tasks: seq<ScheduleTaskInput>, items: seq<TaskItem>)
    requires SameTasks(tasks, items)
    ensures GraphOf(tasks) == ProjectGraph(items)
  {
    if tasks != [] {
      var n := |tasks| - 1;
      assert SameTasks(tasks[..n], items[..n]);
      SameGraph(tasks[..n], items[..n]);
      var tm, im := TaskMapOf(tasks[..n]), ItemMap(items[..n]);
      assert GraphOf(tasks) == GraphOf(tasks[..n])[tasks[n].id := tasks[n].dependencies];
      assert ProjectGraph(items) == Snapshot(im[items[n].id := items[n]]);
      SnapshotAfterInsert(im, items[n].id, items[n]);
    }
  }

  /** Re-checking a task's own stored list with the cycle check answers
      exactly what the schedule reports: a cycle message if and only if the
      check finds a cycle. */
  method ChecksAgree(tasks: seq<ScheduleTaskInput>, items: seq<TaskItem>)
    returns (response: ScheduleResponseDto, cyclic: bool)
    requires DistinctIds(tasks) && SameTasks(tasks, items) && |items| > 0
    ensures response.errorMessage.Some? <==> cyclic
  {
    ghost var order;
    response, order := GetSchedule(tasks);
    cyclic := CheckCandidate(items[0].id, items[0].dependencies, items);
    RecheckSameGraph(tasks, items);
  }

  /** The same agreement with the check as the service writes it, which
      leaves the re-checked task holding its own list again. */
  method ChecksAgreeInPlace(tasks: seq<ScheduleTaskInput>, items: seq<TaskItem>)
    returns (response: ScheduleResponseDto, cyclic: bool)
    requires DistinctIds(tasks) && SameTasks(tasks, items) && |items| > 0
    modifies set t | t in items
    ensures response.errorMessage.Some? <==> cyclic
  {
    ghost var order;
    response, order := GetSchedule(tasks);
    RecheckSameGraph(tasks, items);
    cyclic := HasCircularDependency(items[0].id, items[0].dependencies, items);
  }

  /** Overlaying a stored task's own list changes nothing, so the graph the
      check searches is the scheduler's graph. */
  lemma RecheckSameGraph(tasks: seq<ScheduleTaskInput>, items: seq<TaskItem>)
    requires DistinctIds(tasks) && SameTasks(tasks, items) && |items| > 0
    ensures UniqueIds(items)
    ensures ProjectGraph(items)[items[0].id := items[0].dependencies] == GraphOf(tasks)
  {
    SameGraph(tasks, items);
    assert UniqueIds(items) by {
      forall i, j | 0 <= i < j < |items| ensures items[i].id != items[j].id {
        assert tasks[i].id == items[i].id && tasks[j].id == items[j].id;
      }
    }
    ItemMapEntries(items);
    assert ProjectGraph(items)[items[0].id := items[0].dependencies] == ProjectGraph(items);
  }
}
