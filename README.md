# Project scheduler: dependency ordering and cycle checks

This project models the scheduling core of the ProjectManager API. The
service does two things with a project's tasks:

- `GetSchedule` orders the tasks so that each one comes after the tasks it
  depends on. It uses Kahn's algorithm, with a first-in first-out queue seeded
  in input order. The result lists the task titles and the total of their
  estimated hours. If the order cannot hold every task, the result is empty
  with the message "Circular dependency detected. Cannot generate schedule."
- `HasCircularDependency` answers whether giving one task a candidate
  dependency list would close a cycle. It builds an id-keyed dictionary of the
  project's tasks and puts the candidate list in it. It then runs a
  depth-first search from every task, keeping a visited set and a
  recursion-stack set.

Dependencies that name no task of the input are ignored by both algorithms. A
task that lists itself is a cycle.

Modules:

- `Graphs` (`graph.dfy`): dependency graphs, paths and cycles. It proves two
  facts. An order that puts every task after its dependencies rules out a
  cycle. A non-empty set of tasks that all wait on tasks of the set contains
  one.
- `KahnSpec` (`kahn.dfy`): functions over the input list that say what each
  table of `GetSchedule` holds (`TaskMapOf`, `GraphOf`, `Dependents`,
  `CountPending`, `Seeds`, `Freed`, `Released`). It also defines the main
  loop's invariant `KahnState` and proves the lemmas about it.
- `Models` (`models.dfy`): the stored `TaskItem` class, reduced to the two
  properties the cycle check touches. The id is constant and the dependency
  list is mutable.
- `Dtos` (`dtos.dfy`): `ScheduleResponseDto`.
- `SchedulingService` (`service.dfy`): the two operations as imperative
  methods with loop invariants. Each is proved against the functions above.

The scheduler's dictionaries become `map` values that the methods reassign.
Its queue is a `seq`. The search's hash sets are `set` values passed in and
out of the recursive call. The one place where the source writes into an
object the caller owns is the task's `Dependencies` list. It is a mutable
field of the `TaskItem` class, and the methods that write it carry a
`modifies` clause.

## Model

| member | source | states |
|---|---|---|
| `Models.TaskItem.constructor` | assn2/ProjectManagerAPI/Models/TaskItem.cs:4-15 | a new task has the given id and dependency list |
| `Models.ItemMap` | assn2/ProjectManagerAPI/Services/SchedulingService.cs:95 | the dictionary keyed by id maps each key to a task of the list with that id, and every task's id is a key |
| `Models.ItemMapEntries` | assn2/ProjectManagerAPI/Services/SchedulingService.cs:95 | with unique ids, every task of the list is the dictionary's entry for its own id |
| `Graphs.OrderedGraphIsAcyclic` | assn2/ProjectManagerAPI/Services/SchedulingService.cs:75-77 | an order holding every task, each after its dependencies, means the graph has no cycle |
| `Graphs.StuckSetHasCycle` | assn2/ProjectManagerAPI/Services/SchedulingService.cs:79-85 | a non-empty set of tasks, each depending on a task of the set, contains a cycle |
| `Graphs.SelfDependencyIsCycle` | assn2/ProjectManagerAPI/Services/SchedulingService.cs:136-142 | a task that lists itself makes the graph cyclic |
| `Graphs.DanglingDependencyIgnored` | assn2/ProjectManagerAPI/Services/SchedulingService.cs:36-41 | appending an id that names no task to a dependency list neither creates nor removes a cycle |
| `Graphs.SameEdgesSameCycles` | assn2/ProjectManagerAPI/Services/SchedulingService.cs:126-127 | graphs with the same tasks and the same edges between tasks have the same cycles, so list entries that name no task, which the search skips, do not matter |
| `KahnSpec.CountPendingZero` | assn2/ProjectManagerAPI/Services/SchedulingService.cs:67-68 | a task's pending count is 0 exactly when each of its dependencies that is a task has been placed |
| `KahnSpec.CountPendingPlace` | assn2/ProjectManagerAPI/Services/SchedulingService.cs:65-67 | placing a task lowers another task's pending count by the number of times it lists that task |
| `KahnSpec.DependentsCount` | assn2/ProjectManagerAPI/Services/SchedulingService.cs:32-43 | `adj[p]` holds `x` once for each time task `x` lists `p`, and holds no id that is not a task |
| `KahnSpec.SeedsFacts` | assn2/ProjectManagerAPI/Services/SchedulingService.cs:45-52 | the seeded queue has no repeats and holds exactly the tasks with no dependency that is a task |
| `KahnSpec.FreedFacts` | assn2/ProjectManagerAPI/Services/SchedulingService.cs:65-72 | the successor walk enqueues, without repeats, exactly the entries of `adj[p]` whose count reaches 0, at their last occurrence |
| `KahnSpec.KahnInit` | assn2/ProjectManagerAPI/Services/SchedulingService.cs:45-57 | the seeded queue with nothing placed satisfies the loop invariant (no repeats, dependencies first, queued iff ready, FIFO equation) |
| `KahnSpec.KahnStep` | assn2/ProjectManagerAPI/Services/SchedulingService.cs:57-73 | dequeuing the head and appending what its successors free keeps the loop invariant |
| `KahnSpec.KahnBound` | assn2/ProjectManagerAPI/Services/SchedulingService.cs:57 | placed and queued together never exceed the number of tasks, so the loop ends |
| `KahnSpec.KahnDone` | assn2/ProjectManagerAPI/Services/SchedulingService.cs:75-86 | when the queue is empty, every task is placed if and only if the graph has no cycle |
| `KahnSpec.Titles` | assn2/ProjectManagerAPI/Services/SchedulingService.cs:62 | the titles list has one entry per placed id: that task's title, in placement order |
| `KahnSpec.HoursPermutation` | assn2/ProjectManagerAPI/Services/SchedulingService.cs:63 | the sum of estimates does not depend on the order of the tasks |
| `KahnSpec.ScheduleHours` | assn2/ProjectManagerAPI/Services/SchedulingService.cs:54-77 | a complete schedule's total equals the sum of the estimates of the input |
| `SchedulingService.InitTables` | assn2/ProjectManagerAPI/Services/SchedulingService.cs:21-30 | every id gets an empty successor list, in-degree 0 and its task |
| `SchedulingService.AddEdges` | assn2/ProjectManagerAPI/Services/SchedulingService.cs:34-42 | one task's dependencies add the task to each existing dependency's successor list and add its existing dependencies to its in-degree, leaving other in-degrees alone |
| `SchedulingService.CountEdges` | assn2/ProjectManagerAPI/Services/SchedulingService.cs:32-43 | afterwards `adj[p]` is the dependents of `p` in input order, and each in-degree counts the task's dependencies that are tasks |
| `SchedulingService.SeedQueue` | assn2/ProjectManagerAPI/Services/SchedulingService.cs:45-52 | the queue is the tasks with in-degree 0, in input order |
| `SchedulingService.ReleaseEntry` | assn2/ProjectManagerAPI/Services/SchedulingService.cs:67-71 | one successor entry's decrement and conditional enqueue keep the walk's invariant |
| `SchedulingService.ReleaseSuccessors` | assn2/ProjectManagerAPI/Services/SchedulingService.cs:65-72 | afterwards each in-degree counts the unplaced dependencies, and the queue has gained exactly the newly freed dependents, in order |
| `SchedulingService.PlaceHead` | assn2/ProjectManagerAPI/Services/SchedulingService.cs:57-73 | one loop turn places the queue's head, records its title and hours, and keeps the loop invariant |
| `SchedulingService.ScheduleComplete` | assn2/ProjectManagerAPI/Services/SchedulingService.cs:75-86 | at loop exit the title count equals the task count iff the graph is acyclic, and then the total is the input's hours |
| `SchedulingService.GetSchedule` | assn2/ProjectManagerAPI/Services/SchedulingService.cs:19-87 | no error message iff the graph has no cycle. The placed ids are distinct, each after its dependencies, and FIFO (seeds, then what each placed task freed). On success every task is placed, the titles follow that order and the total is the input's hours. On a cycle the result is empty with the fixed message |
| `SchedulingService.TieBreakOrder` | assn2/ProjectManagerAPI/Services/SchedulingService.cs:45-73 | with A and B ready and C depending on both, the only FIFO order holding every task once is A, B, C |
| `SchedulingService.TieBreakSchedule` | assn2/ProjectManagerAPI/Services/SchedulingService.cs:45-77 | for that input the schedule is the titles of A, B, C with the summed hours and no error |
| `SchedulingService.DetectCycleDfs` | assn2/ProjectManagerAPI/Services/SchedulingService.cs:120-148 | a reported cycle exists. With none reported, the stack set is as before, the visited set only grows and is the finished tasks plus the stack, the task (when it is one) is finished, and every finished task comes after its dependencies. An id that is not a task returns false and leaves the sets as they were |
| `SchedulingService.SearchAllTasks` | assn2/ProjectManagerAPI/Services/SchedulingService.cs:110-117 | searching from every task of the dictionary reports a cycle if and only if its graph has one |
| `SchedulingService.OverlayCandidate` | assn2/ProjectManagerAPI/Services/SchedulingService.cs:95-108 | the dictionary's graph is the project's graph with the candidate list for the checked id. The checked task's object now holds the candidate list and every other task is unchanged |
| `SchedulingService.HasCircularDependency` | assn2/ProjectManagerAPI/Services/SchedulingService.cs:90-118 | true iff the project's graph with the candidate list put in has a cycle. Afterwards the checked task holds the candidate list whatever the answer |
| `SchedulingService.RejectedUpdateKeepsCycle` | assn2/ProjectManagerAPI/Services/SchedulingService.cs:101-103 | A depends on B and B is checked with [A]: the check answers true, yet the returned stored objects hold A: [B] and B: [A], and their graph is cyclic |
| `SchedulingService.CheckCandidate` | assn2/ProjectManagerAPI/Services/SchedulingService.cs:90-118 | the same answer as the check, true iff the overlaid graph has a cycle, with no stored task written |
| `SchedulingService.SameGraph` | assn2/ProjectManagerAPI/Services/SchedulingService.cs:95 | tasks with the same ids and lists give both services the same dependency graph |
| `SchedulingService.RecheckSameGraph` | assn2/ProjectManagerAPI/Services/SchedulingService.cs:98-103 | putting a task's own list in changes nothing, so the check searches the scheduler's graph |
| `SchedulingService.ChecksAgree` | assn2/ProjectManagerAPI/Services/SchedulingService.cs:75-86 | on the same tasks, the schedule reports a cycle iff the cycle check does |
| `SchedulingService.ChecksAgreeInPlace` | assn2/ProjectManagerAPI/Services/SchedulingService.cs:90-118 | on the same tasks, the schedule reports a cycle iff the service's own check, re-run on a task's stored list, answers true |

## Left out

- HTTP endpoints, authentication and the UI are not part of this model. So is
  the mapping in `Program.cs` from stored tasks to scheduler input, where a
  missing estimate becomes 0 and ids become strings.
- `SchedulingService.GetSchedule`: requires distinct task ids. With repeated ids
  the source overwrites its dictionary entries, and repeated ids in the queue
  make the count comparison meaningless. Project tasks carry fresh GUIDs.
- `SchedulingService.HasCircularDependency`: requires unique ids, because
  building the dictionary throws on a repeated key.
- Hours are unbounded integers. The 32-bit overflow of `totalHours` is not
  modelled.
- A GUID is modelled by its string form, so `TaskId` is `string`. Only
  equality is used.
- `TaskItem` carries only `Id` and `Dependencies`. Title, due date,
  completion, project and estimate play no part in the cycle check.
- The dictionary's enumeration order over `taskMap.Values` is modelled as the
  list order, with a new node appended. The answer is proved not to depend on
  the order, because `SearchAllTasks` states an if-and-only-if for any
  enumeration covering every entry.
- `GetSchedule` returns the placed ids as a ghost out-parameter. The source
  has no such list; it specifies the titles.
- The recursion depth of the search, which is a stack overflow risk on long
  chains, is not modelled.
- The unused request records `ScheduleTaskDto` and `ScheduleRequestDto` are
  not modelled.
- Concurrency is not modelled. Two requests can each pass the check and then
  store lists that together form a cycle.

## Findings

| source | as written | input that shows it | evidently intended | confidence | as-written member | corrected member |
|---|---|---|---|---|---|---|
| assn2/ProjectManagerAPI/Services/SchedulingService.cs:101-103 | the candidate list is written into the caller's stored task and never restored, so the update handler (`Program.cs`, lines 198-205) rejects a cyclic update, but the task keeps the cyclic list | A depends on B; update B with dependencies [A] | check the candidate without writing any stored task, so that a rejected update leaves the project as it was | not executed | `SchedulingService.RejectedUpdateKeepsCycle` | `SchedulingService.CheckCandidate` |
