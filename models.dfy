/** The stored task entity, as far as the cycle check uses it. */
module Models {
  import opened Graphs

  /** A task of a project. The check reads its id and replaces its
      dependency list; the remaining properties play no part in it. */
  class TaskItem {
    const id: TaskId
    var dependencies: seq<TaskId>

    constructor (id: TaskId, dependencies: seq<TaskId>)
      ensures this.id == id && this.dependencies == dependencies
    {
      this.id := id;
      this.dependencies := dependencies;
    }
  }

  /** Project task lists never hold two tasks with one id. */
  predicate UniqueIds(items: seq<TaskItem>) {
    forall i, j :: 0 <= i < j < |items| ==> items[i].id != items[j].id
  }

  /** The dictionary built from a task list, keyed by id. */
  function ItemMap(items: seq<TaskItem>): (m: map<TaskId, TaskItem>)
    ensures forall x :: x in m ==> m[x].id == x
    ensures forall i :: 0 <= i < |items| ==> items[i].id in m
    ensures forall x :: x in m ==> m[x] in items
  {
    if items == [] then map[]
    else ItemMap(items[..|items| - 1])[items[|items| - 1].id := items[|items| - 1]]
  }

  /** The dependency graph the tasks of a dictionary hold right now. */
  function Snapshot(taskMap: map<TaskId, TaskItem>): DepGraph
    reads taskMap.Values
  {
    map x | x in taskMap :: taskMap[x].dependencies
  }

  /** The dependency graph a task list holds right now. */
  function ProjectGraph(items: seq<TaskItem>): DepGraph
    reads set t | t in items
  {
    Snapshot(ItemMap(items))
  }

  /** With unique ids, each task of the list is the dictionary's entry for its id. */
  lemma {:induction false} ItemMapEntries(items: seq<TaskItem>)
    requires UniqueIds(items)
    ensures forall i :: 0 <= i < |items| ==> ItemMap(items)[items[i].id] == items[i]
  {
    if items != [] {
      var n := |items| - 1;
      var front := items[..n];
      assert UniqueIds(front) by {
        forall i, j | 0 <= i < j < |front| ensures front[i].id != front[j].id {
          assert front[i] == items[i] && front[j] == items[j];
        }
      }
      ItemMapEntries(front);
      var m := ItemMap(front);
      assert ItemMap(items) == m[items[n].id := items[n]];
      forall i | 0 <= i < |items| ensures ItemMap(items)[items[i].id] == items[i] {
        if i < n {
          assert front[i] == items[i] && m[front[i].id] == front[i];
          assert items[i].id != items[n].id;
        }
      }
    }
  }

  /** Putting an entry under a key puts that entry's list in the graph. */
  lemma SnapshotAfterInsert(taskMap: map<TaskId, TaskItem>, c: TaskId, item: TaskItem)
    ensures Snapshot(taskMap[c := item]) == Snapshot(taskMap)[c := item.dependencies]
  {
  }
}
