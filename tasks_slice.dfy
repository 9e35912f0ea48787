/**
  The task slice of src/features/tasks/tasksSlice.ts as a store object whose
  reducers update `items` in place, each followed by `saveTasks(items)`.

  The linear scans behind `findIndex`, `find` and `filter` are written out
  as loops and proved against the functions of TaskOps; each reducer's new
  state is the matching TaskOps function of the old one.
 */
module TasksSlice {
  import opened Types
  import TaskOps

  /** The scan `items.findIndex(t => t.id === id)` (and `find`, which stops at the same task). */
  method FindTaskIndex(items: seq<Task>, id: string) returns (idx: int)
    ensures idx == TaskOps.FindIndex(items, id)
  {
    idx := 0;
    while idx < |items|
      invariant 0 <= idx <= |items|
      invariant forall k :: 0 <= k < idx ==> items[k].id != id
    {
      if items[idx].id == id {
        assert TaskOps.IsFirstMatch(items, id, idx);
        return;
      }
      idx := idx + 1;
    }
    idx := -1;
  }

  /** The scan `t.subTasks.find(x => x.id === subId)`, giving the index found or -1. */
  method FindSubTaskIndex(subs: seq<SubTask>, subId: string) returns (idx: int)
    ensures idx == TaskOps.FindSubIndex(subs, subId)
  {
    idx := 0;
    while idx < |subs|
      invariant 0 <= idx <= |subs|
      invariant forall k :: 0 <= k < idx ==> subs[k].id != subId
    {
      if subs[idx].id == subId {
        assert TaskOps.IsFirstSubMatch(subs, subId, idx);
        return;
      }
      idx := idx + 1;
    }
    idx := -1;
  }

  /** The copy `items.filter(t => t.id !== id)`. */
  method FilterOutTask(items: seq<Task>, id: string) returns (kept: seq<Task>)
    ensures kept == TaskOps.DeleteTask(items, id)
  {
    kept := [];
    var i := 0;
    while i < |items|
      invariant 0 <= i <= |items|
      invariant kept == TaskOps.DeleteTask(items[..i], id)
    {
      assert items[..i + 1] == items[..i] + [items[i]];
      TaskOps.DeleteTaskAppend(items[..i], [items[i]], id);
      if items[i].id != id {
        kept := kept + [items[i]];
      }
      i := i + 1;
    }
    assert items[..i] == items;
  }

  /** The copy `t.subTasks.filter(s => s.id !== subId)`. */
  method FilterOutSubTask(subs: seq<SubTask>, subId: string) returns (kept: seq<SubTask>)
    ensures kept == TaskOps.DeleteSub(subs, subId)
  {
    kept := [];
    var i := 0;
    while i < |subs|
      invariant 0 <= i <= |subs|
      invariant kept == TaskOps.DeleteSub(subs[..i], subId)
    {
      assert subs[..i + 1] == subs[..i] + [subs[i]];
      TaskOps.DeleteSubAppend(subs[..i], [subs[i]], subId);
      if subs[i].id != subId {
        kept := kept + [subs[i]];
      }
      i := i + 1;
    }
    assert subs[..i] == subs;
  }

  /** No task with id `taskId` already has a subtask with id `subId`. */
  predicate SubIdFresh(items: seq<Task>, taskId: string, subId: string)
  {
    forall k :: 0 <= k < |items| && items[k].id == taskId ==> !TaskOps.HasSubTask(items[k].subTasks, subId)
  }

  /** The slice state `{ items }` together with what local storage last received. */
  class TaskStore {
    var items: seq<Task>
    /** The list local storage holds: at start-up what `loadTasks` read, then what `saveTasks` last wrote (a save is taken to succeed). */
    ghost var persisted: seq<Task>

    /** Every reducer ends by saving the whole list; a save that throws is not modelled. */
    ghost predicate Saved()
      reads this
    {
      persisted == items
    }

    /** The initial state: the list `loadTasks` read from storage. */
    constructor (stored: seq<Task>)
      ensures items == stored && Saved()
    {
      items := stored;
      persisted := stored;
    }

    method AddTask(t: Task)
      modifies this
      ensures items == TaskOps.AddTask(old(items), t) && Saved()
      ensures |items| == |old(items)| + 1 && items[..|old(items)|] == old(items) && items[|old(items)|] == t
      ensures (TaskOps.WellFormed(old(items)) && !TaskOps.HasTask(old(items), t.id) &&
               TaskOps.UniqueSubIds(t.subTasks)) ==> TaskOps.WellFormed(items)
    {
      if TaskOps.WellFormed(items) && !TaskOps.HasTask(items, t.id) && TaskOps.UniqueSubIds(t.subTasks) {
        TaskOps.AddTaskKeepsWellFormed(items, t);
      }
      items := items + [t];
      persisted := items;
    }

    method UpdateTask(t: Task)
      modifies this
      ensures items == TaskOps.UpdateTask(old(items), t) && Saved()
      ensures TaskOps.WellFormed(old(items)) && TaskOps.UniqueSubIds(t.subTasks) ==> TaskOps.WellFormed(items)
    {
      if TaskOps.WellFormed(items) && TaskOps.UniqueSubIds(t.subTasks) {
        TaskOps.UpdateTaskKeepsWellFormed(items, t);
      }
      var idx := FindTaskIndex(items, t.id);
      if idx != -1 {
        items := items[idx := t];
      }
      persisted := items;
    }

    method DeleteTask(id: string)
      modifies this
      ensures items == TaskOps.DeleteTask(old(items), id) && Saved()
      ensures TaskOps.WellFormed(old(items)) ==> TaskOps.WellFormed(items)
    {
      if TaskOps.WellFormed(items) {
        TaskOps.DeleteTaskKeepsWellFormed(items, id);
      }
      items := FilterOutTask(items, id);
      persisted := items;
    }

    /** The payload becomes the list as it is; nothing checks that it is a permutation. */
    method ReorderTasks(payload: seq<Task>)
      modifies this
      ensures items == payload && Saved()
    {
      items := payload;
      persisted := items;
    }

    method ToggleComplete(id: string)
      modifies this
      ensures items == TaskOps.ToggleComplete(old(items), id) && Saved()
      ensures TaskOps.WellFormed(old(items)) ==> TaskOps.WellFormed(items)
    {
      if TaskOps.WellFormed(items) {
        TaskOps.ToggleCompleteKeepsWellFormed(items, id);
      }
      var idx := FindTaskIndex(items, id);
      if idx != -1 {
        var t := items[idx];
        items := items[idx := t.(completed := !t.completed)];
      }
      persisted := items;
    }

    method AddSubTask(taskId: string, sub: SubTask)
      modifies this
      ensures items == TaskOps.AddSubTask(old(items), taskId, sub) && Saved()
      ensures TaskOps.WellFormed(old(items)) && SubIdFresh(old(items), taskId, sub.id) ==> TaskOps.WellFormed(items)
    {
      if TaskOps.WellFormed(items) && SubIdFresh(items, taskId, sub.id) {
        TaskOps.AddSubTaskKeepsWellFormed(items, taskId, sub);
      }
      var idx := FindTaskIndex(items, taskId);
      if idx != -1 {
        var t := items[idx];
        items := items[idx := t.(subTasks := t.subTasks + [sub])];
      }
      persisted := items;
    }

    method ToggleSubTask(taskId: string, subId: string)
      modifies this
      ensures items == TaskOps.ToggleSubTask(old(items), taskId, subId) && Saved()
      ensures TaskOps.WellFormed(old(items)) ==> TaskOps.WellFormed(items)
    {
      if TaskOps.WellFormed(items) {
        TaskOps.ToggleSubTaskKeepsWellFormed(items, taskId, subId);
      }
      var idx := FindTaskIndex(items, taskId);
      if idx != -1 {
        var t := items[idx];
        var s := FindSubTaskIndex(t.subTasks, subId);
        if s != -1 {
          var sub := t.subTasks[s];
          items := items[idx := t.(subTasks := t.subTasks[s := sub.(completed := !sub.completed)])];
        }
      }
      persisted := items;
    }

    method DeleteSubTask(taskId: string, subId: string)
      modifies this
      ensures items == TaskOps.DeleteSubTask(old(items), taskId, subId) && Saved()
      ensures TaskOps.WellFormed(old(items)) ==> TaskOps.WellFormed(items)
    {
      if TaskOps.WellFormed(items) {
        TaskOps.DeleteSubTaskKeepsWellFormed(items, taskId, subId);
      }
      var idx := FindTaskIndex(items, taskId);
      if idx != -1 {
        var t := items[idx];
        var kept := FilterOutSubTask(t.subTasks, subId);
        items := items[idx := t.(subTasks := kept)];
      }
      persisted := items;
    }
  }
}
