/**
  The eight task reducers of src/features/tasks/tasksSlice.ts, as functions
  from the old `items` list to the new one, and what they promise.

  Every reducer is total: an id that matches nothing leaves the list as it
  was. `find` and `findIndex` stop at the FIRST task with the id, so when ids
  are not unique only that one is touched; `filter` removes EVERY match.
 */
module TaskOps {
  import opened Types

  // ---------------------------------------------------------------------
  // Lookup by id
  // ---------------------------------------------------------------------

  predicate HasTask(items: seq<Task>, id: string)
  {
    exists k :: 0 <= k < |items| && items[k].id == id
  }

  /** `i` is the index `findIndex` returns for `id`. */
  predicate IsFirstMatch(items: seq<Task>, id: string, i: int)
  {
    0 <= i < |items| && items[i].id == id &&
    forall k :: 0 <= k < i ==> items[k].id != id
  }

  /** `items.findIndex(t => t.id === id)`: the first matching index, or -1. */
  function FindIndex(items: seq<Task>, id: string): (r: int)
    ensures r == -1 <==> !HasTask(items, id)
    ensures r != -1 ==> IsFirstMatch(items, id, r)
  {
    if |items| == 0 then -1
    else if items[0].id == id then 0
    else
      var k := FindIndex(items[1..], id);
      assert forall j :: 0 < j < |items| ==> items[j] == items[1..][j - 1];
      if k == -1 then -1 else k + 1
  }

  predicate HasSubTask(subs: seq<SubTask>, id: string)
  {
    exists k :: 0 <= k < |subs| && subs[k].id == id
  }

  predicate IsFirstSubMatch(subs: seq<SubTask>, id: string, j: int)
  {
    0 <= j < |subs| && subs[j].id == id &&
    forall k :: 0 <= k < j ==> subs[k].id != id
  }

  /** `t.subTasks.find(x => x.id === id)`, as the index of the subtask found, or -1. */
  function FindSubIndex(subs: seq<SubTask>, id: string): (r: int)
    ensures r == -1 <==> !HasSubTask(subs, id)
    ensures r != -1 ==> IsFirstSubMatch(subs, id, r)
  {
    if |subs| == 0 then -1
    else if subs[0].id == id then 0
    else
      var k := FindSubIndex(subs[1..], id);
      assert forall j :: 0 < j < |subs| ==> subs[j] == subs[1..][j - 1];
      if k == -1 then -1 else k + 1
  }

  // ---------------------------------------------------------------------
  // Invariants the store is meant to keep
  // ---------------------------------------------------------------------

  predicate UniqueIds(items: seq<Task>)
  {
    forall i, j :: 0 <= i < j < |items| ==> items[i].id != items[j].id
  }

  predicate UniqueSubIds(subs: seq<SubTask>)
  {
    forall i, j :: 0 <= i < j < |subs| ==> subs[i].id != subs[j].id
  }

  /** Task ids unique in the list, subtask ids unique within their task. */
  predicate WellFormed(items: seq<Task>)
  {
    UniqueIds(items) && forall k :: 0 <= k < |items| ==> UniqueSubIds(items[k].subTasks)
  }

  /** Same length and the same id at every index. */
  predicate SameIds(a: seq<Task>, b: seq<Task>)
  {
    |a| == |b| && forall k :: 0 <= k < |a| ==> a[k].id == b[k].id
  }

  predicate SameSubIds(a: seq<SubTask>, b: seq<SubTask>)
  {
    |a| == |b| && forall k :: 0 <= k < |a| ==> a[k].id == b[k].id
  }

  // ---------------------------------------------------------------------
  // The reducers
  // ---------------------------------------------------------------------

  /** addTask: `state.items.push(payload)`, with no check of the id. */
  function AddTask(items: seq<Task>, t: Task): (r: seq<Task>)
    ensures |r| == |items| + 1
    ensures r[..|items|] == items && r[|items|] == t
  {
    items + [t]
  }

  /** updateTask: the first task with the payload's id is replaced by the payload. */
  function UpdateTask(items: seq<Task>, t: Task): (r: seq<Task>)
    ensures SameIds(items, r)
    ensures !HasTask(items, t.id) ==> r == items
    ensures forall i | IsFirstMatch(items, t.id, i) :: r == items[i := t]
  {
    var i := FindIndex(items, t.id);
    if i == -1 then items else items[i := t]
  }

  /** deleteTask: `items.filter(t => t.id !== id)`. */
  function DeleteTask(items: seq<Task>, id: string): (r: seq<Task>)
    ensures |r| <= |items|
    ensures forall k :: 0 <= k < |r| ==> r[k].id != id
  {
    if |items| == 0 then []
    else (if items[0].id == id then [] else [items[0]]) + DeleteTask(items[1..], id)
  }

  /** toggleComplete: the first task with `id` has its `completed` flipped. */
  function ToggleComplete(items: seq<Task>, id: string): (r: seq<Task>)
    ensures SameIds(items, r)
    ensures !HasTask(items, id) ==> r == items
    ensures forall i | IsFirstMatch(items, id, i) ::
      r == items[i := items[i].(completed := !items[i].completed)]
  {
    var i := FindIndex(items, id);
    if i == -1 then items else items[i := items[i].(completed := !items[i].completed)]
  }

  /** addSubTask: `sub` is pushed onto the subtasks of the first task with `taskId`. */
  function AddSubTask(items: seq<Task>, taskId: string, sub: SubTask): (r: seq<Task>)
    ensures SameIds(items, r)
    ensures !HasTask(items, taskId) ==> r == items
    ensures forall i | IsFirstMatch(items, taskId, i) ::
      r == items[i := items[i].(subTasks := items[i].subTasks + [sub])]
  {
    var i := FindIndex(items, taskId);
    if i == -1 then items else items[i := items[i].(subTasks := items[i].subTasks + [sub])]
  }

  /** Inside one task: the first subtask with `subId` has its `completed` flipped. */
  function ToggleSub(subs: seq<SubTask>, subId: string): (r: seq<SubTask>)
    ensures SameSubIds(subs, r)
    ensures !HasSubTask(subs, subId) ==> r == subs
    ensures forall j | IsFirstSubMatch(subs, subId, j) ::
      r == subs[j := subs[j].(completed := !subs[j].completed)]
  {
    var j := FindSubIndex(subs, subId);
    if j == -1 then subs else subs[j := subs[j].(completed := !subs[j].completed)]
  }

  /** toggleSubTask: ToggleSub applied to the first task with `taskId`. */
  function ToggleSubTask(items: seq<Task>, taskId: string, subId: string): (r: seq<Task>)
    ensures SameIds(items, r)
    ensures !HasTask(items, taskId) ==> r == items
    ensures forall i | IsFirstMatch(items, taskId, i) ::
      r == items[i := items[i].(subTasks := ToggleSub(items[i].subTasks, subId))]
  {
    var i := FindIndex(items, taskId);
    if i == -1 then items
    else items[i := items[i].(subTasks := ToggleSub(items[i].subTasks, subId))]
  }

  /** Inside one task: `subTasks.filter(s => s.id !== subId)`. */
  function DeleteSub(subs: seq<SubTask>, subId: string): (r: seq<SubTask>)
    ensures |r| <= |subs|
    ensures forall k :: 0 <= k < |r| ==> r[k].id != subId
  {
    if |subs| == 0 then []
    else (if subs[0].id == subId then [] else [subs[0]]) + DeleteSub(subs[1..], subId)
  }

  /** deleteSubTask: DeleteSub applied to the first task with `taskId`. */
  function DeleteSubTask(items: seq<Task>, taskId: string, subId: string): (r: seq<Task>)
    ensures SameIds(items, r)
    ensures !HasTask(items, taskId) ==> r == items
    ensures forall i | IsFirstMatch(items, taskId, i) ::
      r == items[i := items[i].(subTasks := DeleteSub(items[i].subTasks, subId))]
  {
    var i := FindIndex(items, taskId);
    if i == -1 then items
    else items[i := items[i].(subTasks := DeleteSub(items[i].subTasks, subId))]
  }

  // ---------------------------------------------------------------------
  // Filtering keeps order, and adding then deleting is the identity
  // ---------------------------------------------------------------------

  /** Filtering works element by element, so it keeps the survivors' relative order. */
  lemma {:induction false} DeleteTaskAppend(a: seq<Task>, b: seq<Task>, id: string)
    ensures DeleteTask(a + b, id) == DeleteTask(a, id) + DeleteTask(b, id)
  {
    if |a| == 0 {
      assert a + b == b;
    } else {
      assert (a + b)[1..] == a[1..] + b;
      DeleteTaskAppend(a[1..], b, id);
    }
  }

  /** Exactly the tasks without the id survive, each as often as it was there. */
  lemma {:induction false} DeleteTaskCount(items: seq<Task>, id: string, x: Task)
    ensures multiset(DeleteTask(items, id))[x] == if x.id == id then 0 else multiset(items)[x]
  {
    if |items| > 0 {
      assert DeleteTask(items, id) == (if items[0].id == id then [] else [items[0]]) + DeleteTask(items[1..], id);
      DeleteTaskCount(items[1..], id, x);
      assert items == [items[0]] + items[1..];
    }
  }

  lemma {:induction false} DeleteTaskAbsent(items: seq<Task>, id: string)
    requires !HasTask(items, id)
    ensures DeleteTask(items, id) == items
  {
    if |items| > 0 {
      assert !HasTask(items[1..], id) by {
        forall k | 0 <= k < |items[1..]| ensures items[1..][k].id != id {
          assert items[1..][k] == items[k + 1];
        }
      }
      DeleteTaskAbsent(items[1..], id);
      assert items == [items[0]] + items[1..];
    }
  }

  /** addTask(t) then deleteTask(t.id) gives back the list, when t's id was fresh. */
  lemma AddThenDelete(items: seq<Task>, t: Task)
    requires !HasTask(items, t.id)
    ensures DeleteTask(AddTask(items, t), t.id) == items
  {
    DeleteTaskAppend(items, [t], t.id);
    DeleteTaskAbsent(items, t.id);
    assert DeleteTask([t], t.id) == [] + DeleteTask([], t.id);
  }

  lemma {:induction false} DeleteSubCount(subs: seq<SubTask>, subId: string, x: SubTask)
    ensures multiset(DeleteSub(subs, subId))[x] == if x.id == subId then 0 else multiset(subs)[x]
  {
    if |subs| > 0 {
      assert DeleteSub(subs, subId) == (if subs[0].id == subId then [] else [subs[0]]) + DeleteSub(subs[1..], subId);
      DeleteSubCount(subs[1..], subId, x);
      assert subs == [subs[0]] + subs[1..];
    }
  }

  lemma {:induction false} DeleteSubAppend(a: seq<SubTask>, b: seq<SubTask>, subId: string)
    ensures DeleteSub(a + b, subId) == DeleteSub(a, subId) + DeleteSub(b, subId)
  {
    if |a| == 0 {
      assert a + b == b;
    } else {
      assert (a + b)[1..] == a[1..] + b;
      DeleteSubAppend(a[1..], b, subId);
    }
  }

  // ---------------------------------------------------------------------
  // Toggling twice is the identity
  // ---------------------------------------------------------------------

  /** Lists with the same ids at the same indices find the same index. */
  lemma SameIdsSameIndex(a: seq<Task>, b: seq<Task>, id: string)
    requires SameIds(a, b)
    ensures FindIndex(a, id) == FindIndex(b, id)
  {
    var i, j := FindIndex(a, id), FindIndex(b, id);
    if i != -1 {
      assert b[i].id == id;
    }
    if j != -1 {
      assert a[j].id == id;
    }
  }

  lemma ToggleCompleteTwice(items: seq<Task>, id: string)
    ensures ToggleComplete(ToggleComplete(items, id), id) == items
  {
    var once := ToggleComplete(items, id);
    SameIdsSameIndex(items, once, id);
  }

  lemma ToggleSubTwice(subs: seq<SubTask>, subId: string)
    ensures ToggleSub(ToggleSub(subs, subId), subId) == subs
  {
    var once := ToggleSub(subs, subId);
    var j := FindSubIndex(subs, subId);
    if j != -1 {
      assert IsFirstSubMatch(once, subId, j);
    } else {
      assert !HasSubTask(once, subId);
    }
  }

  lemma ToggleSubTaskTwice(items: seq<Task>, taskId: string, subId: string)
    ensures ToggleSubTask(ToggleSubTask(items, taskId, subId), taskId, subId) == items
  {
    var once := ToggleSubTask(items, taskId, subId);
    SameIdsSameIndex(items, once, taskId);
    var i := FindIndex(items, taskId);
    if i != -1 {
      ToggleSubTwice(items[i].subTasks, subId);
    }
  }

  // ---------------------------------------------------------------------
  // Preserving unique ids
  // ---------------------------------------------------------------------

  /** Replacing one task by one with the same id and unique subtask ids keeps WellFormed. */
  lemma ReplaceKeepsWellFormed(items: seq<Task>, i: int, t: Task)
    requires WellFormed(items) && 0 <= i < |items|
    requires t.id == items[i].id && UniqueSubIds(t.subTasks)
    ensures WellFormed(items[i := t])
  {
  }

  /** A fresh id keeps the list well formed (the add form builds a task with no subtasks). */
  lemma AddTaskKeepsWellFormed(items: seq<Task>, t: Task)
    requires WellFormed(items) && !HasTask(items, t.id) && UniqueSubIds(t.subTasks)
    ensures WellFormed(AddTask(items, t))
  {
    var r := AddTask(items, t);
    forall i, j | 0 <= i < j < |r| ensures r[i].id != r[j].id {
      if j == |items| {
        assert r[i] == items[i];
      }
    }
  }

  /** addTask does not reject an id that is already there. */
  lemma AddTaskDuplicateId(items: seq<Task>, t: Task)
    requires HasTask(items, t.id)
    ensures |AddTask(items, t)| == |items| + 1
    ensures !UniqueIds(AddTask(items, t))
  {
    var k :| 0 <= k < |items| && items[k].id == t.id;
    var r := AddTask(items, t);
    assert r[k].id == r[|items|].id;
  }

  lemma UpdateTaskKeepsWellFormed(items: seq<Task>, t: Task)
    requires WellFormed(items) && UniqueSubIds(t.subTasks)
    ensures WellFormed(UpdateTask(items, t))
  {
    var i := FindIndex(items, t.id);
    if i != -1 {
      ReplaceKeepsWellFormed(items, i, t);
    }
  }

  /** A task put in front of a well-formed list whose ids all differ from its own keeps it well-formed. */
  lemma ConsKeepsWellFormed(x: Task, rest: seq<Task>)
    requires WellFormed(rest) && UniqueSubIds(x.subTasks)
    requires forall k :: 0 <= k < |rest| ==> rest[k].id != x.id
    ensures WellFormed([x] + rest)
  {
    var r := [x] + rest;
    forall i, j | 0 <= i < j < |r| ensures r[i].id != r[j].id {
      if i > 0 {
        assert r[i] == rest[i - 1];
      }
      assert r[j] == rest[j - 1];
    }
    forall k | 0 < k < |r| ensures UniqueSubIds(r[k].subTasks) {
      assert r[k] == rest[k - 1];
    }
  }

  lemma {:induction false} DeleteTaskKeepsWellFormed(items: seq<Task>, id: string)
    requires WellFormed(items)
    ensures WellFormed(DeleteTask(items, id))
  {
    if |items| > 0 {
      var tail := items[1..];
      assert WellFormed(tail) by {
        forall k | 0 <= k < |tail| ensures UniqueSubIds(tail[k].subTasks) {
          assert tail[k] == items[k + 1];
        }
      }
      DeleteTaskKeepsWellFormed(tail, id);
      var rest := DeleteTask(tail, id);
      if items[0].id != id {
        forall k | 0 <= k < |rest| ensures rest[k].id != items[0].id {
          DeleteTaskCount(tail, id, rest[k]);
          assert multiset(rest)[rest[k]] > 0;
          assert rest[k] in tail;
        }
        ConsKeepsWellFormed(items[0], rest);
      }
    }
  }

  lemma ToggleCompleteKeepsWellFormed(items: seq<Task>, id: string)
    requires WellFormed(items)
    ensures WellFormed(ToggleComplete(items, id))
  {
    var i := FindIndex(items, id);
    if i != -1 {
      ReplaceKeepsWellFormed(items, i, items[i].(completed := !items[i].completed));
    }
  }

  /** addSubTask keeps subtask ids unique when the new subtask's id is fresh in its parent. */
  lemma AddSubTaskKeepsWellFormed(items: seq<Task>, taskId: string, sub: SubTask)
    requires WellFormed(items)
    requires forall k :: 0 <= k < |items| && items[k].id == taskId ==> !HasSubTask(items[k].subTasks, sub.id)
    ensures WellFormed(AddSubTask(items, taskId, sub))
  {
    var i := FindIndex(items, taskId);
    if i != -1 {
      var subs := items[i].subTasks + [sub];
      forall a, b | 0 <= a < b < |subs| ensures subs[a].id != subs[b].id {
        if b == |subs| - 1 {
          assert subs[a] == items[i].subTasks[a];
        }
      }
      ReplaceKeepsWellFormed(items, i, items[i].(subTasks := subs));
    }
  }

  lemma ToggleSubTaskKeepsWellFormed(items: seq<Task>, taskId: string, subId: string)
    requires WellFormed(items)
    ensures WellFormed(ToggleSubTask(items, taskId, subId))
  {
    var i := FindIndex(items, taskId);
    if i != -1 {
      var subs := ToggleSub(items[i].subTasks, subId);
      assert UniqueSubIds(subs);
      ReplaceKeepsWellFormed(items, i, items[i].(subTasks := subs));
    }
  }

  lemma {:induction false} DeleteSubKeepsUnique(subs: seq<SubTask>, subId: string)
    requires UniqueSubIds(subs)
    ensures UniqueSubIds(DeleteSub(subs, subId))
  {
    if |subs| > 0 {
      var tail := subs[1..];
      DeleteSubKeepsUnique(tail, subId);
      var rest := DeleteSub(tail, subId);
      if subs[0].id != subId {
        assert DeleteSub(subs, subId) == [subs[0]] + rest;
        forall k | 0 <= k < |rest| ensures rest[k].id != subs[0].id {
          DeleteSubCount(tail, subId, rest[k]);
          assert multiset(rest)[rest[k]] > 0;
          assert rest[k] in tail;
        }
      }
    }
  }

  lemma DeleteSubTaskKeepsWellFormed(items: seq<Task>, taskId: string, subId: string)
    requires WellFormed(items)
    ensures WellFormed(DeleteSubTask(items, taskId, subId))
  {
    var i := FindIndex(items, taskId);
    if i != -1 {
      DeleteSubKeepsUnique(items[i].subTasks, subId);
      ReplaceKeepsWellFormed(items, i, items[i].(subTasks := DeleteSub(items[i].subTasks, subId)));
    }
  }
}
