# Task manager: task store and visible-list model

A Dafny model of the two pieces of the task-manager web app that hold logic:

- **The task slice** (`src/features/tasks/tasksSlice.ts`). This is the ordered list of tasks and the eight reducers that change it: `addTask`, `updateTask`, `deleteTask`, `reorderTasks`, `toggleComplete`, `addSubTask`, `toggleSubTask` and `deleteSubTask`. Each reducer ends by saving the whole list to local storage.
  - `TasksSlice.TaskStore` is a class whose `items` field the reducers reassign in place. A ghost field `persisted` records what local storage holds: the loaded list at start-up, then what the last save wrote. The model assumes that every save succeeds (see Left out).
  - The `findIndex`/`find` scans and the `filter` copies are loops. Each loop is proved equal to a pure function in `TaskOps`.
  - The lemmas about those functions state the promises of the reducers:
    - each reducer's exact effect, with every other index unchanged;
    - missing ids are silent no-ops;
    - toggling twice is the identity;
    - adding a task with a fresh id and then deleting it gives the old list back;
    - unique task ids, and subtask ids unique within each task, are preserved.
- **The view** (`src/App.tsx`). This is the filter (`all`/`done`/`undone`) followed by a sort of a copy of the list. The sort uses a two-level comparator: incomplete tasks first, then priority, deadline or title. The view also picks what the main area shows: "no tasks yet", "no tasks matching the filter", or the card grid.
  - `View.Project` is a function. The sort is a stable insertion sort.
  - Lemmas prove the following about the result:
    - it is a permutation of the filtered tasks;
    - it is ordered by the comparator, which gives each per-key ordering property;
    - it is stable.

Data (`src/features/tasks/types.ts`) is in module `Types`:
- A deadline is an optional day number. `None` stands both for an absent deadline and for the empty string, which the add form submits and the comparator treats as missing.
- A title comparison is a parameter `tc: (string, string) -> int` in place of `localeCompare`. Lemmas that sort by title require it to be a consistent comparator: swapping its arguments flips the sign, and "not after" is transitive.

Two points of the code shape the model:
- `addTask` appends without checking for a duplicate id (src/features/tasks/tasksSlice.ts:15). `TaskOps.AddTaskDuplicateId` shows the duplicate is accepted. Uniqueness is preserved only under a freshness precondition, which the add form meets by generating the id with `uuidv4()`.
- For two tasks that both lack a deadline the comparator is inconsistent (see Findings), so the code guarantees no relative order for them. The model treats them as equal and keeps their input order with a stable sort.

## Model

| member | source | states |
|---|---|---|
| TaskOps.FindIndex | src/features/tasks/tasksSlice.ts:19 | -1 exactly when no task has the id; otherwise the index of the first task with it |
| TaskOps.FindSubIndex | src/features/tasks/tasksSlice.ts:52 | -1 exactly when no subtask has the id; otherwise the index of the first subtask with it |
| TaskOps.UpdateTask | src/features/tasks/tasksSlice.ts:18-22 | the first task with the payload's id is replaced by the payload at the same index; length and all ids unchanged; a missing id leaves the list unchanged |
| TaskOps.DeleteTask | src/features/tasks/tasksSlice.ts:23-26 | no task with the id survives and the length never grows |
| TaskOps.DeleteTaskCount | src/features/tasks/tasksSlice.ts:24 | every task without the id survives as often as it occurred, and every task with the id is removed |
| TaskOps.DeleteTaskAppend | src/features/tasks/tasksSlice.ts:24 | deleting distributes over concatenation, so survivors keep their relative order |
| TaskOps.DeleteTaskAbsent | src/features/tasks/tasksSlice.ts:23-26 | deleting an id no task has leaves the list unchanged |
| TaskOps.AddTask | src/features/tasks/tasksSlice.ts:14-17 | the list grows by one: every old task stays at its index and the payload is last, whatever its id |
| TaskOps.AddThenDelete | src/features/tasks/tasksSlice.ts:14-26 | addTask(t) followed by deleteTask(t.id) restores the list when t.id was fresh |
| TaskOps.ToggleComplete | src/features/tasks/tasksSlice.ts:31-35 | only the `completed` field of the first task with the id flips; ids unchanged; a missing id is a no-op |
| TaskOps.ToggleCompleteTwice | src/features/tasks/tasksSlice.ts:31-35 | toggling the same id twice gives back the original list |
| TaskOps.AddSubTask | src/features/tasks/tasksSlice.ts:38-45 | the subtask is appended to the subtasks of the first task with the id, nothing else changes; a missing parent is a no-op |
| TaskOps.ToggleSub | src/features/tasks/tasksSlice.ts:52-53 | only the first subtask with the id has its `completed` flipped; a missing subtask is a no-op |
| TaskOps.ToggleSubTask | src/features/tasks/tasksSlice.ts:46-56 | only the first matching task's subtasks change, by ToggleSub; a missing parent is a no-op |
| TaskOps.ToggleSubTwice | src/features/tasks/tasksSlice.ts:52-53 | flipping the same subtask twice gives back the subtask list |
| TaskOps.ToggleSubTaskTwice | src/features/tasks/tasksSlice.ts:46-56 | toggleSubTask twice with the same ids gives back the original list |
| TaskOps.DeleteSub | src/features/tasks/tasksSlice.ts:63 | no subtask with the id survives and the length never grows |
| TaskOps.DeleteSubCount | src/features/tasks/tasksSlice.ts:63 | every subtask without the id survives as often as it occurred |
| TaskOps.DeleteSubAppend | src/features/tasks/tasksSlice.ts:63 | deleting subtasks distributes over concatenation, so order is kept |
| TaskOps.DeleteSubTask | src/features/tasks/tasksSlice.ts:57-66 | only the first matching task's subtasks change, by DeleteSub; a missing parent is a no-op |
| TaskOps.SameIdsSameIndex | src/features/tasks/tasksSlice.ts:19 | lists with the same ids at every index find the same index for any id |
| TaskOps.AddTaskKeepsWellFormed | src/features/tasks/tasksSlice.ts:14-17 | a task with a fresh id and unique subtask ids keeps all ids unique |
| TaskOps.AddTaskDuplicateId | src/features/tasks/tasksSlice.ts:15 | appending a task whose id is already present is accepted and makes the ids non-unique |
| TaskOps.ReplaceKeepsWellFormed | src/features/tasks/tasksSlice.ts:20 | replacing a task by one with the same id and unique subtask ids keeps all ids unique |
| TaskOps.UpdateTaskKeepsWellFormed | src/features/tasks/tasksSlice.ts:18-22 | updateTask keeps ids unique when the payload's subtask ids are unique |
| TaskOps.DeleteTaskKeepsWellFormed | src/features/tasks/tasksSlice.ts:23-26 | deleteTask keeps ids unique |
| TaskOps.ToggleCompleteKeepsWellFormed | src/features/tasks/tasksSlice.ts:31-35 | toggleComplete keeps ids unique |
| TaskOps.AddSubTaskKeepsWellFormed | src/features/tasks/tasksSlice.ts:38-45 | addSubTask keeps ids unique when the subtask id is fresh in its parent |
| TaskOps.ToggleSubTaskKeepsWellFormed | src/features/tasks/tasksSlice.ts:46-56 | toggleSubTask keeps ids unique |
| TaskOps.DeleteSubKeepsUnique | src/features/tasks/tasksSlice.ts:63 | filtering subtasks keeps their ids unique |
| TaskOps.DeleteSubTaskKeepsWellFormed | src/features/tasks/tasksSlice.ts:57-66 | deleteSubTask keeps ids unique |
| TasksSlice.FindTaskIndex | src/features/tasks/tasksSlice.ts:19 | the loop scan returns the index FindIndex specifies |
| TasksSlice.FindSubTaskIndex | src/features/tasks/tasksSlice.ts:52 | the loop scan returns the index FindSubIndex specifies |
| TasksSlice.FilterOutTask | src/features/tasks/tasksSlice.ts:24 | the loop builds exactly DeleteTask's list |
| TasksSlice.FilterOutSubTask | src/features/tasks/tasksSlice.ts:63 | the loop builds exactly DeleteSub's list |
| TasksSlice.TaskStore.constructor | src/features/tasks/tasksSlice.ts:5-7 | the initial list is the stored one |
| TasksSlice.TaskStore.AddTask | src/features/tasks/tasksSlice.ts:14-17 | the new list is the old one with t appended, every old index unchanged, then saved; ids stay unique when t's id is fresh |
| TasksSlice.TaskStore.UpdateTask | src/features/tasks/tasksSlice.ts:18-22 | the new list is UpdateTask of the old, then saved; ids stay unique |
| TasksSlice.TaskStore.DeleteTask | src/features/tasks/tasksSlice.ts:23-26 | the new list is DeleteTask of the old, then saved; ids stay unique |
| TasksSlice.TaskStore.ReorderTasks | src/features/tasks/tasksSlice.ts:27-30 | the new list is exactly the payload, unchecked, then saved |
| TasksSlice.TaskStore.ToggleComplete | src/features/tasks/tasksSlice.ts:31-35 | the new list is ToggleComplete of the old, then saved; ids stay unique |
| TasksSlice.TaskStore.AddSubTask | src/features/tasks/tasksSlice.ts:38-45 | the new list is AddSubTask of the old, then saved; ids stay unique when the subtask id is fresh |
| TasksSlice.TaskStore.ToggleSubTask | src/features/tasks/tasksSlice.ts:46-56 | the new list is ToggleSubTask of the old, then saved; ids stay unique |
| TasksSlice.TaskStore.DeleteSubTask | src/features/tasks/tasksSlice.ts:57-66 | the new list is DeleteSubTask of the old, then saved; ids stay unique |
| View.Keep | src/App.tsx:24 | `all` keeps every task, `done` exactly the completed ones, `undone` exactly the others |
| View.FilterTasks | src/App.tsx:23-25 | every task kept satisfies the filter predicate |
| View.FilterCount | src/App.tsx:23-25 | each task the filter accepts is kept as often as it occurs; no other task is kept |
| View.FilterAppend | src/App.tsx:23-25 | filtering distributes over concatenation, so kept tasks stay in input order |
| View.FilterAllIsIdentity | src/App.tsx:24 | `all` keeps the list unchanged |
| View.Rank | src/App.tsx:33 | the `order` table is one-to-one onto 0..2: high is 0, low is 2, medium is in between |
| View.CompareAsWritten | src/App.tsx:28-42 | the comparator as written: an incomplete task before a completed one; then priority rank, or a dated task before an undated one and earlier dates first, or the title comparison; an undated `a` always compares greater |
| View.Compare | src/App.tsx:28-42 | differs from the comparator as written exactly for two undated tasks in one completion group, which it makes equal; an undated `a` is never before `b` |
| View.AsWrittenDeadlineInconsistent | src/App.tsx:36-38 | the comparator as written says each of two undated tasks goes after the other |
| View.CompareAntisymmetric | src/App.tsx:28-42 | the comparator used flips sign when its arguments are swapped, for every key |
| View.LeTotal | src/App.tsx:28-42 | any two tasks are ordered one way or the other |
| View.LeTransitive | src/App.tsx:28-42 | "may stand before" is transitive |
| View.Insert | src/App.tsx:28 | inserting adds exactly the one element |
| View.SortTasks | src/App.tsx:28 | the sorted list is a permutation of its input |
| View.InsertSorted | src/App.tsx:28-42 | inserting into a sorted list keeps it sorted |
| View.SortSorted | src/App.tsx:28-42 | the sorted list is ordered by the comparator |
| View.InsertEqualTo | src/App.tsx:28 | insertion places an element before every element equal to it that follows |
| View.SortStable | src/App.tsx:28 | elements that compare equal keep their input order |
| View.Project | src/App.tsx:23-42 | every visible task satisfies the filter, and there are no more visible tasks than stored ones |
| View.ProjectCount | src/App.tsx:23-28 | the visible list is a permutation of the filtered tasks |
| View.IncompleteFirst | src/App.tsx:29-31 | every incomplete task precedes every completed one, whatever the sort key |
| View.PriorityWithinGroups | src/App.tsx:32-35 | under `priority`, ranks high 0, medium 1, low 2 never decrease within a completion group |
| View.DeadlineWithinGroups | src/App.tsx:36-40 | under `deadline`, within a group, dated tasks precede undated ones and dates ascend |
| View.AlphabetWithinGroups | src/App.tsx:41 | under `alphabet`, within a group, titles never decrease under the title comparison |
| View.ProjectStable | src/App.tsx:28-42 | tasks that compare equal appear in their store order |
| View.WorkedExample | src/App.tsx:28-35 | open high 1, done low 2, open medium 3, filter `all`, sort `priority` shows 1, 3, 2 |
| View.MainContent | src/App.tsx:57-78 | "no tasks yet" exactly when the store is empty; "no tasks matching the filter" exactly when it is not empty and the filter keeps none; otherwise the grid of the non-empty visible list |
| View.ProjectEmptyIff | src/App.tsx:23-25 | the visible list is empty exactly when the filter keeps no task |

## Findings

| source | as written | input that shows it | evidently intended | confidence | as-written member | corrected member |
|---|---|---|---|---|---|---|
| src/App.tsx:37 | `if (!a.deadline) return 1;` runs before `b` is looked at, so two tasks without a deadline each compare as greater than the other | sort by `deadline`, two incomplete tasks with `deadline` absent or `""` | two undated tasks compare equal and keep their order, as a stable sort does | medium, not executed | View.AsWrittenDeadlineInconsistent | View.CompareAntisymmetric |

`Array.prototype.sort` requires a consistent comparator. With this comparator, the relative order of undated tasks depends on the engine's sort. The model's `View.Compare` returns 0 for that pair, and `View.SortStable` proves that such tasks keep their input order.

## Left out

- Local storage (`src/utils/localStorage.ts`) is not part of this model. The save after each reducer becomes the ghost field `TaskStore.persisted`, and the initial load becomes the constructor's argument.
  - `JSON.parse` of malformed stored data throws (src/utils/localStorage.ts:5); a load does not fall back to an empty list. This is not modelled.
  - `localStorage.setItem` can throw (src/utils/localStorage.ts:9) when storage is full or disabled. Attachments are stored inline as data URLs, so one large file can exceed the quota. The throw escapes the reducer (src/features/tasks/tasksSlice.ts:16, 21, 25, 29, 34, 44, 55, 65), and the update is discarded. The model assumes every save succeeds: each `TaskStore` method promises the new list and `Saved()` without condition.
- Redux Toolkit and Immer are not modelled: action creators, the store, subscriptions and draft proxies. Each reducer is a direct state transition on `TaskStore`.
- Tasks and subtasks are values, not shared objects. `find` returns a reference that the reducer mutates, and the model writes the changed record back at the same index, which has the same effect on the list. Aliasing between the payload of `reorderTasks`/`updateTask` and other holders is not captured.
- Date parsing is not modelled: a deadline is already a day number. A non-empty deadline string that does not parse as a date (which makes the comparator return `NaN`) is not modelled.
- `localeCompare` is replaced by the parameter `tc`.
- The forms and modals are not modelled. They hold form handling, file reading, id generation and animation. Of the task the add form builds (src/components/Modals/AddTaskModal.tsx:65-75):
  - `completed: false` is not modelled;
  - `subTasks: []` is generalised to the precondition `UniqueSubIds(t.subTasks)` of `TaskOps.AddTaskKeepsWellFormed`;
  - the `uuidv4()` id becomes its precondition `!HasTask(items, t.id)`.
- Rendering, styling and the subtask counter on the task card are presentational and are not modelled.
- TasksSlice.TaskStore.ReorderTasks: the code does not check that the payload is a permutation of the list, so the model states no invariant for it.
