# Task store of hooksAct, modelled in Dafny

hooksAct is a single-page task list written with React. Its store, in
`src/context/TaskContext.js`, keeps a state `{ tasks, filter }` and changes it
only through one reducer, `taskReducer`, which answers five action types:
`ADD_TASK` appends a task, `UPDATE_TASK` merges a partial record into the tasks
with a given id, `DELETE_TASK` removes the tasks with a given id,
`TOGGLE_COMPLETED` flips the completion flag of the tasks with a given id, and
`SET_FILTER` replaces the filter; any other action leaves the state as it is.
The provider also derives `filteredTasks`, the tasks shown under the filter
values `"all"`, `"completed"` and `"incomplete"`, and offers two helpers,
`handleEditTask` and `handleSaveTask`, that dispatch `UPDATE_TASK` with fixed
payloads.

The model is pure, like the source:

- `seqs.dfy` (module `Seqs`): `Array.prototype.filter` and
  `Array.prototype.map` as the functions `Filter` and `Map` on sequences. It
  also proves what a filter keeps, that it keeps the original order, how it
  treats a concatenation, and how a predicate and its complement split a
  sequence.
- `task_context.dfy` (module `TaskContext`): the datatypes `Task`, `Patch`,
  `Action` and `State`; the reducer `Reduce`; the payload builders
  `EditTaskAction` and `SaveTaskAction`; the view `FilteredTasks`; and the
  lemmas about them.

Modelling choices:

- Task ids are integers, compared with `==` as the source compares them with `===`.
- The `UPDATE_TASK` payload is a `Patch`. It always carries the `id` that
  selects the tasks to change. The fields `text`, `completed` and `isEditing`
  are each `Option`s, present or absent. `{ ...task, ...payload }` overwrites
  exactly the present fields. It also copies the payload's `id`, which equals
  the task's own id on every task that matches.
- The reducer does not assume ids are unique. Update, toggle and delete act on
  every task whose id matches. `ReduceKeepsUniqueIds` shows which actions keep
  ids unique when they start unique.
- `ADD_TASK` appends its payload verbatim. The reducer rejects no blank text
  and makes no fresh id. The only blank-text guard is in the view
  (src/components/TaskManager.js:24), and none of the code modelled generates
  ids.
- The view is a function of the tasks and a filter string. In the source the
  provider reads the filter from a separate `useState` value, not from the
  reducer's `filter`.

## Model

The `filter` callbacks `OtherId`, `SameId` and `CompletedIs` have no contract
of their own; what they select is stated by `DeleteTaskRemoves`,
`CompletedView` and `IncompleteView`. `Seqs.Map` models both the
`UPDATE_TASK` map (lines 28-30) and the `TOGGLE_COMPLETED` map (lines 40-44).

| member | source | states |
|---|---|---|
| `TaskContext.Reduce` | src/context/TaskContext.js:18-54 | `SET_FILTER` sets the filter to its payload and keeps the tasks; every other action keeps the filter; an unrecognised action returns the state unchanged |
| `TaskContext.Merge` | src/context/TaskContext.js:29 | the spread `{ ...task, ...payload }`: the result takes the payload's id, takes every field present in the payload, and keeps the task's value for every absent field |
| `TaskContext.MergeIf` | src/context/TaskContext.js:28-29 | the `UPDATE_TASK` callback never changes a task's id, leaves every task with another id unchanged, and applying it twice equals applying it once |
| `TaskContext.ToggleIf` | src/context/TaskContext.js:40-44 | the `TOGGLE_COMPLETED` callback flips `completed` exactly on tasks with the id, keeps id, text and `isEditing`, and applied twice gives back the task |
| `TaskContext.EditTaskAction` | src/context/TaskContext.js:102-110 | the `handleEditTask` action is an `UPDATE_TASK` for the id whose merge sets `isEditing` to true on tasks with that id and leaves every other task as it is |
| `TaskContext.SaveTaskAction` | src/context/TaskContext.js:113-122 | the `handleSaveTask` action is an `UPDATE_TASK` for the id whose merge sets `text` and clears `isEditing` on tasks with that id and leaves every other task as it is |
| `TaskContext.FilteredTasks` | src/context/TaskContext.js:73-84 | the view is no longer than the tasks; a task is shown exactly when it is among the tasks and is completed under `"completed"`, not completed under `"incomplete"`, and always under any other filter value |
| `TaskContext.AddTaskAppends` | src/context/TaskContext.js:20-24 | `ADD_TASK` adds one task; the old tasks stay as the prefix; the payload is the last task; the filter is kept |
| `TaskContext.UpdateTaskMerges` | src/context/TaskContext.js:25-31 | `UPDATE_TASK` keeps length and order; tasks with another id are unchanged; on matching tasks exactly the payload's present fields are overwritten, the id and the absent fields keep their values |
| `TaskContext.UpdateTaskIdempotent` | src/context/TaskContext.js:25-31 | applying the same `UPDATE_TASK` twice gives the same state as applying it once |
| `TaskContext.UpdateTaskNoEffect` | src/context/TaskContext.js:25-31 | an update whose id matches no task, or whose payload has no field besides the id, leaves the state unchanged |
| `TaskContext.DeleteTaskRemoves` | src/context/TaskContext.js:32-36 | after `DELETE_TASK` a task is present exactly when it was present and had another id; the result is an order-preserving subsequence; removed count equals the number of tasks with that id; filter kept |
| `TaskContext.DeleteTaskNoMatch` | src/context/TaskContext.js:32-36 | `DELETE_TASK` leaves the state unchanged if and only if no task has that id |
| `TaskContext.DeleteTaskSplits` | src/context/TaskContext.js:32-36 | deleting from a concatenation of two lists equals deleting from each list and concatenating, so relative order is kept |
| `TaskContext.DeleteUndoesAdd` | src/context/TaskContext.js:20-36 | adding a task whose id no task has, then deleting that id, gives back the original state |
| `TaskContext.ToggleFlips` | src/context/TaskContext.js:37-45 | `TOGGLE_COMPLETED` flips `completed` on every task with that id; the other fields and the other tasks are unchanged; length and filter are kept |
| `TaskContext.ToggleTwiceIsIdentity` | src/context/TaskContext.js:37-45 | toggling the same id twice returns the original state |
| `TaskContext.FilterKeepsUniqueIds` | src/context/TaskContext.js:35 | removing tasks never creates two tasks with the same id |
| `TaskContext.ReduceKeepsUniqueIds` | src/context/TaskContext.js:18-54 | from unique ids, the result has unique ids if and only if the action is not an `ADD_TASK` whose payload id is already present |
| `TaskContext.EditTaskStartsEditing` | src/context/TaskContext.js:102-110 | dispatching the `handleEditTask` payload sets `isEditing` to true on every task with that id and changes nothing else |
| `TaskContext.SaveTaskStoresText` | src/context/TaskContext.js:113-122 | dispatching the `handleSaveTask` payload sets `text` and clears `isEditing` on every task with that id; id and `completed` are kept; other tasks unchanged |
| `TaskContext.ViewCount` | src/context/TaskContext.js:77-80 | a task occurs in the completed view as often as among the tasks if it is completed and not at all otherwise, and the other way round in the incomplete view |
| `TaskContext.CompletedView` | src/context/TaskContext.js:77-78 | the `"completed"` view holds exactly the completed tasks, each with its number of copies among the tasks, as a subsequence of the tasks in their order |
| `TaskContext.IncompleteView` | src/context/TaskContext.js:79-80 | the `"incomplete"` view holds exactly the tasks not completed, each with its number of copies among the tasks, as a subsequence of the tasks in their order |
| `TaskContext.OtherViewsShowAll` | src/context/TaskContext.js:74-83 | `"all"` and every unrecognised filter value show all tasks |
| `TaskContext.ViewsPartition` | src/context/TaskContext.js:77-80 | the completed and incomplete views together hold every task exactly once: their multisets add up to the tasks' multiset and their lengths to its length |
| `TaskContext.AddTaskExtendsView` | src/context/TaskContext.js:20-24 | after `ADD_TASK`, each view is the old view followed by the new task exactly when the task is completed (completed view), not completed (incomplete view), or always (every other filter value) |
| `TaskContext.AddToggleFilterScenario` | src/context/TaskContext.js:18-84 | from an empty list, add an incomplete task and toggle it: the task is completed and the `"incomplete"` view is empty |
| `Seqs.Filter` | src/context/TaskContext.js:35 | the result is no longer than the input; its elements are exactly the input's elements that satisfy the predicate |
| `Seqs.Map` | src/context/TaskContext.js:28-44 | the result has the input's length and holds the callback's image of each element at the same position |
| `Seqs.FilterIsSubsequence` | src/context/TaskContext.js:35 | a filter result is a subsequence of its input: filtering never reorders |
| `Seqs.FilterConcat` | src/context/TaskContext.js:35 | filtering a concatenation equals concatenating the filtered parts |
| `Seqs.FilterKeepsAll` | src/context/TaskContext.js:35 | a filter returns its input unchanged if and only if every element satisfies the predicate |
| `Seqs.FilterPartition` | src/context/TaskContext.js:78-80 | a predicate and its complement split a sequence: the multisets and lengths of the two results add up to the input's |

## Left out

- React machinery is not modelled: `createContext`, `useReducer`, `useState`, `useMemo` and the provider's JSX (src/context/TaskContext.js:57-141). It has no behaviour of its own to state.
- The provider's separate `filter` held in `useState` (src/context/TaskContext.js:70) is not reconciled with the reducer's `filter`. The view takes the filter as a parameter.
- Loading from and saving to `localStorage`, and the `JSON.parse`/`JSON.stringify` round trip (src/context/TaskContext.js:10-15, 66-68), are browser I/O and library code. The initial state is not modelled; every lemma holds for any state.
- `addTask`, `toggleTaskCompletion` and `deleteTask` (src/context/TaskContext.js:87-99) only wrap their argument in an action. They are the constructors `AddTask`, `ToggleCompleted` and `DeleteTask`.
- JavaScript's dynamic payloads are not modelled. An `UPDATE_TASK` payload with fields beyond the four task fields, or without an `id`, has no counterpart. Nor does an `ADD_TASK` payload that is not a task, such as the raw string `src/components/TaskManager.js` passes.
- `src/components/TaskManager.js` (rendering, focus, the blank-text guard in the view) and `src/App.js` (composition only) are not part of this model.
