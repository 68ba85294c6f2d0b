/**
  The task store of src/context/TaskContext.js: its state, the actions it
  accepts, the reducer that applies them, the payloads built by the edit and
  save helpers, and the filtered view the provider derives from the tasks.
 */
module TaskContext {
  import opened Seqs

  /** A payload field that may be absent. */
  datatype Option<T> = None | Some(value: T) {
    /** The field's value when present, `default` otherwise. */
    function GetOr(default: T): T {
      match this
      case Some(v) => v
      case None => default
    }
  }

  datatype Task = Task(id: int, text: string, completed: bool, isEditing: bool)

  /**
    The payload of an `UPDATE_TASK` action: the id that selects the tasks to
    change and the fields to overwrite on them; an absent field keeps its value.
   */
  datatype Patch = Patch(id: int, text: Option<string>, completed: Option<bool>, isEditing: Option<bool>)

  /** The actions the reducer recognises, each with its payload; `Other` is any other action type. */
  datatype Action =
    | AddTask(task: Task)
    | UpdateTask(patch: Patch)
    | DeleteTask(id: int)
    | ToggleCompleted(id: int)
    | SetFilter(filter: string)
    | Other

  datatype State = State(tasks: seq<Task>, filter: string)

  /** The object spread `{ ...t, ...p }`: every field present in `p` replaces the one of `t`. */
  function Merge(t: Task, p: Patch): (r: Task)
    ensures r.id == p.id
    ensures p.text.Some? ==> r.text == p.text.value
    ensures p.text.None? ==> r.text == t.text
    ensures p.completed.Some? ==> r.completed == p.completed.value
    ensures p.completed.None? ==> r.completed == t.completed
    ensures p.isEditing.Some? ==> r.isEditing == p.isEditing.value
    ensures p.isEditing.None? ==> r.isEditing == t.isEditing
  {
    Task(p.id, p.text.GetOr(t.text), p.completed.GetOr(t.completed), p.isEditing.GetOr(t.isEditing))
  }

  /** The callback given to `map` by `UPDATE_TASK`. */
  function MergeIf(p: Patch): (f: Task -> Task)
    ensures forall t: Task :: f(t).id == t.id
    ensures forall t: Task :: t.id != p.id ==> f(t) == t
    ensures forall t: Task :: f(f(t)) == f(t)
  {
    (t: Task) => if t.id == p.id then Merge(t, p) else t
  }

  /** The callback given to `map` by `TOGGLE_COMPLETED`. */
  function ToggleIf(id: int): (f: Task -> Task)
    ensures forall t: Task :: f(t).id == t.id && f(t).text == t.text && f(t).isEditing == t.isEditing
    ensures forall t: Task :: f(t).completed == (if t.id == id then !t.completed else t.completed)
    ensures forall t: Task :: f(f(t)) == t
  {
    (t: Task) => if t.id == id then t.(completed := !t.completed) else t
  }

  /** The callback given to `filter` by `DELETE_TASK`. */
  function OtherId(id: int): Task -> bool {
    (t: Task) => t.id != id
  }

  /** Selects the tasks that have the given id. */
  function SameId(id: int): Task -> bool {
    (t: Task) => t.id == id
  }

  /** The callbacks given to `filter` by the completed (`b`) and incomplete (`!b`) views. */
  function CompletedIs(b: bool): Task -> bool {
    (t: Task) => t.completed == b
  }

  /**
    The reducer. Every task action rebuilds `tasks` and keeps `filter`;
    `SET_FILTER` replaces `filter` and keeps `tasks`; any other action
    returns the state as it is.
   */
  function Reduce(state: State, action: Action): (r: State)
    ensures !action.SetFilter? ==> r.filter == state.filter
    ensures action.SetFilter? ==> r.tasks == state.tasks && r.filter == action.filter
    ensures action.Other? ==> r == state
  {
    match action
    case AddTask(t) => state.(tasks := state.tasks + [t])
    case UpdateTask(p) => state.(tasks := Map(state.tasks, MergeIf(p)))
    case DeleteTask(id) => state.(tasks := Filter(state.tasks, OtherId(id)))
    case ToggleCompleted(id) => state.(tasks := Map(state.tasks, ToggleIf(id)))
    case SetFilter(f) => state.(filter := f)
    case Other => state
  }

  /** The action `handleEditTask(id)` dispatches: switch the task into editing mode. */
  function EditTaskAction(id: int): (a: Action)
    ensures a.UpdateTask? && a.patch.id == id
    ensures forall t: Task :: MergeIf(a.patch)(t) == if t.id == id then t.(isEditing := true) else t
  {
    UpdateTask(Patch(id, None, None, Some(true)))
  }

  /** The action `handleSaveTask(id, text)` dispatches: store the edited text and leave editing mode. */
  function SaveTaskAction(id: int, text: string): (a: Action)
    ensures a.UpdateTask? && a.patch.id == id
    ensures forall t: Task :: MergeIf(a.patch)(t) == if t.id == id then t.(text := text, isEditing := false) else t
  {
    UpdateTask(Patch(id, Some(text), None, Some(false)))
  }

  /** The provider's `filteredTasks`: the tasks shown under a filter value. */
  function FilteredTasks(tasks: seq<Task>, filter: string): (r: seq<Task>)
    ensures |r| <= |tasks|
    ensures forall t: Task :: t in r <==> t in tasks && (filter == "completed" ==> t.completed) && (filter == "incomplete" ==> !t.completed)
  {
    match filter
    case "all" => tasks
    case "completed" => Filter(tasks, CompletedIs(true))
    case "incomplete" => Filter(tasks, CompletedIs(false))
    case _ => tasks
  }

  /** No two tasks share an id. The reducer does not enforce this. */
  ghost predicate UniqueIds(tasks: seq<Task>) {
    forall i, j :: 0 <= i < j < |tasks| ==> tasks[i].id != tasks[j].id
  }

  // ----- ADD_TASK -----

  /** `ADD_TASK` appends its payload as it is: the old tasks stay in front, the payload is last. */
  lemma AddTaskAppends(s: State, t: Task)
    ensures var r := Reduce(s, AddTask(t));
      && |r.tasks| == |s.tasks| + 1
      && r.tasks[..|s.tasks|] == s.tasks
      && r.tasks[|s.tasks|] == t
      && r.filter == s.filter
  {
  }

  // ----- UPDATE_TASK -----

  /**
    `UPDATE_TASK` keeps the length and the order. A task with a different id is
    left as it is; on a task with the payload's id exactly the fields present in
    the payload are overwritten and every other field keeps its value.
   */
  lemma UpdateTaskMerges(s: State, p: Patch)
    ensures var r := Reduce(s, UpdateTask(p));
      && r.filter == s.filter
      && |r.tasks| == |s.tasks|
      && forall i :: 0 <= i < |s.tasks| ==>
           var t, u := s.tasks[i], r.tasks[i];
           if t.id == p.id then
             && u.id == t.id
             && u.text == (if p.text.Some? then p.text.value else t.text)
             && u.completed == (if p.completed.Some? then p.completed.value else t.completed)
             && u.isEditing == (if p.isEditing.Some? then p.isEditing.value else t.isEditing)
           else u == t
  {
  }

  /** Applying the same update twice is the same as applying it once. */
  lemma UpdateTaskIdempotent(s: State, p: Patch)
    ensures Reduce(Reduce(s, UpdateTask(p)), UpdateTask(p)) == Reduce(s, UpdateTask(p))
  {
  }

  /** An update whose id matches no task, or whose payload carries no field, changes nothing. */
  lemma UpdateTaskNoEffect(s: State, p: Patch)
    requires (forall t :: t in s.tasks ==> t.id != p.id) || (p.text.None? && p.completed.None? && p.isEditing.None?)
    ensures Reduce(s, UpdateTask(p)) == s
  {
  }

  // ----- DELETE_TASK -----

  /**
    `DELETE_TASK` keeps, in their original order, exactly the tasks whose id
    differs from the payload: none with that id remains, every other task
    survives, and the number removed is the number that had the id.
   */
  lemma DeleteTaskRemoves(s: State, id: int)
    ensures var r := Reduce(s, DeleteTask(id));
      && r.filter == s.filter
      && (forall t :: t in r.tasks <==> t in s.tasks && t.id != id)
      && IsSubsequence(r.tasks, s.tasks)
      && |r.tasks| + |Filter(s.tasks, SameId(id))| == |s.tasks|
  {
    FilterIsSubsequence(s.tasks, OtherId(id));
    FilterPartition(s.tasks, OtherId(id), SameId(id));
  }

  /** Deleting an id no task has leaves the tasks unchanged, and only then. */
  lemma DeleteTaskNoMatch(s: State, id: int)
    ensures Reduce(s, DeleteTask(id)) == s <==> forall t :: t in s.tasks ==> t.id != id
  {
    FilterKeepsAll(s.tasks, OtherId(id));
  }

  /** Deleting earlier and later tasks are independent: deletion acts on each part of the list separately. */
  lemma DeleteTaskSplits(a: seq<Task>, b: seq<Task>, f: string, id: int)
    ensures Reduce(State(a + b, f), DeleteTask(id)).tasks
         == Reduce(State(a, f), DeleteTask(id)).tasks + Reduce(State(b, f), DeleteTask(id)).tasks
  {
    FilterConcat(a, b, OtherId(id));
  }

  /** Deleting the id of a task just added, when no other task had that id, undoes the add. */
  lemma DeleteUndoesAdd(s: State, t: Task)
    requires forall u :: u in s.tasks ==> u.id != t.id
    ensures Reduce(Reduce(s, AddTask(t)), DeleteTask(t.id)) == s
  {
    FilterConcat(s.tasks, [t], OtherId(t.id));
    FilterKeepsAll(s.tasks, OtherId(t.id));
    assert Filter([t], OtherId(t.id)) == [];
  }

  // ----- TOGGLE_COMPLETED -----

  /**
    `TOGGLE_COMPLETED` flips `completed` on every task with the payload's id and
    changes no other field and no other task.
   */
  lemma ToggleFlips(s: State, id: int)
    ensures var r := Reduce(s, ToggleCompleted(id));
      && r.filter == s.filter
      && |r.tasks| == |s.tasks|
      && forall i :: 0 <= i < |s.tasks| ==>
           var t, u := s.tasks[i], r.tasks[i];
           if t.id == id then
             u.completed == !t.completed && u.id == t.id && u.text == t.text && u.isEditing == t.isEditing
           else u == t
  {
  }

  /** Toggling the same id twice gives back the original state. */
  lemma ToggleTwiceIsIdentity(s: State, id: int)
    ensures Reduce(Reduce(s, ToggleCompleted(id)), ToggleCompleted(id)) == s
  {
  }

  // ----- Unique ids -----

  /** Shortening a list from either end keeps its ids unique. */
  lemma UniqueIdsSlice(tasks: seq<Task>, lo: nat, hi: nat)
    requires UniqueIds(tasks) && lo <= hi <= |tasks|
    ensures UniqueIds(tasks[lo..hi])
  {
    forall i, j | 0 <= i < j < hi - lo
      ensures tasks[lo..hi][i].id != tasks[lo..hi][j].id
    {
      assert tasks[lo..hi][i] == tasks[lo + i] && tasks[lo..hi][j] == tasks[lo + j];
    }
  }

  /** A task put in front of a list keeps ids unique when its id is new to the list. */
  lemma UniqueIdsCons(t: Task, rest: seq<Task>)
    requires UniqueIds(rest) && forall u :: u in rest ==> u.id != t.id
    ensures UniqueIds([t] + rest)
  {
    var r := [t] + rest;
    forall i, j | 0 <= i < j < |r|
      ensures r[i].id != r[j].id
    {
      assert r[j] == rest[j - 1];
      if i == 0 {
        assert rest[j - 1] in rest;
      } else {
        assert r[i] == rest[i - 1];
      }
    }
  }

  /** Filtering a list with unique ids yields a list with unique ids. */
  lemma {:induction false} FilterKeepsUniqueIds(tasks: seq<Task>, p: Task -> bool)
    requires UniqueIds(tasks)
    ensures UniqueIds(Filter(tasks, p))
  {
    if tasks != [] {
      var rest := tasks[1..];
      UniqueIdsSlice(tasks, 1, |tasks|);
      FilterKeepsUniqueIds(rest, p);
      if p(tasks[0]) {
        forall u | u in Filter(rest, p)
          ensures u.id != tasks[0].id
        {
          var m :| 0 <= m < |rest| && rest[m] == u;
          assert tasks[m + 1] == u;
        }
        UniqueIdsCons(tasks[0], Filter(rest, p));
      }
    }
  }

  /**
    Ids stay unique under every action except an `ADD_TASK` whose payload
    reuses an id already present; that one breaks uniqueness.
   */
  lemma ReduceKeepsUniqueIds(s: State, a: Action)
    requires UniqueIds(s.tasks)
    ensures UniqueIds(Reduce(s, a).tasks) <==> !(a.AddTask? && exists t :: t in s.tasks && t.id == a.task.id)
  {
    match a
    case AddTask(n) =>
      var r := s.tasks + [n];
      if exists t :: t in s.tasks && t.id == n.id {
        var t :| t in s.tasks && t.id == n.id;
        var k :| 0 <= k < |s.tasks| && s.tasks[k] == t;
        assert r[k].id == r[|s.tasks|].id;
      } else {
        forall i, j | 0 <= i < j < |r|
          ensures r[i].id != r[j].id
        {
          if j == |s.tasks| {
            assert r[i] in s.tasks;
          }
        }
      }
    case DeleteTask(id) =>
      FilterKeepsUniqueIds(s.tasks, OtherId(id));
    case UpdateTask(p) =>
    case ToggleCompleted(id) =>
    case SetFilter(f) =>
    case Other =>
  }

  // ----- The edit and save helpers -----

  /** `handleEditTask(id)` puts every task with that id into editing mode and changes nothing else. */
  lemma EditTaskStartsEditing(s: State, id: int)
    ensures var r := Reduce(s, EditTaskAction(id));
      && r.filter == s.filter
      && |r.tasks| == |s.tasks|
      && forall i :: 0 <= i < |s.tasks| ==>
           r.tasks[i] == if s.tasks[i].id == id then s.tasks[i].(isEditing := true) else s.tasks[i]
  {
    UpdateTaskMerges(s, Patch(id, None, None, Some(true)));
  }

  /**
    `handleSaveTask(id, text)` stores `text` on every task with that id and
    takes it out of editing mode; its id and completion flag are kept.
   */
  lemma SaveTaskStoresText(s: State, id: int, text: string)
    ensures var r := Reduce(s, SaveTaskAction(id, text));
      && r.filter == s.filter
      && |r.tasks| == |s.tasks|
      && forall i :: 0 <= i < |s.tasks| ==>
           r.tasks[i] == if s.tasks[i].id == id then s.tasks[i].(text := text, isEditing := false) else s.tasks[i]
  {
    UpdateTaskMerges(s, Patch(id, Some(text), None, Some(false)));
  }

  // ----- The filtered view -----

  /** How many copies of a task each of the completed and incomplete views holds. */
  lemma ViewCount(tasks: seq<Task>, t: Task)
    ensures multiset(Filter(tasks, CompletedIs(true)))[t] == if t.completed then multiset(tasks)[t] else 0
    ensures multiset(Filter(tasks, CompletedIs(false)))[t] == if t.completed then 0 else multiset(tasks)[t]
  {
    FilterPartition(tasks, CompletedIs(true), CompletedIs(false));
    if t.completed {
      assert t !in Filter(tasks, CompletedIs(false));
    } else {
      assert t !in Filter(tasks, CompletedIs(true));
    }
  }

  /**
    The completed view holds exactly the completed tasks, in their original
    order, each as many times as it occurs among the tasks.
   */
  lemma CompletedView(tasks: seq<Task>)
    ensures var v := FilteredTasks(tasks, "completed");
      && (forall t :: t in v <==> t in tasks && t.completed)
      && (forall t: Task :: multiset(v)[t] == if t.completed then multiset(tasks)[t] else 0)
      && IsSubsequence(v, tasks)
  {
    FilterIsSubsequence(tasks, CompletedIs(true));
    forall t: Task
      ensures multiset(Filter(tasks, CompletedIs(true)))[t] == if t.completed then multiset(tasks)[t] else 0
    {
      ViewCount(tasks, t);
    }
  }

  /**
    The incomplete view holds exactly the tasks not yet completed, in their
    original order, each as many times as it occurs among the tasks.
   */
  lemma IncompleteView(tasks: seq<Task>)
    ensures var v := FilteredTasks(tasks, "incomplete");
      && (forall t :: t in v <==> t in tasks && !t.completed)
      && (forall t: Task :: multiset(v)[t] == if t.completed then 0 else multiset(tasks)[t])
      && IsSubsequence(v, tasks)
  {
    FilterIsSubsequence(tasks, CompletedIs(false));
    forall t: Task
      ensures multiset(Filter(tasks, CompletedIs(false)))[t] == if t.completed then 0 else multiset(tasks)[t]
    {
      ViewCount(tasks, t);
    }
  }

  /** `"all"` and every value other than `"completed"` and `"incomplete"` show all tasks. */
  lemma OtherViewsShowAll(tasks: seq<Task>, filter: string)
    requires filter != "completed" && filter != "incomplete"
    ensures FilteredTasks(tasks, filter) == tasks
  {
  }

  /** Every task is in exactly one of the completed and incomplete views. */
  lemma ViewsPartition(tasks: seq<Task>)
    ensures multiset(FilteredTasks(tasks, "completed")) + multiset(FilteredTasks(tasks, "incomplete")) == multiset(tasks)
    ensures |FilteredTasks(tasks, "completed")| + |FilteredTasks(tasks, "incomplete")| == |tasks|
  {
    FilterPartition(tasks, CompletedIs(true), CompletedIs(false));
  }

  /**
    Adding a task appends it to a view exactly when the view shows such a task:
    the completed view a completed one, the incomplete view one not completed,
    every other view any task.
   */
  lemma AddTaskExtendsView(s: State, t: Task, filter: string)
    ensures var shown := (filter == "completed" ==> t.completed) && (filter == "incomplete" ==> !t.completed);
      FilteredTasks(Reduce(s, AddTask(t)).tasks, filter)
         == FilteredTasks(s.tasks, filter) + (if shown then [t] else [])
  {
    if filter == "completed" || filter == "incomplete" {
      var p := CompletedIs(filter == "completed");
      FilterConcat(s.tasks, [t], p);
      assert Filter([t], p) == if p(t) then [t] else [];
    }
  }

  /**
    Starting empty, adding an incomplete task and toggling it leaves the
    task completed and nothing to show in the incomplete view.
   */
  lemma AddToggleFilterScenario(id: int, text: string)
    ensures var s0 := State([], "all");
      var s1 := Reduce(s0, AddTask(Task(id, text, false, false)));
      var s2 := Reduce(s1, ToggleCompleted(id));
      && s2.tasks == [Task(id, text, true, false)]
      && FilteredTasks(s2.tasks, "incomplete") == []
  {
  }
}
