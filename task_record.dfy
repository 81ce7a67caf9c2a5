/** `Task` of `src-tauri/src/commands/Task/task.rs`: a task built from a
    `TaskElement`, a `GanttElement` and its subtasks. The `update_*`
    functions rebuild it under a new id (`Uuid::new_v4()` is the `freshId`
    parameter); `push_subtask` and `removed_subtask` change the subtask list
    and keep the id. */
module TaskRecord {
  import opened Basics
  import TE = TaskElementRecord
  import GE = GanttElementRecord

  type Uuid = string

  /** A subtask: only its id matters here. */
  datatype Subtask = Subtask(id: string, description: string, completed: bool)

  datatype Task = Task(id: Uuid, completed: bool, taskElement: TE.TaskElement,
                       ganttElement: GE.GanttElement, subtasks: seq<Subtask>)

  /** What `removed_subtask` does: return the task, or panic in `unwrap`. */
  datatype Outcome = Returned(task: Task) | Panicked

  function Default(freshId: Uuid): (t: Task)
    ensures t.id == freshId && !t.completed && t.subtasks == []
    ensures t.taskElement == TE.Default() && t.ganttElement == GE.Default()
  {
    Task(freshId, false, TE.Default(), GE.Default(), [])
  }

  function UpdateCompleted(t: Task, completed: bool, freshId: Uuid): (r: Task)
    ensures r.id == freshId && r.completed == completed
    ensures r.taskElement == t.taskElement && r.ganttElement == t.ganttElement && r.subtasks == t.subtasks
  {
    Task(freshId, completed, t.taskElement, t.ganttElement, t.subtasks)
  }

  function UpdateTaskElement(t: Task, e: TE.TaskElement, freshId: Uuid): (r: Task)
    ensures r.id == freshId && r.taskElement == e
    ensures r.completed == t.completed && r.ganttElement == t.ganttElement && r.subtasks == t.subtasks
  {
    Task(freshId, t.completed, e, t.ganttElement, t.subtasks)
  }

  function UpdateGanttElement(t: Task, g: GE.GanttElement, freshId: Uuid): (r: Task)
    ensures r.id == freshId && r.ganttElement == g
    ensures r.completed == t.completed && r.taskElement == t.taskElement && r.subtasks == t.subtasks
  {
    Task(freshId, t.completed, t.taskElement, g, t.subtasks)
  }

  /** Updates of different components commute: the result carries the
      last fresh id and both new components. */
  lemma UpdatesCommute(t: Task, c: bool, e: TE.TaskElement, g: GE.GanttElement, id1: Uuid, id2: Uuid)
    ensures UpdateTaskElement(UpdateCompleted(t, c, id1), e, id2) == UpdateCompleted(UpdateTaskElement(t, e, id1), c, id2)
    ensures UpdateGanttElement(UpdateCompleted(t, c, id1), g, id2) == UpdateCompleted(UpdateGanttElement(t, g, id1), c, id2)
    ensures UpdateGanttElement(UpdateTaskElement(t, e, id1), g, id2) == UpdateTaskElement(UpdateGanttElement(t, g, id1), e, id2)
  {
  }

  /** `push_subtask`: the subtask goes at the end. */
  method PushSubtask(t: Task, subtask: Subtask) returns (r: Task)
    ensures r.subtasks == t.subtasks + [subtask]
    ensures r.id == t.id && r.completed == t.completed
    ensures r.taskElement == t.taskElement && r.ganttElement == t.ganttElement
  {
    var subtasks := t.subtasks;
    subtasks := subtasks + [subtask];
    r := Task(t.id, t.completed, t.taskElement, t.ganttElement, subtasks);
  }

  /** The index `iter().enumerate().find` stops at: the first subtask with
      the id. */
  function FirstIndex(subtasks: seq<Subtask>, id: string): (r: Option<nat>)
    ensures r.Some? ==> r.value < |subtasks| && subtasks[r.value].id == id
                        && forall j :: 0 <= j < r.value ==> subtasks[j].id != id
    ensures r.None? ==> forall j :: 0 <= j < |subtasks| ==> subtasks[j].id != id
  {
    if subtasks == [] then None
    else if subtasks[0].id == id then Some(0)
    else
      var k := FirstIndex(subtasks[1..], id);
      if k.Some? then Some(k.value + 1) else None
  }

  /** `removed_subtask` as a function of its inputs. */
  function RemovedSubtask(t: Task, subtask: Subtask): Outcome {
    match FirstIndex(t.subtasks, subtask.id)
    case None => Panicked
    case Some(k) => Returned(t.(subtasks := t.subtasks[..k] + t.subtasks[k + 1..]))
  }

  /** `removed_subtask`: find the first subtask with the id, panic if there
      is none, otherwise remove it. */
  method RemoveSubtask(t: Task, subtask: Subtask) returns (r: Outcome)
    ensures r == RemovedSubtask(t, subtask)
  {
    var subtasks := t.subtasks;
    var i := 0;
    while i < |subtasks| && subtasks[i].id != subtask.id
      invariant 0 <= i <= |subtasks|
      invariant forall j :: 0 <= j < i ==> subtasks[j].id != subtask.id
    {
      i := i + 1;
    }
    FirstIndexIs(subtasks, subtask.id, i);
    if i == |subtasks| {
      return Panicked;
    }
    subtasks := subtasks[..i] + subtasks[i + 1..];
    r := Returned(Task(t.id, t.completed, t.taskElement, t.ganttElement, subtasks));
  }

  lemma FirstIndexIs(subtasks: seq<Subtask>, id: string, i: nat)
    requires i <= |subtasks| && forall j :: 0 <= j < i ==> subtasks[j].id != id
    requires i < |subtasks| ==> subtasks[i].id == id
    ensures FirstIndex(subtasks, id) == if i == |subtasks| then None else Some(i)
  {
    var r := FirstIndex(subtasks, id);
    if r.Some? {
      assert r.value >= i;
    }
  }

  /** Removal panics exactly when no subtask has the id; otherwise the first
      such subtask goes, the others keep their order, and the task keeps
      its id, state and elements. */
  lemma RemovedSubtaskSpec(t: Task, subtask: Subtask)
    ensures RemovedSubtask(t, subtask) == Panicked <==> forall s :: s in t.subtasks ==> s.id != subtask.id
    ensures RemovedSubtask(t, subtask).Returned? ==>
              var r := RemovedSubtask(t, subtask).task;
              var k := FirstIndex(t.subtasks, subtask.id).value;
              |r.subtasks| == |t.subtasks| - 1
              && r.subtasks == t.subtasks[..k] + t.subtasks[k + 1..]
              && multiset(r.subtasks) + multiset{t.subtasks[k]} == multiset(t.subtasks)
              && r.id == t.id && r.completed == t.completed
              && r.taskElement == t.taskElement && r.ganttElement == t.ganttElement
  {
    var k := FirstIndex(t.subtasks, subtask.id);
    if k.Some? {
      var s := t.subtasks;
      assert s == s[..k.value] + [s[k.value]] + s[k.value + 1..];
      assert s[k.value] in s;
    } else {
      forall s | s in t.subtasks ensures s.id != subtask.id {
        var j :| 0 <= j < |t.subtasks| && t.subtasks[j] == s;
      }
    }
  }

  /** Pushing a subtask whose id is new and removing it again gives back the
      original subtasks. */
  lemma PushThenRemove(t: Task, subtask: Subtask)
    requires forall s :: s in t.subtasks ==> s.id != subtask.id
    ensures RemovedSubtask(t.(subtasks := t.subtasks + [subtask]), subtask) == Returned(t)
  {
    var s := t.subtasks + [subtask];
    FirstIndexIs(s, subtask.id, |t.subtasks|);
    assert s[..|t.subtasks|] + s[|t.subtasks| + 1..] == t.subtasks;
  }
}
