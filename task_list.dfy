/** The to-do list of `src/components/ToDoList/TaskList.tsx`: the tasks split
    into the pending ones, always shown, and the completed ones, shown in a
    collapsible section only when there are any. */
module TaskList {
  import opened Basics
  import opened TaskTypes

  function PendingTasks(tasks: seq<Task>): (r: seq<Task>)
    ensures forall t :: t in r <==> t in tasks && !t.completed
  {
    Filter(IsPending, tasks)
  }

  function CompletedTasks(tasks: seq<Task>): (r: seq<Task>)
    ensures forall t :: t in r <==> t in tasks && t.completed
  {
    Filter(IsCompleted, tasks)
  }

  /** The two lists split the tasks: every task is in exactly one of them,
      together they hold each task as often as the input does, and each
      keeps the input order. */
  lemma Partition(tasks: seq<Task>)
    ensures forall t :: t in tasks ==> (t in PendingTasks(tasks) <==> t !in CompletedTasks(tasks))
    ensures multiset(PendingTasks(tasks)) + multiset(CompletedTasks(tasks)) == multiset(tasks)
    ensures |PendingTasks(tasks)| + |CompletedTasks(tasks)| == |tasks|
    ensures IsSubsequence(PendingTasks(tasks), tasks) && IsSubsequence(CompletedTasks(tasks), tasks)
  {
    FilterSplit(IsPending, IsCompleted, tasks);
    FilterIsSubsequence(IsPending, tasks);
    FilterIsSubsequence(IsCompleted, tasks);
  }

  /** What the list renders: the pending cards, then, if any task is done,
      the "Completed Tasks (n)" section with its cards. */
  datatype View = View(pending: seq<Task>, completedSection: Option<(nat, seq<Task>)>)

  function Render(tasks: seq<Task>): (v: View)
    ensures v.pending == PendingTasks(tasks)
    ensures v.completedSection.Some? <==> exists t :: t in tasks && t.completed
    ensures v.completedSection.Some? ==>
              v.completedSection.value == (|CompletedTasks(tasks)|, CompletedTasks(tasks))
  {
    var done := CompletedTasks(tasks);
    assert |done| > 0 ==> done[0] in done;
    if |done| > 0 then View(PendingTasks(tasks), Some((|done|, done)))
    else View(PendingTasks(tasks), None)
  }
}
