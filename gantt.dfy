/** The timeline layout engine of the Gantt chart view
    (`src/components/GanttChart/GanttChartView.tsx`).

    Date-times are instants in milliseconds. Turning a task's ISO text into an
    instant (`new Date(s).getTime()`) is the parameter `toMs`; "now" is the
    parameter `today`. A day is a fixed 86 400 000 ms. */
module GanttLayout {
  import opened Basics
  import opened TaskTypes

  const PixelsPerDay: int := 50
  const DayMs: int := 86400000
  /** `Number.MAX_SAFE_INTEGER`, the start value of the earliest-start accumulator. */
  const MaxSafeInteger: int := 9007199254740991
  const UnassignedId: string := "unassigned"
  const UnassignedName: string := "Unassigned"

  /** One labelled row block of the chart: a group and its tasks. */
  datatype Row = Row(id: string, name: string, tasks: seq<Task>)

  /** The padded date window: its first and last instant and its width in days. */
  datatype Window = Window(minDate: int, maxDate: int, totalDays: int)

  /** A task bar: its left offset and its width, in pixels. */
  datatype Bar = Bar(x: real, width: real)

  // ---------------------------------------------------------------- filtering

  /** A task is laid out when its start and end are non-empty and it is not deleted. */
  predicate IsValid(t: Task) {
    Truthy(t.start_datetime) && Truthy(t.end_datetime) && !Truthy(t.deleted_at)
  }

  function ValidTasks(tasks: seq<Task>): (r: seq<Task>)
    ensures forall t :: t in r <==> t in tasks && IsValid(t)
  {
    Filter(IsValid, tasks)
  }

  lemma ValidTasksKeepOrder(tasks: seq<Task>)
    ensures IsSubsequence(ValidTasks(tasks), tasks)
  {
    FilterIsSubsequence(IsValid, tasks);
  }

  function StartMs(t: Task, toMs: string -> int): int {
    toMs(t.start_datetime.GetOr(""))
  }

  function EndMs(t: Task, toMs: string -> int): int {
    toMs(t.end_datetime.GetOr(""))
  }

  // ------------------------------------------------- stable sort by start time

  predicate SortedByStart(s: seq<Task>, toMs: string -> int) {
    forall i, j :: 0 <= i < j < |s| ==> StartMs(s[i], toMs) <= StartMs(s[j], toMs)
  }

  /** Inserts `x` after every element of `sorted` that does not start later. */
  function InsertByStart(sorted: seq<Task>, x: Task, toMs: string -> int): seq<Task>
    decreases |sorted|
  {
    if sorted == [] then [x]
    else if StartMs(sorted[|sorted| - 1], toMs) <= StartMs(x, toMs) then sorted + [x]
    else InsertByStart(sorted[..|sorted| - 1], x, toMs) + [sorted[|sorted| - 1]]
  }

  /** The stable ascending sort by start that `Array.prototype.sort` performs
      with the comparator `start(a) - start(b)`. */
  function SortByStart(s: seq<Task>, toMs: string -> int): seq<Task>
    decreases |s|
  {
    if s == [] then []
    else InsertByStart(SortByStart(s[..|s| - 1], toMs), s[|s| - 1], toMs)
  }

  /** The tasks that start at instant `k`. */
  function StartsAt(k: int, toMs: string -> int): Task -> bool {
    (t: Task) => StartMs(t, toMs) == k
  }

  /** Inserting adds exactly `x`. */
  lemma {:induction false} InsertByStartPerm(sorted: seq<Task>, x: Task, toMs: string -> int)
    ensures multiset(InsertByStart(sorted, x, toMs)) == multiset(sorted) + multiset{x}
    decreases |sorted|
  {
    if sorted != [] {
      var n := |sorted| - 1;
      assert sorted == sorted[..n] + [sorted[n]];
      if StartMs(x, toMs) < StartMs(sorted[n], toMs) {
        InsertByStartPerm(sorted[..n], x, toMs);
      }
    }
  }

  lemma SortedSnoc(s: seq<Task>, y: Task, toMs: string -> int)
    requires SortedByStart(s, toMs)
    requires forall i :: 0 <= i < |s| ==> StartMs(s[i], toMs) <= StartMs(y, toMs)
    ensures SortedByStart(s + [y], toMs)
  {
    var r := s + [y];
    forall i, j | 0 <= i < j < |r| ensures StartMs(r[i], toMs) <= StartMs(r[j], toMs) {
      if j < |s| {
        assert r[i] == s[i] && r[j] == s[j];
      } else {
        assert r[i] == s[i] && r[j] == y;
      }
    }
  }

  lemma {:induction false} InsertByStartSorted(sorted: seq<Task>, x: Task, toMs: string -> int)
    requires SortedByStart(sorted, toMs)
    ensures SortedByStart(InsertByStart(sorted, x, toMs), toMs)
    ensures multiset(InsertByStart(sorted, x, toMs)) == multiset(sorted) + multiset{x}
    decreases |sorted|
  {
    InsertByStartPerm(sorted, x, toMs);
    if sorted != [] {
      var n := |sorted| - 1;
      var init, last := sorted[..n], sorted[n];
      assert sorted == init + [last];
      if StartMs(x, toMs) < StartMs(last, toMs) {
        assert SortedByStart(init, toMs) by {
          forall i, j | 0 <= i < j < |init| ensures StartMs(init[i], toMs) <= StartMs(init[j], toMs) {
            assert init[i] == sorted[i] && init[j] == sorted[j];
          }
        }
        InsertByStartSorted(init, x, toMs);
        var ins := InsertByStart(init, x, toMs);
        assert InsertByStart(sorted, x, toMs) == ins + [last];
        forall i | 0 <= i < |ins| ensures StartMs(ins[i], toMs) <= StartMs(last, toMs) {
          assert ins[i] in multiset(init) + multiset{x};
          if ins[i] != x {
            assert ins[i] in init;
            var j :| 0 <= j < |init| && init[j] == ins[i];
            assert sorted[j] == init[j];
          }
        }
        SortedSnoc(ins, last, toMs);
      } else {
        assert InsertByStart(sorted, x, toMs) == sorted + [x];
        forall i | 0 <= i < |sorted| ensures StartMs(sorted[i], toMs) <= StartMs(x, toMs) {
          if i < n {
            assert StartMs(sorted[i], toMs) <= StartMs(sorted[n], toMs);
          }
        }
        SortedSnoc(sorted, x, toMs);
      }
    }
  }

  /** The inductive step of stability: putting `y` back after the insertion
      point keeps the filtered order when `x` and `y` never both pass. */
  lemma FilterStableStep<T>(p: T -> bool, ins: seq<T>, init: seq<T>, x: T, y: T)
    requires Filter(p, ins) == Filter(p, init) + Filter(p, [x])
    requires !(p(x) && p(y))
    ensures Filter(p, ins + [y]) == Filter(p, init + [y]) + Filter(p, [x])
  {
    FilterConcat(p, ins, [y]);
    FilterConcat(p, init, [y]);
    var a, b := Filter(p, ins), Filter(p, init);
    if p(y) {
      assert Filter(p, [x]) == [];
      assert a == b + [];
      assert Filter(p, init + [y]) + [] == Filter(p, init + [y]);
    } else {
      assert Filter(p, [y]) == [];
      assert a + [] == a && b + [] == b;
    }
  }

  /** Insertion puts `x` after every task starting at `x`'s instant: among the
      tasks starting at any instant `k`, `x` comes last. */
  lemma {:induction false} InsertByStartStable(sorted: seq<Task>, x: Task, k: int, toMs: string -> int)
    ensures Filter(StartsAt(k, toMs), InsertByStart(sorted, x, toMs))
            == Filter(StartsAt(k, toMs), sorted) + Filter(StartsAt(k, toMs), [x])
    decreases |sorted|
  {
    var p := StartsAt(k, toMs);
    if sorted == [] {
      assert sorted + [x] == [x];
    } else {
      var n := |sorted| - 1;
      var init, last := sorted[..n], sorted[n];
      assert sorted == init + [last];
      if StartMs(last, toMs) <= StartMs(x, toMs) {
        assert InsertByStart(sorted, x, toMs) == sorted + [x];
        FilterConcat(p, sorted, [x]);
      } else {
        InsertByStartStable(init, x, k, toMs);
        var ins := InsertByStart(init, x, toMs);
        assert InsertByStart(sorted, x, toMs) == ins + [last];
        assert !(p(x) && p(last));
        FilterStableStep(p, ins, init, x, last);
      }
    }
  }

  /** The sort yields a sorted permutation of its input. */
  lemma {:induction false} SortByStartCorrect(s: seq<Task>, toMs: string -> int)
    ensures SortedByStart(SortByStart(s, toMs), toMs)
    ensures multiset(SortByStart(s, toMs)) == multiset(s)
    decreases |s|
  {
    if s != [] {
      var n := |s| - 1;
      assert s == s[..n] + [s[n]];
      SortByStartCorrect(s[..n], toMs);
      InsertByStartSorted(SortByStart(s[..n], toMs), s[n], toMs);
    }
  }

  /** The sort is stable: the tasks that start at any one instant keep their
      input order. */
  lemma {:induction false} SortByStartStable(s: seq<Task>, k: int, toMs: string -> int)
    ensures Filter(StartsAt(k, toMs), SortByStart(s, toMs)) == Filter(StartsAt(k, toMs), s)
    decreases |s|
  {
    if s != [] {
      var n := |s| - 1;
      assert s == s[..n] + [s[n]];
      SortByStartStable(s[..n], k, toMs);
      InsertByStartStable(SortByStart(s[..n], toMs), s[n], k, toMs);
      FilterConcat(StartsAt(k, toMs), s[..n], [s[n]]);
    }
  }

  lemma SortByStartMembers(s: seq<Task>, toMs: string -> int)
    ensures forall t :: t in SortByStart(s, toMs) <==> t in s
    ensures |SortByStart(s, toMs)| == |s|
  {
    SortByStartCorrect(s, toMs);
    forall t ensures t in SortByStart(s, toMs) <==> t in s {
      assert t in SortByStart(s, toMs) <==> t in multiset(SortByStart(s, toMs));
      assert t in s <==> t in multiset(s);
    }
    assert |multiset(SortByStart(s, toMs))| == |multiset(s)|;
  }

  // ------------------------------------------------------------------ grouping

  /** Some group lists the task id. */
  predicate Listed(groups: seq<TaskGroup>, id: string) {
    exists j :: 0 <= j < |groups| && id in groups[j].tasks
  }

  function InGroup(g: TaskGroup): Task -> bool {
    (t: Task) => t.id in g.tasks
  }

  function Unlisted(groups: seq<TaskGroup>): Task -> bool {
    (t: Task) => !Listed(groups, t.id)
  }

  /** The row a group contributes: none when it selects no valid task. */
  function GroupRow(valid: seq<Task>, g: TaskGroup, toMs: string -> int): seq<Row> {
    var sel := Filter(InGroup(g), valid);
    if |sel| > 0 then [Row(g.id, g.name, SortByStart(sel, toMs))] else []
  }

  function GroupRows(valid: seq<Task>, groups: seq<TaskGroup>, toMs: string -> int): seq<Row>
    decreases |groups|
  {
    if groups == [] then []
    else GroupRows(valid, groups[..|groups| - 1], toMs) + GroupRow(valid, groups[|groups| - 1], toMs)
  }

  function UnassignedRow(valid: seq<Task>, groups: seq<TaskGroup>, toMs: string -> int): seq<Row> {
    var un := Filter(Unlisted(groups), valid);
    if |un| > 0 then [Row(UnassignedId, UnassignedName, SortByStart(un, toMs))] else []
  }

  /** The rows of the chart: one per group that selects a valid task, in group
      order, then the Unassigned row when some valid task is listed by no group. */
  function Grouped(valid: seq<Task>, groups: seq<TaskGroup>, toMs: string -> int): seq<Row> {
    GroupRows(valid, groups, toMs) + UnassignedRow(valid, groups, toMs)
  }

  ghost predicate AssignedIds(valid: seq<Task>, groups: seq<TaskGroup>, ids: set<string>) {
    forall id :: id in ids <==> (exists t :: t in valid && t.id == id) && Listed(groups, id)
  }

  lemma ListedPrefix(groups: seq<TaskGroup>, i: int, id: string)
    requires 0 <= i < |groups|
    ensures Listed(groups[..i + 1], id) <==> Listed(groups[..i], id) || id in groups[i].tasks
  {
    if Listed(groups[..i + 1], id) {
      var j :| 0 <= j < i + 1 && id in groups[..i + 1][j].tasks;
      if j < i {
        assert id in groups[..i][j].tasks;
      }
    }
    if id in groups[i].tasks {
      assert id in groups[..i + 1][i].tasks;
    }
    if Listed(groups[..i], id) {
      var j :| 0 <= j < i && id in groups[..i][j].tasks;
      assert id in groups[..i + 1][j].tasks;
    }
  }

  lemma AssignedIdsStep(valid: seq<Task>, groups: seq<TaskGroup>, i: int, ids: set<string>)
    requires 0 <= i < |groups| && AssignedIds(valid, groups[..i], ids)
    ensures AssignedIds(valid, groups[..i + 1], ids + set t | t in Filter(InGroup(groups[i]), valid) :: t.id)
  {
    var sel := Filter(InGroup(groups[i]), valid);
    var all := ids + set t | t in sel :: t.id;
    forall id ensures id in all <==> (exists t :: t in valid && t.id == id) && Listed(groups[..i + 1], id) {
      ListedPrefix(groups, i, id);
      if id in groups[i].tasks && exists t :: t in valid && t.id == id {
        var t :| t in valid && t.id == id;
        assert t in sel;
      }
    }
  }

  lemma GroupRowsStep(valid: seq<Task>, groups: seq<TaskGroup>, i: int, toMs: string -> int)
    requires 0 <= i < |groups|
    ensures GroupRows(valid, groups[..i + 1], toMs) == GroupRows(valid, groups[..i], toMs) + GroupRow(valid, groups[i], toMs)
  {
    assert groups[..i + 1][..i] == groups[..i];
  }

  /** Sorting does not change the set of ids a selection holds. */
  lemma SortedIds(sel: seq<Task>, toMs: string -> int)
    ensures (set t | t in SortByStart(sel, toMs) :: t.id) == (set t | t in sel :: t.id)
  {
    SortByStartMembers(sel, toMs);
  }

  /** The `groupedData` computation: filter each group, sort, record the
      assigned ids, then collect the tasks whose id was never assigned. */
  method GroupTasks(validTasks: seq<Task>, taskGroups: seq<TaskGroup>, toMs: string -> int)
    returns (groups: seq<Row>)
    ensures groups == Grouped(validTasks, taskGroups, toMs)
  {
    groups := [];
    var assignedIds: set<string> := {};
    for i := 0 to |taskGroups|
      invariant groups == GroupRows(validTasks, taskGroups[..i], toMs)
      invariant AssignedIds(validTasks, taskGroups[..i], assignedIds)
    {
      var g := taskGroups[i];
      GroupRowsStep(validTasks, taskGroups, i, toMs);
      AssignedIdsStep(validTasks, taskGroups, i, assignedIds);
      var groupTasks := Filter(InGroup(g), validTasks);
      if |groupTasks| > 0 {
        var sorted := SortByStart(groupTasks, toMs);
        groups := groups + [Row(g.id, g.name, sorted)];
        SortedIds(groupTasks, toMs);
        assignedIds := assignedIds + set t | t in sorted :: t.id;
      } else {
        assert (set t | t in groupTasks :: t.id) == {};
      }
    }
    assert taskGroups[..|taskGroups|] == taskGroups;
    var unassignedTasks := Filter((t: Task) => t.id !in assignedIds, validTasks);
    FilterCongruent((t: Task) => t.id !in assignedIds, Unlisted(taskGroups), validTasks);
    if |unassignedTasks| > 0 {
      groups := groups + [Row(UnassignedId, UnassignedName, SortByStart(unassignedTasks, toMs))];
    }
  }

  // ------------------------------------------------------ grouping properties

  /** `r` is the row group `g` contributes. */
  predicate RowOfGroup(r: Row, g: TaskGroup, valid: seq<Task>, toMs: string -> int) {
    var sel := Filter(InGroup(g), valid);
    sel != [] && r == Row(g.id, g.name, SortByStart(sel, toMs))
  }

  /** A group's row is non-empty, sorted by start, holds exactly the valid
      tasks the group lists, and keeps the input order of tasks that start together. */
  lemma RowOfGroupContents(r: Row, g: TaskGroup, valid: seq<Task>, toMs: string -> int)
    requires RowOfGroup(r, g, valid, toMs)
    ensures r.id == g.id && r.name == g.name && r.tasks != []
    ensures SortedByStart(r.tasks, toMs)
    ensures forall t :: t in r.tasks <==> t in valid && t.id in g.tasks
    ensures forall k :: Filter(StartsAt(k, toMs), r.tasks) == Filter(StartsAt(k, toMs), Filter(InGroup(g), valid))
  {
    var sel := Filter(InGroup(g), valid);
    SortByStartMembers(sel, toMs);
    SortByStartCorrect(sel, toMs);
    forall k ensures Filter(StartsAt(k, toMs), r.tasks) == Filter(StartsAt(k, toMs), sel) {
      SortByStartStable(sel, k, toMs);
    }
  }

  /** The indices of the groups that select a valid task, in group order:
      the group each row of `GroupRows` comes from. */
  function RowSources(valid: seq<Task>, groups: seq<TaskGroup>): seq<nat>
    decreases |groups|
  {
    if groups == [] then []
    else
      var n := |groups| - 1;
      RowSources(valid, groups[..n]) + (if Filter(InGroup(groups[n]), valid) != [] then [n] else [])
  }

  /** Row k of `rows` is the row of group `js[k]`. */
  predicate RowsFrom(rows: seq<Row>, js: seq<nat>, groups: seq<TaskGroup>, valid: seq<Task>, toMs: string -> int) {
    |js| == |rows| && forall k :: 0 <= k < |js| ==> js[k] < |groups| && RowOfGroup(rows[k], groups[js[k]], valid, toMs)
  }

  /** The indices are below `bound` and strictly increase. */
  predicate IncreasingBelow(js: seq<nat>, bound: nat) {
    (forall k :: 0 <= k < |js| ==> js[k] < bound)
    && forall k, l :: 0 <= k < l < |js| ==> js[k] < js[l]
  }

  lemma {:induction false} RowSourcesIncreasing(valid: seq<Task>, groups: seq<TaskGroup>)
    ensures IncreasingBelow(RowSources(valid, groups), |groups|)
    decreases |groups|
  {
    if groups != [] {
      var n := |groups| - 1;
      RowSourcesIncreasing(valid, groups[..n]);
    }
  }

  lemma {:induction false} RowSourcesComplete(valid: seq<Task>, groups: seq<TaskGroup>)
    ensures forall j :: 0 <= j < |groups| && Filter(InGroup(groups[j]), valid) != [] ==>
              j in RowSources(valid, groups)
    decreases |groups|
  {
    if groups != [] {
      var n := |groups| - 1;
      var init := groups[..n];
      RowSourcesComplete(valid, init);
      forall j | 0 <= j < |groups| && Filter(InGroup(groups[j]), valid) != [] ensures j in RowSources(valid, groups) {
        if j < n {
          assert groups[j] == init[j];
        }
      }
    }
  }

  lemma RowsFromSnoc(valid: seq<Task>, groups: seq<TaskGroup>, toMs: string -> int)
    requires groups != []
    requires RowsFrom(GroupRows(valid, groups[..|groups| - 1], toMs), RowSources(valid, groups[..|groups| - 1]),
                      groups[..|groups| - 1], valid, toMs)
    ensures RowsFrom(GroupRows(valid, groups, toMs), RowSources(valid, groups), groups, valid, toMs)
  {
    var n := |groups| - 1;
    var init, g := groups[..n], groups[n];
    var rows, js := GroupRows(valid, init, toMs), RowSources(valid, init);
    var sel := Filter(InGroup(g), valid);
    var rows1 := rows + GroupRow(valid, g, toMs);
    var js1 := js + (if sel != [] then [n] else []);
    assert GroupRows(valid, groups, toMs) == rows1;
    assert RowSources(valid, groups) == js1;
    forall k | 0 <= k < |js1| ensures js1[k] < |groups| && RowOfGroup(rows1[k], groups[js1[k]], valid, toMs) {
      if k < |js| {
        assert js1[k] == js[k] && rows1[k] == rows[k] && groups[js[k]] == init[js[k]];
      } else {
        assert js1[k] == n && rows1[k] == Row(g.id, g.name, SortByStart(sel, toMs));
      }
    }
  }

  lemma {:induction false} GroupRowsSources(valid: seq<Task>, groups: seq<TaskGroup>, toMs: string -> int)
    ensures RowsFrom(GroupRows(valid, groups, toMs), RowSources(valid, groups), groups, valid, toMs)
    decreases |groups|
  {
    if groups != [] {
      GroupRowsSources(valid, groups[..|groups| - 1], toMs);
      RowsFromSnoc(valid, groups, toMs);
    }
  }

  /** Strictly increasing indices below `bound` are at most `bound` many. */
  lemma {:induction false} IncreasingLength(js: seq<nat>, bound: nat)
    requires IncreasingBelow(js, bound)
    ensures |js| <= bound
    decreases |js|
  {
    if js != [] {
      var n := |js| - 1;
      assert IncreasingBelow(js[..n], js[n]) by {
        assert forall k :: 0 <= k < n ==> js[..n][k] == js[k];
      }
      IncreasingLength(js[..n], js[n]);
    }
  }

  /** Row k of the group rows is the row of group `RowSources[k]`; these
      indices strictly increase, so no group has two rows and the rows follow
      the group order; and every group that selects a valid task is among
      them. */
  lemma GroupRowsInGroupOrder(valid: seq<Task>, groups: seq<TaskGroup>, toMs: string -> int)
    ensures |RowSources(valid, groups)| == |GroupRows(valid, groups, toMs)|
    ensures forall k :: 0 <= k < |RowSources(valid, groups)| ==>
              RowSources(valid, groups)[k] < |groups|
              && RowOfGroup(GroupRows(valid, groups, toMs)[k], groups[RowSources(valid, groups)[k]], valid, toMs)
    ensures forall k, l :: 0 <= k < l < |RowSources(valid, groups)| ==>
              RowSources(valid, groups)[k] < RowSources(valid, groups)[l]
    ensures forall j :: 0 <= j < |groups| && Filter(InGroup(groups[j]), valid) != [] ==>
              j in RowSources(valid, groups)
  {
    GroupRowsSources(valid, groups, toMs);
    RowSourcesIncreasing(valid, groups);
    RowSourcesComplete(valid, groups);
  }

  /** There are no more group rows than groups, each the row of some group. */
  lemma GroupRowsFromGroups(valid: seq<Task>, groups: seq<TaskGroup>, toMs: string -> int)
    ensures |GroupRows(valid, groups, toMs)| <= |groups|
    ensures forall r :: r in GroupRows(valid, groups, toMs) ==>
              exists j :: 0 <= j < |groups| && RowOfGroup(r, groups[j], valid, toMs)
  {
    var rows, js := GroupRows(valid, groups, toMs), RowSources(valid, groups);
    GroupRowsSources(valid, groups, toMs);
    RowSourcesIncreasing(valid, groups);
    IncreasingLength(js, |groups|);
    forall r | r in rows ensures exists j :: 0 <= j < |groups| && RowOfGroup(r, groups[j], valid, toMs) {
      var k :| 0 <= k < |rows| && rows[k] == r;
      assert RowOfGroup(rows[k], groups[js[k]], valid, toMs);
    }
  }

  /** Every row produced for a group is non-empty, named after one of the
      groups, holds exactly the valid tasks that group lists, and is sorted by start. */
  lemma GroupRowsShape(valid: seq<Task>, groups: seq<TaskGroup>, toMs: string -> int, r: Row)
    requires r in GroupRows(valid, groups, toMs)
    ensures r.tasks != [] && SortedByStart(r.tasks, toMs)
    ensures exists j :: 0 <= j < |groups| && r.id == groups[j].id && r.name == groups[j].name
                        && forall t :: t in r.tasks <==> t in valid && t.id in groups[j].tasks
  {
    GroupRowsFromGroups(valid, groups, toMs);
    var j :| 0 <= j < |groups| && RowOfGroup(r, groups[j], valid, toMs);
    RowOfGroupContents(r, groups[j], valid, toMs);
  }

  /** A valid task listed by a group is in that group's row; in particular a
      task listed by two groups appears in both rows. */
  lemma {:induction false} ListedTaskInGroupRow(valid: seq<Task>, groups: seq<TaskGroup>, j: int, t: Task, toMs: string -> int)
    requires 0 <= j < |groups| && t in valid && t.id in groups[j].tasks
    ensures exists r :: r in GroupRows(valid, groups, toMs)
                        && r.id == groups[j].id && r.name == groups[j].name && t in r.tasks
    decreases |groups|
  {
    var n := |groups| - 1;
    if j == n {
      var sel := Filter(InGroup(groups[n]), valid);
      assert t in sel;
      SortByStartMembers(sel, toMs);
      var r := Row(groups[n].id, groups[n].name, SortByStart(sel, toMs));
      assert r in GroupRows(valid, groups, toMs);
    } else {
      ListedTaskInGroupRow(valid, groups[..n], j, t, toMs);
    }
  }

  /** Some valid task is listed by no group iff the unlisted selection is non-empty. */
  lemma UnlistedSelection(valid: seq<Task>, groups: seq<TaskGroup>)
    ensures (exists t :: t in valid && !Listed(groups, t.id)) <==> Filter(Unlisted(groups), valid) != []
  {
    var un := Filter(Unlisted(groups), valid);
    if exists t :: t in valid && !Listed(groups, t.id) {
      var t :| t in valid && !Listed(groups, t.id);
      assert t in un;
    }
    if un != [] {
      assert un[0] in un;
    }
  }

  /** The Unassigned row is present exactly when some valid task is listed by
      no group; it is then the last row and holds exactly those tasks, sorted by start. */
  lemma UnassignedRowShape(valid: seq<Task>, groups: seq<TaskGroup>, toMs: string -> int)
    ensures |Grouped(valid, groups, toMs)| <= |groups| + 1
    ensures (exists t :: t in valid && !Listed(groups, t.id)) <==> UnassignedRow(valid, groups, toMs) != []
    ensures UnassignedRow(valid, groups, toMs) != [] ==>
              var rows := Grouped(valid, groups, toMs);
              var last := rows[|rows| - 1];
              && last.id == UnassignedId && last.name == UnassignedName
              && SortedByStart(last.tasks, toMs)
              && forall t :: t in last.tasks <==> t in valid && !Listed(groups, t.id)
  {
    GroupRowsFromGroups(valid, groups, toMs);
    UnlistedSelection(valid, groups);
    var un := Filter(Unlisted(groups), valid);
    if un != [] {
      var sorted := SortByStart(un, toMs);
      SortByStartMembers(un, toMs);
      SortByStartCorrect(un, toMs);
      var rows := Grouped(valid, groups, toMs);
      assert rows == GroupRows(valid, groups, toMs) + [Row(UnassignedId, UnassignedName, sorted)];
    }
  }

  /** No row is empty. */
  lemma RowsNonEmpty(valid: seq<Task>, groups: seq<TaskGroup>, toMs: string -> int, r: Row)
    requires r in Grouped(valid, groups, toMs)
    ensures r.tasks != []
  {
    if r in GroupRows(valid, groups, toMs) {
      GroupRowsShape(valid, groups, toMs, r);
    } else {
      SortByStartMembers(Filter(Unlisted(groups), valid), toMs);
    }
  }

  /** Every valid task is placed in at least one row, and rows hold only valid tasks. */
  lemma EveryValidTaskPlaced(valid: seq<Task>, groups: seq<TaskGroup>, toMs: string -> int)
    ensures forall t :: t in valid ==> exists r :: r in Grouped(valid, groups, toMs) && t in r.tasks
    ensures forall r, t :: r in Grouped(valid, groups, toMs) && t in r.tasks ==> t in valid
  {
    UnassignedRowShape(valid, groups, toMs);
    var rows := Grouped(valid, groups, toMs);
    forall t | t in valid ensures exists r :: r in rows && t in r.tasks {
      if Listed(groups, t.id) {
        var j :| 0 <= j < |groups| && t.id in groups[j].tasks;
        ListedTaskInGroupRow(valid, groups, j, t, toMs);
      } else {
        assert rows[|rows| - 1] in rows;
      }
    }
    forall r, t | r in rows && t in r.tasks ensures t in valid {
      if r in GroupRows(valid, groups, toMs) {
        GroupRowsShape(valid, groups, toMs, r);
      }
    }
  }

  // ---------------------------------------------------------------- the window

  /** `groupedData.flatMap(g => g.tasks)`. */
  function Flatten(rows: seq<Row>): (r: seq<Task>)
    ensures forall t :: t in r <==> exists k :: 0 <= k < |rows| && t in rows[k].tasks
    decreases |rows|
  {
    if rows == [] then []
    else
      var init := rows[..|rows| - 1];
      assert forall k :: 0 <= k < |init| ==> init[k] == rows[k];
      Flatten(init) + rows[|rows| - 1].tasks
  }

  /** The running minimum of the starts, from `Number.MAX_SAFE_INTEGER`. */
  function MinStartAcc(s: seq<Task>, toMs: string -> int): int
    decreases |s|
  {
    if s == [] then MaxSafeInteger
    else
      var m := MinStartAcc(s[..|s| - 1], toMs);
      var start := StartMs(s[|s| - 1], toMs);
      if start < m then start else m
  }

  /** The running maximum of the ends, from 0. */
  function MaxEndAcc(s: seq<Task>, toMs: string -> int): int
    decreases |s|
  {
    if s == [] then 0
    else
      var m := MaxEndAcc(s[..|s| - 1], toMs);
      var end := EndMs(s[|s| - 1], toMs);
      if end > m then end else m
  }

  /** The minimum bounds every start and is the start value or some start. */
  lemma {:induction false} MinStartAccBounds(s: seq<Task>, toMs: string -> int)
    ensures MinStartAcc(s, toMs) <= MaxSafeInteger
    ensures forall t :: t in s ==> MinStartAcc(s, toMs) <= StartMs(t, toMs)
    ensures MinStartAcc(s, toMs) == MaxSafeInteger || exists t :: t in s && MinStartAcc(s, toMs) == StartMs(t, toMs)
    decreases |s|
  {
    if s != [] {
      var init := s[..|s| - 1];
      MinStartAccBounds(init, toMs);
      assert forall t :: t in s ==> t in init || t == s[|s| - 1];
      assert forall t :: t in init ==> t in s;
    }
  }

  /** The maximum bounds every end and is 0 or some end. */
  lemma {:induction false} MaxEndAccBounds(s: seq<Task>, toMs: string -> int)
    ensures MaxEndAcc(s, toMs) >= 0
    ensures forall t :: t in s ==> EndMs(t, toMs) <= MaxEndAcc(s, toMs)
    ensures MaxEndAcc(s, toMs) == 0 || exists t :: t in s && MaxEndAcc(s, toMs) == EndMs(t, toMs)
    decreases |s|
  {
    if s != [] {
      var init := s[..|s| - 1];
      MaxEndAccBounds(init, toMs);
      assert forall t :: t in s ==> t in init || t == s[|s| - 1];
      assert forall t :: t in init ==> t in s;
    }
  }

  /** `Math.ceil(a / d)` for a positive divisor. */
  function CeilDiv(a: int, d: int): (q: int)
    requires d > 0
    ensures d * (q - 1) < a <= d * q
  {
    var q := (a + d - 1) / d;
    assert d * q <= a + d - 1 < d * q + d;
    q
  }

  function WindowOf(all: seq<Task>, today: int, toMs: string -> int): Window {
    if all == [] then Window(today - 2 * DayMs, today + 14 * DayMs, 16)
    else
      var min := MinStartAcc(all, toMs) - 2 * DayMs;
      var max := MaxEndAcc(all, toMs) + 5 * DayMs;
      Window(min, max, CeilDiv(max - min, DayMs))
  }

  lemma AccStep(s: seq<Task>, i: int, toMs: string -> int)
    requires 0 <= i < |s|
    ensures var m := MinStartAcc(s[..i], toMs);
      MinStartAcc(s[..i + 1], toMs) == if StartMs(s[i], toMs) < m then StartMs(s[i], toMs) else m
    ensures var m := MaxEndAcc(s[..i], toMs);
      MaxEndAcc(s[..i + 1], toMs) == if EndMs(s[i], toMs) > m then EndMs(s[i], toMs) else m
  {
    assert s[..i + 1][..i] == s[..i];
  }

  /** The timeline-range computation over the rows' tasks. */
  method ComputeWindow(groupedData: seq<Row>, today: int, toMs: string -> int) returns (w: Window)
    ensures w == WindowOf(Flatten(groupedData), today, toMs)
  {
    var allTasks := Flatten(groupedData);
    if |allTasks| == 0 {
      return Window(today - 2 * DayMs, today + 14 * DayMs, 16);
    }
    var minTs := MaxSafeInteger;
    var maxTs := 0;
    for i := 0 to |allTasks|
      invariant minTs == MinStartAcc(allTasks[..i], toMs)
      invariant maxTs == MaxEndAcc(allTasks[..i], toMs)
    {
      AccStep(allTasks, i, toMs);
      var start := StartMs(allTasks[i], toMs);
      var end := EndMs(allTasks[i], toMs);
      if start < minTs { minTs := start; }
      if end > maxTs { maxTs := end; }
    }
    assert allTasks[..|allTasks|] == allTasks;
    var min := minTs - 2 * DayMs;
    var max := maxTs + 5 * DayMs;
    var days := CeilDiv(max - min, DayMs);
    w := Window(min, max, days);
  }

  /** With no laid-out task the window runs from two days before today to
      fourteen days after it and is 16 days wide. */
  lemma EmptyWindow(today: int, toMs: string -> int)
    ensures var w := WindowOf([], today, toMs);
      w.minDate == today - 2 * DayMs && w.maxDate == today + 14 * DayMs
      && w.totalDays == 16 && w.totalDays * DayMs == w.maxDate - w.minDate
  {
  }

  /** With tasks, the window starts at least two days before every start and
      ends at least five days after every end; it is the earliest start minus
      two days (unless every start is at or beyond `Number.MAX_SAFE_INTEGER`)
      and the latest end plus five days (or five days after the epoch when
      every end is before it); `totalDays` is the ceiling of its length in days. */
  lemma WindowBounds(all: seq<Task>, today: int, toMs: string -> int)
    requires all != []
    ensures var w := WindowOf(all, today, toMs);
      && (forall t :: t in all ==> w.minDate + 2 * DayMs <= StartMs(t, toMs))
      && (forall t :: t in all ==> EndMs(t, toMs) + 5 * DayMs <= w.maxDate)
      && ((exists t :: t in all && StartMs(t, toMs) <= MaxSafeInteger) ==>
            exists t :: t in all && w.minDate + 2 * DayMs == StartMs(t, toMs))
      && ((exists t :: t in all && EndMs(t, toMs) >= 0) ==>
            exists t :: t in all && w.maxDate - 5 * DayMs == EndMs(t, toMs))
      && ((forall t :: t in all ==> EndMs(t, toMs) < 0) ==> w.maxDate == 5 * DayMs)
      && DayMs * (w.totalDays - 1) < w.maxDate - w.minDate <= DayMs * w.totalDays
  {
    MinStartAccBounds(all, toMs);
    MaxEndAccBounds(all, toMs);
  }

  /** When no task ends before it starts, the window is at least 7 days wide. */
  lemma WindowAtLeastAWeek(all: seq<Task>, today: int, toMs: string -> int)
    requires all != []
    requires forall t :: t in all ==> StartMs(t, toMs) <= EndMs(t, toMs)
    ensures WindowOf(all, today, toMs).totalDays >= 7
  {
    var w := WindowOf(all, today, toMs);
    var lo := MinStartAcc(all, toMs);
    var hi := MaxEndAcc(all, toMs);
    MinStartAccBounds(all, toMs);
    MaxEndAccBounds(all, toMs);
    var t: Task;
    if lo == MaxSafeInteger {
      t := all[0];
    } else {
      t :| t in all && lo == StartMs(t, toMs);
    }
    assert lo <= StartMs(t, toMs) <= EndMs(t, toMs) <= hi;
    assert w.maxDate - w.minDate >= 7 * DayMs;
  }

  // ---------------------------------------------------------- the whole layout

  function Layout(tasks: seq<Task>, groups: seq<TaskGroup>, today: int, toMs: string -> int): (seq<Row>, Window) {
    var rows := Grouped(ValidTasks(tasks), groups, toMs);
    (rows, WindowOf(Flatten(rows), today, toMs))
  }

  /** The three memoised steps of the view, run in order. */
  method BuildLayout(tasks: seq<Task>, taskGroups: seq<TaskGroup>, today: int, toMs: string -> int)
    returns (rows: seq<Row>, window: Window)
    ensures (rows, window) == Layout(tasks, taskGroups, today, toMs)
  {
    var validTasks := ValidTasks(tasks);
    rows := GroupTasks(validTasks, taskGroups, toMs);
    window := ComputeWindow(rows, today, toMs);
  }

  /** Every laid-out task is among the rows' tasks. */
  lemma ValidTaskInRows(valid: seq<Task>, groups: seq<TaskGroup>, toMs: string -> int, t: Task)
    requires t in valid
    ensures t in Flatten(Grouped(valid, groups, toMs))
  {
    var rows := Grouped(valid, groups, toMs);
    EveryValidTaskPlaced(valid, groups, toMs);
    var r :| r in rows && t in r.tasks;
    var k :| 0 <= k < |rows| && rows[k] == r;
  }

  /** There are rows iff some task is laid out. */
  lemma RowsIffValid(valid: seq<Task>, groups: seq<TaskGroup>, toMs: string -> int)
    ensures Grouped(valid, groups, toMs) == [] <==> valid == []
  {
    var rows := Grouped(valid, groups, toMs);
    if valid != [] {
      ValidTaskInRows(valid, groups, toMs, valid[0]);
    }
    if rows != [] {
      RowsNonEmpty(valid, groups, toMs, rows[0]);
      EveryValidTaskPlaced(valid, groups, toMs);
      assert rows[0].tasks[0] in valid;
    }
  }

  /** The window covers every laid-out task; with none laid out there are no rows. */
  lemma LayoutCoversValidTasks(tasks: seq<Task>, groups: seq<TaskGroup>, today: int, toMs: string -> int)
    ensures Layout(tasks, groups, today, toMs).0 == [] <==> ValidTasks(tasks) == []
    ensures Layout(tasks, groups, today, toMs).0 == [] ==>
              Layout(tasks, groups, today, toMs).1 == Window(today - 2 * DayMs, today + 14 * DayMs, 16)
    ensures forall t :: t in tasks && IsValid(t) ==>
              Layout(tasks, groups, today, toMs).1.minDate <= StartMs(t, toMs)
              && EndMs(t, toMs) <= Layout(tasks, groups, today, toMs).1.maxDate
  {
    var valid := ValidTasks(tasks);
    var rows := Grouped(valid, groups, toMs);
    var all := Flatten(rows);
    RowsIffValid(valid, groups, toMs);
    forall t | t in tasks && IsValid(t)
      ensures WindowOf(all, today, toMs).minDate <= StartMs(t, toMs) && EndMs(t, toMs) <= WindowOf(all, today, toMs).maxDate
    {
      ValidTaskInRows(valid, groups, toMs, t);
      WindowBounds(all, today, toMs);
    }
  }

  // ------------------------------------------------------ coordinates and bars

  /** `getXForDate`: the pixel offset of an instant from the window start. */
  function XForDate(ms: int, minDate: int): real {
    (ms - minDate) as real / DayMs as real * PixelsPerDay as real
  }

  /** The window start maps to 0, the map is monotone, and a day is 50 pixels. */
  lemma XForDateLinear(a: int, b: int, minDate: int)
    ensures XForDate(minDate, minDate) == 0.0
    ensures a <= b ==> XForDate(a, minDate) <= XForDate(b, minDate)
    ensures XForDate(b, minDate) - XForDate(a, minDate) == (b - a) as real * PixelsPerDay as real / DayMs as real
    ensures XForDate(a + DayMs, minDate) == XForDate(a, minDate) + PixelsPerDay as real
  {
  }

  /** The bar of a task: it starts at its start instant, and its width covers
      up to the end of its end day but is never below one day. */
  function BarOf(t: Task, minDate: int, toMs: string -> int): (b: Bar)
    ensures b.x == XForDate(StartMs(t, toMs), minDate)
    ensures b.width >= PixelsPerDay as real
    ensures b.width >= XForDate(EndMs(t, toMs), minDate) + PixelsPerDay as real - b.x
    ensures b.width == PixelsPerDay as real
            || b.width == XForDate(EndMs(t, toMs), minDate) + PixelsPerDay as real - b.x
  {
    var x := XForDate(StartMs(t, toMs), minDate);
    var endX := XForDate(EndMs(t, toMs), minDate) + PixelsPerDay as real;
    Bar(x, if endX - x > PixelsPerDay as real then endX - x else PixelsPerDay as real)
  }

  /** A task ending at or after its start gets the width of its span plus one
      day; a zero-length task gets exactly one day. */
  lemma BarWidthOfSpan(t: Task, minDate: int, toMs: string -> int)
    requires StartMs(t, toMs) <= EndMs(t, toMs)
    ensures BarOf(t, minDate, toMs).width
            == (EndMs(t, toMs) - StartMs(t, toMs)) as real * PixelsPerDay as real / DayMs as real
               + PixelsPerDay as real
    ensures StartMs(t, toMs) == EndMs(t, toMs) ==> BarOf(t, minDate, toMs).width == PixelsPerDay as real
  {
    XForDateLinear(StartMs(t, toMs), EndMs(t, toMs), minDate);
  }

  function ChartWidth(w: Window): int {
    w.totalDays * PixelsPerDay
  }

  /** `a / d * 50 <= T * 50` from `a <= d * T`. */
  lemma ScaleBelow(a: int, t: int)
    requires a <= DayMs * t
    ensures a as real / DayMs as real * PixelsPerDay as real <= (t * PixelsPerDay) as real
  {
    var d := DayMs as real;
    var q := a as real / d;
    assert q * d == a as real;
    assert q <= t as real;
  }

  /** A bar whose task lies a day inside the window lies inside the chart. */
  lemma BarInWindow(t: Task, w: Window, toMs: string -> int)
    requires w.minDate <= StartMs(t, toMs) <= EndMs(t, toMs)
    requires EndMs(t, toMs) + DayMs <= w.maxDate
    requires w.maxDate - w.minDate <= DayMs * w.totalDays
    ensures 0.0 <= BarOf(t, w.minDate, toMs).x
    ensures BarOf(t, w.minDate, toMs).x + BarOf(t, w.minDate, toMs).width <= ChartWidth(w) as real
  {
    var s, e := StartMs(t, toMs), EndMs(t, toMs);
    XForDateLinear(w.minDate, s, w.minDate);
    XForDateLinear(e + DayMs, w.maxDate, w.minDate);
    XForDateLinear(e, e, w.minDate);
    BarWidthOfSpan(t, w.minDate, toMs);
    ScaleBelow(w.maxDate - w.minDate, w.totalDays);
  }

  /** In the computed layout, the bar of every laid-out task that does not end
      before it starts lies inside the chart: it begins at or after 0 and ends
      by the chart width. */
  lemma BarInsideChart(tasks: seq<Task>, groups: seq<TaskGroup>, today: int, toMs: string -> int, t: Task)
    requires t in tasks && IsValid(t) && StartMs(t, toMs) <= EndMs(t, toMs)
    ensures 0.0 <= BarOf(t, Layout(tasks, groups, today, toMs).1.minDate, toMs).x
    ensures BarOf(t, Layout(tasks, groups, today, toMs).1.minDate, toMs).x
            + BarOf(t, Layout(tasks, groups, today, toMs).1.minDate, toMs).width
            <= ChartWidth(Layout(tasks, groups, today, toMs).1) as real
  {
    var valid := ValidTasks(tasks);
    var all := Flatten(Grouped(valid, groups, toMs));
    ValidTaskInRows(valid, groups, toMs, t);
    WindowBounds(all, today, toMs);
    BarInWindow(t, WindowOf(all, today, toMs), toMs);
  }

  // ------------------------------------------------------------------ progress

  /** The number of completed subtasks. */
  function DoneCount(subtasks: seq<Subtask>): (c: nat)
    ensures c <= |subtasks|
  {
    if subtasks == [] then 0
    else (if subtasks[0].completed then 1 else 0) + DoneCount(subtasks[1..])
  }

  /** The count is the length of `subtasks.filter(s => s.completed)`. */
  lemma {:induction false} DoneCountIsFilter(subtasks: seq<Subtask>)
    ensures DoneCount(subtasks) == |Filter(SubtaskDone, subtasks)|
  {
    if subtasks != [] {
      DoneCountIsFilter(subtasks[1..]);
    }
  }

  /** `(c / n) * 100` for a share `c` of `n`. */
  function Percent(c: nat, n: nat): (p: real)
    requires 0 < n && c <= n
    ensures 0.0 <= p <= 100.0
    ensures p * n as real == 100.0 * c as real
  {
    var q := c as real / n as real;
    assert q * n as real == c as real;
    q * 100.0
  }

  /** The fill percentage of a bar: the share of completed subtasks, or the
      task's own completion when it has no subtasks. */
  function ProgressPercent(t: Task): (p: real)
    ensures 0.0 <= p <= 100.0
    ensures t.subtasks == [] ==> (p == 100.0 <==> t.completed) && (p == 0.0 <==> !t.completed)
  {
    if |t.subtasks| > 0 then Percent(DoneCount(t.subtasks), |t.subtasks|)
    else if t.completed then 100.0 else 0.0
  }

  /** With subtasks, the percentage times the subtask count is 100 times the
      completed count. */
  lemma ProgressOfSubtasks(t: Task)
    requires t.subtasks != []
    ensures ProgressPercent(t) * |t.subtasks| as real == 100.0 * DoneCount(t.subtasks) as real
  {
    assert ProgressPercent(t) == Percent(DoneCount(t.subtasks), |t.subtasks|);
  }

  /** All subtasks completed gives 100, whatever the task's own flag. */
  lemma ProgressAllDone(t: Task)
    requires t.subtasks != []
    requires forall s :: s in t.subtasks ==> s.completed
    ensures ProgressPercent(t) == 100.0
  {
    FilterAll(SubtaskDone, t.subtasks);
    DoneCountIsFilter(t.subtasks);
    var n := |t.subtasks|;
    assert DoneCount(t.subtasks) == n;
    PercentFull(n);
  }

  lemma PercentFull(n: nat)
    requires 0 < n
    ensures Percent(n, n) == 100.0
  {
    var p := Percent(n, n);
    assert p * n as real == 100.0 * n as real;
  }

  /** No subtask completed gives 0, whatever the task's own flag. */
  lemma ProgressNoneDone(t: Task)
    requires t.subtasks != []
    requires forall s :: s in t.subtasks ==> !s.completed
    ensures ProgressPercent(t) == 0.0
  {
    FilterNone(SubtaskDone, t.subtasks);
    DoneCountIsFilter(t.subtasks);
    assert DoneCount(t.subtasks) == 0;
  }

  /** One of two subtasks completed gives 50. */
  lemma ProgressHalf(t: Task)
    requires |t.subtasks| == 2 && t.subtasks[0].completed && !t.subtasks[1].completed
    ensures ProgressPercent(t) == 50.0
  {
    var s := t.subtasks;
    assert s[1..][1..] == [];
    assert DoneCount(s) == 1;
    assert ProgressPercent(t) == Percent(1, 2);
    var p := Percent(1, 2);
    assert p * 2.0 == 100.0;
  }

  // -------------------------------------------------------------- scroll sync

  /** A scrollable pane's offsets. */
  class Pane {
    var scrollTop: real
    var scrollLeft: real

    constructor (top: real, left: real)
      ensures scrollTop == top && scrollLeft == left
    {
      scrollTop, scrollLeft := top, left;
    }
  }

  /** The three panes of the view: the chart, which scrolls, and the two
      followers, each mounted (non-null) or not. */
  class GanttPanes {
    var sidebar: Pane?
    var header: Pane?
    var chart: Pane

    /** The refs point at three different elements. */
    predicate Valid()
      reads this
    {
      chart != sidebar && chart != header && (sidebar == null || sidebar != header)
    }

    constructor (sidebar: Pane?, header: Pane?, chart: Pane)
      requires chart != sidebar && chart != header && (sidebar == null || sidebar != header)
      ensures Valid() && this.sidebar == sidebar && this.header == header && this.chart == chart
    {
      this.sidebar, this.header, this.chart := sidebar, header, chart;
    }

    /** `handleChartScroll`: the sidebar follows the chart vertically and the
        header follows it horizontally; an unmounted follower is skipped. */
    method HandleChartScroll()
      requires Valid()
      modifies sidebar, header
      ensures sidebar != null ==> sidebar.scrollTop == chart.scrollTop
                                  && sidebar.scrollLeft == old(sidebar.scrollLeft)
      ensures header != null ==> header.scrollLeft == chart.scrollLeft
                                 && header.scrollTop == old(header.scrollTop)
      ensures unchanged(chart)
    {
      var scrollTop, scrollLeft := chart.scrollTop, chart.scrollLeft;
      if sidebar != null { sidebar.scrollTop := scrollTop; }
      if header != null { header.scrollLeft := scrollLeft; }
    }
  }
}
