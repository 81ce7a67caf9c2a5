/** The counters of `src/components/Dashboard/DashboardView.tsx`: how many
    tasks there are, how many are completed or pending, and the completed
    share as a whole percentage. */
module Dashboard {
  import opened Basics
  import opened TaskTypes
  import TaskList

  datatype Summary = Summary(total: nat, completed: nat, pending: int, progress: int)

  /** `Math.round`: the nearest integer, halves rounded up. */
  function Round(x: real): (r: int)
    ensures r as real <= x + 0.5 < r as real + 1.0
  {
    (x + 0.5).Floor
  }

  /** The number of completed tasks. */
  function CompletedCount(tasks: seq<Task>): (c: nat)
    ensures c <= |tasks|
  {
    |Filter(IsCompleted, tasks)|
  }

  /** `Math.round((c / n) * 100)` on exact rationals. */
  function Percent(c: nat, n: nat): (p: int)
    requires 0 < n && c <= n
    ensures 0 <= p <= 100
    ensures (p as real - 0.5) * n as real <= 100.0 * c as real < (p as real + 0.5) * n as real
  {
    var x := c as real / n as real * 100.0;
    ScaledBounds(x, c as real, n as real);
    RoundScaled(x, n as real, 100.0 * c as real);
    Round(x)
  }

  /** `x = c / n * 100` lies in [0, 100] and `x * n == 100 * c`. */
  lemma ScaledBounds(x: real, c: real, n: real)
    requires 0.0 <= c <= n && 0.0 < n && x == c / n * 100.0
    ensures x * n == 100.0 * c && 0.0 <= x <= 100.0
  {
    assert c / n <= 1.0;
  }

  /** Rounding `x` where `x * n == m` brackets `m` between `(p - 1/2) * n`
      and `(p + 1/2) * n`. */
  lemma RoundScaled(x: real, n: real, m: real)
    requires 0.0 < n && x * n == m
    ensures (Round(x) as real - 0.5) * n <= m < (Round(x) as real + 0.5) * n
  {
    var p := Round(x) as real;
    assert (p - 0.5) * n <= x * n by { MulLe(p - 0.5, x, n); }
    MulLt(x, p + 0.5, n, m);
  }

  lemma MulLe(a: real, b: real, n: real)
    requires n > 0.0 && a <= b
    ensures a * n <= b * n
  {
  }

  lemma MulLt(a: real, b: real, n: real, m: real)
    requires n > 0.0 && a < b && a * n == m
    ensures m < b * n
  {
  }

  function Summarize(tasks: seq<Task>): (s: Summary)
    ensures s.total == |tasks| && s.completed == CompletedCount(tasks)
    ensures s.completed + s.pending == s.total && s.pending >= 0
    ensures s.total == 0 ==> s.progress == 0
    ensures 0 <= s.progress <= 100
    ensures s.total > 0 ==>
              (s.progress as real - 0.5) * s.total as real <= 100.0 * s.completed as real
              < (s.progress as real + 0.5) * s.total as real
  {
    var total := |tasks|;
    var completed := CompletedCount(tasks);
    if total > 0 then Summary(total, completed, total - completed, Percent(completed, total))
    else Summary(total, completed, total - completed, 0)
  }

  lemma PercentFull(n: nat)
    requires 0 < n
    ensures Percent(n, n) == 100
  {
    var p, m := Percent(n, n) as real, n as real;
    FactorLe(p - 0.5, 100.0, m);
    FactorLt(100.0, p + 0.5, m);
  }

  lemma PercentNone(n: nat)
    requires 0 < n
    ensures Percent(0, n) == 0
  {
    var p, m := Percent(0, n) as real, n as real;
    assert 0.0 * m == 0.0;
    FactorLe(p - 0.5, 0.0, m);
  }

  lemma FactorLe(a: real, b: real, n: real)
    requires n > 0.0 && a * n <= b * n
    ensures a <= b
  {
    if a > b {
      MulLt(b, a, n, b * n);
    }
  }

  lemma FactorLt(a: real, b: real, n: real)
    requires n > 0.0 && a * n < b * n
    ensures a < b
  {
    if a >= b {
      MulLe(b, a, n);
    }
  }

  /** All tasks done shows 100%, none done shows 0%. */
  lemma ProgressExtremes(tasks: seq<Task>)
    requires tasks != []
    ensures (forall t :: t in tasks ==> t.completed) ==> Summarize(tasks).progress == 100
    ensures (forall t :: t in tasks ==> !t.completed) ==> Summarize(tasks).progress == 0
  {
    if forall t :: t in tasks ==> t.completed {
      FilterAll(IsCompleted, tasks);
      PercentFull(|tasks|);
    }
    if forall t :: t in tasks ==> !t.completed {
      FilterNone(IsCompleted, tasks);
      PercentNone(|tasks|);
    }
  }

  /** Two of three tasks done rounds 66.66… up to 67. */
  lemma ProgressTwoOfThree()
    ensures Percent(2, 3) == 67
  {
    var p := Percent(2, 3);
    assert (p as real - 0.5) * 3.0 <= 200.0 < (p as real + 0.5) * 3.0;
  }

  /** The dashboard counts agree with the to-do list's two sections. */
  lemma CountsMatchTaskList(tasks: seq<Task>)
    ensures Summarize(tasks).completed == |TaskList.CompletedTasks(tasks)|
    ensures Summarize(tasks).pending == |TaskList.PendingTasks(tasks)|
  {
    TaskList.Partition(tasks);
  }
}
