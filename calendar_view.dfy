/** The month calendar of `src/components/Calender/CalenderView.tsx`: the grid
    of day cells, the tasks due on each day, the month navigation and the
    local update of the memo list after a memo is saved. */
module CalendarView {
  import opened Basics
  import opened TaskTypes
  import opened CivilDate
  import opened DateKey

  // ------------------------------------------------------------------- grid

  /** A grid cell: a blank before the first of the month, or a day. */
  datatype Cell = Blank | DayCell(day: int, dateStr: string, isToday: bool)

  /** The cell of day `k`: its number, its date key and whether it is today. */
  function DayCellOf(year: int, month: int, k: int, today: CivilDay): Cell {
    DayCell(k, Key(year, month, k), today == CivilDay(MakeYear(year), month, k))
  }

  /** The cells of the month `year`/`month`: `FirstDayOfMonth` blanks, then
      one cell per day, marked when it is `today`. */
  method CalendarGrid(year: int, month: int, today: CivilDay) returns (grid: seq<Cell>)
    requires 0 <= month < 12
    ensures |grid| == FirstDayOfMonth(year, month) + DaysInMonth(year, month)
    ensures 28 <= |grid| <= 37
    ensures forall i :: 0 <= i < |grid| ==> (grid[i] == Blank <==> i < FirstDayOfMonth(year, month))
    ensures forall k :: 1 <= k <= DaysInMonth(year, month) ==>
              grid[FirstDayOfMonth(year, month) + k - 1] == DayCellOf(year, month, k, today)
  {
    var daysInMonth := DaysInMonth(year, month);
    var firstDayOfWeek := FirstDayOfMonth(year, month);
    grid := [];
    var i := 0;
    while i < firstDayOfWeek
      invariant 0 <= i <= firstDayOfWeek
      invariant |grid| == i
      invariant forall j :: 0 <= j < i ==> grid[j] == Blank
    {
      grid := grid + [Blank];
      i := i + 1;
    }
    var day := 1;
    while day <= daysInMonth
      invariant 1 <= day <= daysInMonth + 1
      invariant |grid| == firstDayOfWeek + day - 1
      invariant forall j :: 0 <= j < firstDayOfWeek ==> grid[j] == Blank
      invariant forall j :: firstDayOfWeek <= j < |grid| ==>
                  grid[j] == DayCellOf(year, month, j - firstDayOfWeek + 1, today)
    {
      var dateStr := Key(year, month, day);
      var isToday := today == CivilDay(MakeYear(year), month, day);
      AppendDayCell(grid, firstDayOfWeek, year, month, day, today, DayCell(day, dateStr, isToday));
      grid := grid + [DayCell(day, dateStr, isToday)];
      day := day + 1;
    }
    GridShape(grid, firstDayOfWeek, daysInMonth, year, month, today);
  }

  /** Blanks up to `first` and day cells after it read back by day number. */
  lemma GridShape(grid: seq<Cell>, first: int, n: int, year: int, month: int, today: CivilDay)
    requires 0 <= first && 0 <= n && |grid| == first + n
    requires forall j :: 0 <= j < first ==> grid[j] == Blank
    requires forall j :: first <= j < |grid| ==> grid[j] == DayCellOf(year, month, j - first + 1, today)
    ensures forall i :: 0 <= i < |grid| ==> (grid[i] == Blank <==> i < first)
    ensures forall k :: 1 <= k <= n ==> grid[first + k - 1] == DayCellOf(year, month, k, today)
  {
    forall k | 1 <= k <= n ensures grid[first + k - 1] == DayCellOf(year, month, k, today) {
      assert first <= first + k - 1 < |grid|;
    }
  }

  /** Appending the cell of the next day keeps the day cells in place. */
  lemma AppendDayCell(grid: seq<Cell>, first: int, year: int, month: int, day: int, today: CivilDay, c: Cell)
    requires 0 <= first && |grid| == first + day - 1
    requires forall j :: first <= j < |grid| ==> grid[j] == DayCellOf(year, month, j - first + 1, today)
    requires c == DayCellOf(year, month, day, today)
    ensures forall j :: first <= j < |grid + [c]| ==> (grid + [c])[j] == DayCellOf(year, month, j - first + 1, today)
  {
    var g := grid + [c];
    forall j | first <= j < |g| ensures g[j] == DayCellOf(year, month, j - first + 1, today) {
      if j < |grid| {
        assert g[j] == grid[j];
      } else {
        assert j - first + 1 == day;
      }
    }
  }

  /** The `startStr` / `endStr` range the memos are fetched for: the first
      and the last day of the month. */
  function MonthRange(year: int, month: int): (r: (string, string))
    requires 0 <= month < 12
    ensures ParseKey(r.0) == Some((MakeYear(year), month, 1))
    ensures ParseKey(r.1) == Some((MakeYear(year), month, DaysInMonth(year, month)))
    ensures r.0 == Key(MakeYear(year), month, 1)
    ensures r.1 == Key(MakeYear(year), month, DaysInMonth(year, month))
  {
    KeyRoundTrip(MakeYear(year), month, 1);
    KeyRoundTrip(MakeYear(year), month, DaysInMonth(year, month));
    (Key(MakeYear(year), month, 1), Key(MakeYear(year), month, DaysInMonth(year, month)))
  }

  // -------------------------------------------------------------- day tasks

  /** A task is shown in the cell of `dateStr` when it has a non-empty end
      date-time that starts with the cell's date. */
  predicate DueOn(t: Task, dateStr: string) {
    Truthy(t.end_datetime) && dateStr <= t.end_datetime.value
  }

  function DayTasks(tasks: seq<Task>, dateStr: string): (r: seq<Task>)
    ensures forall t :: t in r <==> t in tasks && DueOn(t, dateStr)
    ensures IsSubsequence(r, tasks)
  {
    FilterIsSubsequence((t: Task) => DueOn(t, dateStr), tasks);
    Filter((t: Task) => DueOn(t, dateStr), tasks)
  }

  /** A task due at some time of a day of the month shows in that day's
      cell and in no other cell of the month. */
  lemma DueInExactlyOneCell(t: Task, year: int, month: int, day: int, time: string, k: int)
    requires 0 <= month < 12 && 1 <= day <= 31 && 1 <= k <= 31
    requires t.end_datetime == Some(Key(year, month, day) + time)
    ensures DueOn(t, Key(year, month, k)) <==> k == day
  {
    var a := Key(year, month, k);
    var b := Key(year, month, day);
    Pad2RoundTrip(month + 1);
    Pad2RoundTrip(k);
    Pad2RoundTrip(day);
    assert |a| == |b|;
    if a <= b + time {
      assert a == (b + time)[..|a|];
      assert (b + time)[..|b|] == b;
      KeyInjective(year, month, k, year, month, day);
    }
  }

  // ------------------------------------------------------------------ memos

  datatype Memo = Memo(date: string, content: string)

  /** The characters JavaScript's `String.prototype.trim` removes. */
  predicate IsJsSpace(c: char) {
    c == '\t' || c == '\n' || c == '\U{000B}' || c == '\U{000C}' || c == '\r' || c == ' '
    || c == '\U{00A0}' || c == '\U{1680}' || ('\U{2000}' <= c <= '\U{200A}')
    || c == '\U{2028}' || c == '\U{2029}' || c == '\U{202F}' || c == '\U{205F}'
    || c == '\U{3000}' || c == '\U{FEFF}'
  }

  /** `content.trim() === ""`. */
  predicate IsBlank(content: string) {
    forall i :: 0 <= i < |content| ==> IsJsSpace(content[i])
  }

  /** `findIndex(m => m.date === date)`: the first matching position, or -1. */
  function FindIndex(memos: seq<Memo>, date: string): (i: int)
    ensures -1 <= i < |memos|
    ensures 0 <= i ==> memos[i].date == date && forall j :: 0 <= j < i ==> memos[j].date != date
    ensures i < 0 ==> forall j :: 0 <= j < |memos| ==> memos[j].date != date
  {
    if memos == [] then -1
    else if memos[0].date == date then 0
    else
      var k := FindIndex(memos[1..], date);
      if k < 0 then -1 else k + 1
  }

  /** `find(m => m.date === date)`: the memo a cell and the dialog show. */
  function FindMemo(memos: seq<Memo>, date: string): (r: Option<Memo>)
    ensures r.Some? ==> r.value in memos && r.value.date == date
    ensures r.None? <==> forall j :: 0 <= j < |memos| ==> memos[j].date != date
    ensures r.Some? ==> r.value == memos[FindIndex(memos, date)]
  {
    var i := FindIndex(memos, date);
    if i >= 0 then Some(memos[i]) else None
  }

  /** The memos of one date, in list order. */
  function MemosOn(memos: seq<Memo>, date: string): seq<Memo> {
    Filter((m: Memo) => m.date == date, memos)
  }

  predicate AtMostOnePerDate(memos: seq<Memo>) {
    forall i, j :: 0 <= i < |memos| && 0 <= j < |memos| && i != j ==> memos[i].date != memos[j].date
  }

  /** The `setMemos` updater after saving `content` for `date`: an existing
      date is removed when the content is blank and overwritten in place
      otherwise; a new date is ignored when blank and appended otherwise. */
  function SaveMemoUpdate(prev: seq<Memo>, date: string, content: string): (next: seq<Memo>)
    ensures FindIndex(prev, date) >= 0 && !IsBlank(content) ==>
              |next| == |prev| && next[FindIndex(prev, date)] == Memo(date, content)
              && forall j :: 0 <= j < |prev| && j != FindIndex(prev, date) ==> next[j] == prev[j]
    ensures FindIndex(prev, date) >= 0 && IsBlank(content) ==>
              (forall m :: m in next <==> m in prev && m.date != date)
              && next == Filter((m: Memo) => m.date != date, prev)
    ensures FindIndex(prev, date) < 0 && IsBlank(content) ==> next == prev
    ensures FindIndex(prev, date) < 0 && !IsBlank(content) ==> next == prev + [Memo(date, content)]
  {
    var idx := FindIndex(prev, date);
    if idx >= 0 then
      if IsBlank(content) then Filter((m: Memo) => m.date != date, prev)
      else prev[idx := Memo(date, content)]
    else
      if IsBlank(content) then prev
      else prev + [Memo(date, content)]
  }

  /** After a save the date shows the saved memo, or none if it was blank. */
  lemma SaveThenFind(prev: seq<Memo>, date: string, content: string)
    ensures FindMemo(SaveMemoUpdate(prev, date, content), date)
            == if IsBlank(content) then None else Some(Memo(date, content))
  {
    var next := SaveMemoUpdate(prev, date, content);
    var idx := FindIndex(prev, date);
    if !IsBlank(content) {
      var k := if idx >= 0 then idx else |prev|;
      assert next[k] == Memo(date, content);
      assert forall j :: 0 <= j < k ==> next[j] == prev[j];
      assert FindIndex(next, date) == k;
    } else if idx >= 0 {
      assert forall j :: 0 <= j < |next| ==> next[j] in prev && next[j].date != date;
    }
  }

  /** A save never touches the memos of any other date. */
  lemma SaveKeepsOtherDates(prev: seq<Memo>, date: string, content: string, other: string)
    requires other != date
    ensures MemosOn(SaveMemoUpdate(prev, date, content), other) == MemosOn(prev, other)
  {
    var idx := FindIndex(prev, date);
    var onOther := (m: Memo) => m.date == other;
    if idx >= 0 && IsBlank(content) {
      FilterOfFilter((m: Memo) => m.date != date, onOther, prev);
    } else if idx >= 0 {
      FilterUpdateDropped(onOther, prev, idx, Memo(date, content));
    } else if !IsBlank(content) {
      FilterConcat(onOther, prev, [Memo(date, content)]);
      assert Filter(onOther, [Memo(date, content)]) == [];
    }
  }

  lemma OnePerDateTail(memos: seq<Memo>)
    requires memos != [] && AtMostOnePerDate(memos)
    ensures AtMostOnePerDate(memos[1..])
    ensures forall j :: 0 <= j < |memos[1..]| ==> memos[1..][j].date != memos[0].date
  {
    var rest := memos[1..];
    forall i, j | 0 <= i < |rest| && 0 <= j < |rest| && i != j
      ensures rest[i].date != rest[j].date
    {
      assert rest[i] == memos[i + 1] && rest[j] == memos[j + 1];
    }
    forall j | 0 <= j < |rest| ensures rest[j].date != memos[0].date {
      assert rest[j] == memos[j + 1];
    }
  }

  lemma OnePerDateCons(m: Memo, f: seq<Memo>)
    requires AtMostOnePerDate(f)
    requires forall j :: 0 <= j < |f| ==> f[j].date != m.date
    ensures AtMostOnePerDate([m] + f)
  {
    var r := [m] + f;
    forall i, j | 0 <= i < |r| && 0 <= j < |r| && i != j
      ensures r[i].date != r[j].date
    {
      if i > 0 && j > 0 {
        assert r[i] == f[i - 1] && r[j] == f[j - 1];
      }
    }
  }

  lemma {:induction false} FilterKeepsOnePerDate(p: Memo -> bool, memos: seq<Memo>)
    requires AtMostOnePerDate(memos)
    ensures AtMostOnePerDate(Filter(p, memos))
  {
    if memos != [] {
      var rest := memos[1..];
      OnePerDateTail(memos);
      FilterKeepsOnePerDate(p, rest);
      if p(memos[0]) {
        var f := Filter(p, rest);
        assert forall j :: 0 <= j < |f| ==> f[j] in rest;
        OnePerDateCons(memos[0], f);
      }
    }
  }

  /** A save keeps "at most one memo per date". */
  lemma SaveKeepsOnePerDate(prev: seq<Memo>, date: string, content: string)
    requires AtMostOnePerDate(prev)
    ensures AtMostOnePerDate(SaveMemoUpdate(prev, date, content))
  {
    var idx := FindIndex(prev, date);
    if idx >= 0 && IsBlank(content) {
      FilterKeepsOnePerDate((m: Memo) => m.date != date, prev);
    } else if idx < 0 && !IsBlank(content) {
      var next := prev + [Memo(date, content)];
      forall i, j | 0 <= i < |next| && 0 <= j < |next| && i != j
        ensures next[i].date != next[j].date
      {
        if i < |prev| && j < |prev| {
          assert next[i] == prev[i] && next[j] == prev[j];
        }
      }
    }
  }

  // ------------------------------------------------------------ view state

  /** The component's state: the shown month, the memo list and the memo
      dialog. */
  class Calendar {
    var current: YearMonth
    var memos: seq<Memo>
    var selectedDate: Option<string>
    var memoContent: string
    var isDialogOpen: bool

    /** The first render shows the month of `today`. */
    constructor (today: CivilDay)
      ensures current == YearMonth(today.year, today.month)
      ensures memos == [] && selectedDate == None && memoContent == "" && !isDialogOpen
    {
      current := YearMonth(today.year, today.month);
      memos := [];
      selectedDate := None;
      memoContent := "";
      isDialogOpen := false;
    }

    method HandlePrevMonth()
      modifies this
      ensures current == PrevMonth(old(current))
      ensures memos == old(memos) && selectedDate == old(selectedDate)
      ensures memoContent == old(memoContent) && isDialogOpen == old(isDialogOpen)
    {
      current := PrevMonth(current);
    }

    method HandleNextMonth()
      modifies this
      ensures current == NextMonth(old(current))
      ensures memos == old(memos) && selectedDate == old(selectedDate)
      ensures memoContent == old(memoContent) && isDialogOpen == old(isDialogOpen)
    {
      current := NextMonth(current);
    }

    /** The Today button: back to the month of `today`. */
    method HandleToday(today: CivilDay)
      modifies this
      ensures current == YearMonth(today.year, today.month)
      ensures memos == old(memos) && selectedDate == old(selectedDate)
      ensures memoContent == old(memoContent) && isDialogOpen == old(isDialogOpen)
    {
      current := YearMonth(today.year, today.month);
    }

    /** Opening a day's dialog loads that day's memo, or "" when it has none. */
    method OpenMemoDialog(dateStr: string)
      modifies this
      ensures selectedDate == Some(dateStr) && isDialogOpen
      ensures memoContent == match FindMemo(memos, dateStr)
                             case Some(m) => m.content
                             case None => ""
      ensures current == old(current) && memos == old(memos)
    {
      var memo := FindMemo(memos, dateStr);
      selectedDate := Some(dateStr);
      memoContent := match memo case Some(m) => m.content case None => "";
      isDialogOpen := true;
    }

    /** Saving: nothing without a selected date; `saved` says whether the
        store accepted the memo (a rejected save abandons the handler before
        any state changes). Otherwise the memo list is updated and the dialog
        closes. */
    method HandleSaveMemo(saved: bool)
      modifies this
      ensures !Truthy(old(selectedDate)) || !saved ==>
                memos == old(memos) && isDialogOpen == old(isDialogOpen)
      ensures Truthy(old(selectedDate)) && saved ==>
                memos == SaveMemoUpdate(old(memos), old(selectedDate).value, old(memoContent))
                && !isDialogOpen
      ensures current == old(current) && selectedDate == old(selectedDate)
      ensures memoContent == old(memoContent)
    {
      if !Truthy(selectedDate) || !saved {
        return;
      }
      memos := SaveMemoUpdate(memos, selectedDate.value, memoContent);
      isDialogOpen := false;
    }
  }
}
