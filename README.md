# Noruno planner: a verified model of its layout and record logic

Noruno is a desktop planner. Its front end is TypeScript with React and its
back end is Rust with Tauri. This project models the parts of it that compute
something, in Dafny, and proves what they promise.

- **Gantt timeline layout engine** (`GanttLayout`, `gantt.dfy`):
  - filters the laid-out tasks;
  - groups them into rows, one per task group, plus an "Unassigned" row;
  - computes the padded date window and the bar geometry;
  - computes the subtask-based progress of each bar;
  - keeps the two follower panes scrolled with the chart.
- **Month calendar** (`CalendarView`): the day grid, the tasks due on a day, month navigation and the local memo list update.
  - It relies on `CivilDate`, the slice of the JavaScript `Date` object the views use.
  - It also relies on `DateKey`, the `YYYY-MM-DD` keys.
- **Date picker** (`DatePicker`): it reads and writes its `"YYYY-MM-DD HH:mm"` value and lays out its day grid.
- **Task edit dialog** (`EditTaskDialog`): ISO text becomes picker text, and the saved task is a copy of the input.
- **Dropdown** (`Dropdown`): the keyboard and mouse state machine.
- **Context menu** (`ContextMenu`): it is clamped to the viewport, and an item click closes it.
- **Dashboard counters** (`Dashboard`) and the **to-do list partition** (`TaskList`).
- **Mind-map node editing** (`MindMapEditor`).
- **Notes file commands** (`NotesFs`, on top of `UnixPath`):
  - where the notes root is;
  - the path a new note, folder or renamed item gets;
  - the sorted notes tree.

  `UnixPath` is the part of Rust's `std::path` on Unix that these commands need.
- **Rust domain records**:
  - `TaskGroupRecord`: a class whose methods change it in place;
  - `TaskRecord`;
  - `GanttElementRecord`;
  - `TaskElementRecord`.

Shared pieces:

- `Basics`: Option, Result, an order-preserving `Filter` and its lemmas.
- `TaskTypes`: the TypeScript task records.

Each file has the form of its source:

- State that handlers update is a `class`. Examples: the calendar, the picker, the dropdown, the editor, the panes and the task group.
- Loops are methods with invariants. Each is proved equal to a specification function, and the lemmas speak about that function. Examples: the grid loops, the window loop, `read_dir_recursive`, `retain` and the subtask search.
- Expressions are functions.

Inputs the code cannot compute are parameters:

- timestamps, as `toMs`, which stands for `new Date(s).getTime()`;
- today;
- `toISOString`;
- UUIDs;
- `Math.random()` draws;
- DOM sizes;
- file-system answers.

Where the code and the design intent differ, the model follows the code:

- **Grouping.** A task listed by two task groups appears in both group rows. Each group filters the valid tasks on its own (`GanttChartView.tsx:37`). Only the Unassigned row is exclusive. `ListedTaskInGroupRow` states this. No row is "exactly one per task".
- **Invalid dates.** A task with unparsable dates is not dropped. The filter only tests whether the fields are non-empty (`GanttChartView.tsx:27`).
- **Window accumulator.** The latest end starts from 0, not from the first task (`GanttChartView.tsx:77`). `WindowBounds` therefore states the case where every end lies before the epoch separately.

## Model

| member | source | states |
|---|---|---|
| GanttLayout.ValidTasks | src/components/GanttChart/GanttChartView.tsx:25-28 | a task is laid out iff its start and end are non-empty and it is not deleted (or its deletion stamp is empty) |
| GanttLayout.ValidTasksKeepOrder | src/components/GanttChart/GanttChartView.tsx:26-27 | the laid-out tasks keep their input order |
| GanttLayout.SortByStartCorrect | src/components/GanttChart/GanttChartView.tsx:40 | the start-time sort yields a sorted permutation of its input |
| GanttLayout.SortByStartStable | src/components/GanttChart/GanttChartView.tsx:40 | tasks starting at the same instant keep their input order (stable sort) |
| GanttLayout.SortByStartMembers | src/components/GanttChart/GanttChartView.tsx:53 | sorting keeps exactly the same tasks and the same count |
| GanttLayout.InsertByStartSorted | src/components/GanttChart/GanttChartView.tsx:40 | inserting into a sorted row keeps it sorted and adds exactly one task |
| GanttLayout.InsertByStartPerm | src/components/GanttChart/GanttChartView.tsx:40 | insertion adds exactly the new task: a multiset of the row plus one |
| GanttLayout.InsertByStartStable | src/components/GanttChart/GanttChartView.tsx:40 | inserting into any row (sorted or not) keeps the tasks of each start instant in order and puts the new task after every task with the same start |
| GanttLayout.GroupTasks | src/components/GanttChart/GanttChartView.tsx:31-62 | the forEach over groups with the assigned-id set computes exactly the specified rows: one per group with a valid task, in group order, then the Unassigned row of tasks no group lists |
| GanttLayout.AssignedIdsStep | src/components/GanttChart/GanttChartView.tsx:46 | after each group the assigned-id set is exactly the ids of valid tasks listed by the groups seen so far |
| GanttLayout.ListedPrefix | src/components/GanttChart/GanttChartView.tsx:36 | an id is listed by the first i+1 groups iff it is listed by the first i or by group i |
| GanttLayout.RowOfGroupContents | src/components/GanttChart/GanttChartView.tsx:37-45 | a group's row has the group's id and name, is non-empty, sorted by start, holds exactly the valid tasks whose id the group lists, stable |
| GanttLayout.GroupRowsFromGroups | src/components/GanttChart/GanttChartView.tsx:36-48 | there are no more group rows than groups, and each row is the row of some group that selects a valid task |
| GanttLayout.GroupRowsInGroupOrder | src/components/GanttChart/GanttChartView.tsx:36-48 | row k is the row of group js[k] for strictly increasing indices js, so no group has two rows and the rows follow the group order; every group that selects a valid task has its row |
| GanttLayout.GroupRowsShape | src/components/GanttChart/GanttChartView.tsx:38-45 | every group row is non-empty, sorted, named after a group and holds exactly that group's valid tasks |
| GanttLayout.ListedTaskInGroupRow | src/components/GanttChart/GanttChartView.tsx:37 | a valid task listed by a group is in that group's row, so a task listed twice appears twice |
| GanttLayout.UnassignedRowShape | src/components/GanttChart/GanttChartView.tsx:51-59 | the Unassigned row exists iff some valid task is listed by no group; it is then last, has id "unassigned" and name "Unassigned", is sorted and holds exactly those tasks |
| GanttLayout.UnlistedSelection | src/components/GanttChart/GanttChartView.tsx:51-53 | the filter for unassigned tasks is non-empty iff some valid task is listed by no group |
| GanttLayout.RowsNonEmpty | src/components/GanttChart/GanttChartView.tsx:43-58 | no row is ever empty, group row or Unassigned row |
| GanttLayout.EveryValidTaskPlaced | src/components/GanttChart/GanttChartView.tsx:36-59 | every valid task is in at least one row, and the rows hold only valid tasks |
| GanttLayout.ValidTaskInRows | src/components/GanttChart/GanttChartView.tsx:36-66 | every laid-out task appears in the flattened row list |
| GanttLayout.RowsIffValid | src/components/GanttChart/GanttChartView.tsx:31-62 | there are no rows iff there is no laid-out task |
| GanttLayout.Flatten | src/components/GanttChart/GanttChartView.tsx:66 | the flattened list holds exactly the tasks of the rows |
| GanttLayout.MinStartAccBounds | src/components/GanttChart/GanttChartView.tsx:76-84 | the running minimum from Number.MAX_SAFE_INTEGER is at most every start and is either that constant or some start |
| GanttLayout.MaxEndAccBounds | src/components/GanttChart/GanttChartView.tsx:77-84 | the running maximum from 0 is at least every end and is 0 or some end |
| GanttLayout.CeilDiv | src/components/GanttChart/GanttChartView.tsx:93 | Math.ceil of a positive division: the least q with a <= d*q |
| GanttLayout.ComputeWindow | src/components/GanttChart/GanttChartView.tsx:65-96 | the min/max accumulator loop with padding and ceiling computes the specified window |
| GanttLayout.EmptyWindow | src/components/GanttChart/GanttChartView.tsx:67-74 | with no tasks the window is today-2 days .. today+14 days and 16 days wide |
| GanttLayout.WindowBounds | src/components/GanttChart/GanttChartView.tsx:86-95 | minDate is 2 days before the earliest start, maxDate 5 days after the latest end (from 0), both bound every task, totalDays is the ceiling of the span in days |
| GanttLayout.WindowAtLeastAWeek | src/components/GanttChart/GanttChartView.tsx:86-93 | when no task ends before it starts, totalDays >= 7 |
| GanttLayout.BuildLayout | src/components/GanttChart/GanttChartView.tsx:25-96 | the three memoised steps in order compute the specified rows and window |
| GanttLayout.LayoutCoversValidTasks | src/components/GanttChart/GanttChartView.tsx:65-96 | there are no rows iff no task is laid out (then the default window); the window spans every laid-out task |
| GanttLayout.XForDateLinear | src/components/GanttChart/GanttChartView.tsx:100-105 | getXForDate maps minDate to 0, is monotone and linear at 50 pixels per day |
| GanttLayout.BarOf | src/components/GanttChart/GanttChartView.tsx:180-182 | a bar starts at getXForDate(start) and is max(50, getXForDate(end) + 50 - x) wide, so never under 50 |
| GanttLayout.BarWidthOfSpan | src/components/GanttChart/GanttChartView.tsx:181-182 | for end >= start the width is the span in pixels plus one day; a zero-length task gets 50 |
| GanttLayout.BarInsideChart | src/components/GanttChart/GanttChartView.tsx:107 | each laid-out bar with end >= start lies within [0, chartWidth] |
| GanttLayout.BarInWindow | src/components/GanttChart/GanttChartView.tsx:100-107 | a bar of a task inside the window, ending a day before maxDate, starts at x >= 0 and ends within chartWidth |
| GanttLayout.DoneCount | src/components/GanttChart/GanttChartView.tsx:186 | the completed-subtask count is at most the subtask count |
| GanttLayout.DoneCountIsFilter | src/components/GanttChart/GanttChartView.tsx:186 | the count equals the length of the filter on completed subtasks |
| GanttLayout.Percent | src/components/GanttChart/GanttChartView.tsx:187 | (c / n) * 100 lies in [0, 100] and times n gives 100 c |
| GanttLayout.ProgressPercent | src/components/GanttChart/GanttChartView.tsx:184-190 | progress lies in [0, 100]; without subtasks it is 100 iff the task is completed and 0 iff not |
| GanttLayout.ProgressOfSubtasks | src/components/GanttChart/GanttChartView.tsx:185-187 | with subtasks, progress times their count is 100 times the completed count |
| GanttLayout.ProgressAllDone | src/components/GanttChart/GanttChartView.tsx:187 | all subtasks completed gives 100 whatever the task's own flag |
| GanttLayout.ProgressNoneDone | src/components/GanttChart/GanttChartView.tsx:187 | no subtask completed gives 0 whatever the task's own flag |
| GanttLayout.PercentFull | src/components/GanttChart/GanttChartView.tsx:187 | n of n is 100 |
| GanttLayout.ProgressHalf | src/components/GanttChart/GanttChartView.tsx:187 | one of two subtasks completed gives 50 |
| GanttLayout.Pane.constructor | src/components/GanttChart/GanttChartView.tsx:114 | a pane starts at the given offsets |
| GanttLayout.GanttPanes.constructor | src/components/GanttChart/GanttChartView.tsx:113 | the three refs are stored and distinct |
| GanttLayout.GanttPanes.HandleChartScroll | src/components/GanttChart/GanttChartView.tsx:113-117 | the sidebar takes the chart's scrollTop and the header its scrollLeft, other offsets and the chart unchanged, unmounted followers skipped |
| CivilDate.DaysIn | src/components/Calender/CalenderView.tsx:39 | month lengths of the Gregorian calendar, 28..31 |
| CivilDate.DaysBeforeMonth | src/components/Calender/CalenderView.tsx:40 | days before a month are between 0 and 31 per month |
| CivilDate.WeekDay | src/components/Calender/CalenderView.tsx:40 | getDay is in 0..6 |
| CivilDate.MonthStart | src/components/Calender/CalenderView.tsx:59-60 | new Date(year, month, 1) normalises any month into 0..11, counting 12*year+month, with years 0..99 read as 1900..1999 |
| CivilDate.DaysInMonth | src/ui/NorunoDatePicker.tsx:25-27 | new Date(year, month+1, 0).getDate() is 28..31 |
| CivilDate.FirstDayOfMonth | src/ui/NorunoDatePicker.tsx:30-32 | new Date(year, month, 1).getDay() is 0..6 |
| CivilDate.PrevMonth | src/components/Calender/CalenderView.tsx:59 | the previous-month month is a valid month |
| CivilDate.NextMonth | src/components/Calender/CalenderView.tsx:60 | the next-month month is a valid month |
| CivilDate.MonthSteps | src/components/Calender/CalenderView.tsx:59-60 | prev/next move exactly one month, wrapping January to December of the year before and December to January of the year after |
| CivilDate.PrevNextInverse | src/components/Calender/CalenderView.tsx:59-60 | prev and next undo each other away from two-digit years |
| CivilDate.TwoDigitYearJump | src/components/Calender/CalenderView.tsx:60 | next from January of year 99 lands in February 1999 (Date's two-digit-year rule) |
| CivilDate.YearStep | src/components/Calender/CalenderView.tsx:40 | consecutive years differ by the first one's length |
| CivilDate.MonthsFillYear | src/components/Calender/CalenderView.tsx:39 | the twelve month lengths sum to the year length |
| CivilDate.NextMonthDayNumber | src/components/Calender/CalenderView.tsx:40 | the first of the next month is the first of this month plus its length |
| CivilDate.FirstDayOfNextMonth | src/components/Calender/CalenderView.tsx:40 | the weekday of the next month's first is shifted by this month's length mod 7 |
| CivilDate.WeekDayExamples | src/components/Calender/CalenderView.tsx:40 | 1970-01-01 and 2024-02-01 are Thursdays, 2026-10-14 a Wednesday |
| DateKey.DigitChar | src/components/Calender/CalenderView.tsx:52 | a digit's character is a decimal digit |
| DateKey.DigitValue | src/components/Calender/CalenderView.tsx:52 | a digit character's value is 0..9 |
| DateKey.NatToString | src/components/Calender/CalenderView.tsx:52 | String(n) is a non-empty run of digits; one digit iff n < 10; four digits for 1000..9999 |
| DateKey.IntToString | src/components/Calender/CalenderView.tsx:52 | String(i) is non-empty |
| DateKey.Pad2 | src/components/Calender/CalenderView.tsx:52 | padStart(2, "0") gives length max(2, len) |
| DateKey.NatToStringRoundTrip | src/components/Calender/CalenderView.tsx:52 | the digits of String(n) read back as n |
| DateKey.IntToStringRoundTrip | src/components/Calender/CalenderView.tsx:52 | parsing String(i) gives i |
| DateKey.Pad2RoundTrip | src/components/Calender/CalenderView.tsx:52 | a number below 100 padded to two places is two digits reading back as itself |
| DateKey.KeyRoundTrip | src/components/Calender/CalenderView.tsx:52 | the key `${year}-${mm}-${dd}` parses back to its year, month and day |
| DateKey.KeyInjective | src/components/Calender/CalenderView.tsx:52 | two keys are equal iff their dates are equal |
| DateKey.KeyShape | src/components/Calender/CalenderView.tsx:52 | for four-digit years the key is the 10-character YYYY-MM-DD form |
| DateKey.KeyExample | src/components/Calender/CalenderView.tsx:52 | month 9 day 14 of 2026 is "2026-10-14"; one-digit parts are zero-padded |
| CalendarView.CalendarGrid | src/components/Calender/CalenderView.tsx:38-57 | the grid is firstDayOfWeek blanks then days 1..daysInMonth, so its length is their sum and the cell at firstDayOfWeek+k-1 is day k with its key and today flag |
| CalendarView.MonthRange | src/components/Calender/CalenderView.tsx:29-33 | the fetched range is the key of the first and of the last day of the month, and each key parses back to that day |
| CalendarView.DayTasks | src/components/Calender/CalenderView.tsx:121-125 | a task shows in a cell iff its end date-time is present and starts with the cell's key; input order kept |
| CalendarView.DueInExactlyOneCell | src/components/Calender/CalenderView.tsx:121-125 | a task due on day d of the month shows in day d's cell and in no other |
| CalendarView.FindIndex | src/components/Calender/CalenderView.tsx:77 | findIndex gives the first memo of the date, or -1 when there is none |
| CalendarView.FindMemo | src/components/Calender/CalenderView.tsx:128 | find gives the first memo of that date in the list, None iff there is none |
| CalendarView.SaveMemoUpdate | src/components/Calender/CalenderView.tsx:76-88 | existing date: blank content removes every memo of the date and keeps the others in order, else replaced at the same index; absent date: blank leaves the list, else appended |
| CalendarView.SaveThenFind | src/components/Calender/CalenderView.tsx:76-88 | after a save the date shows the saved memo, or none if the content was blank |
| CalendarView.SaveKeepsOtherDates | src/components/Calender/CalenderView.tsx:76-88 | a save never changes the memos of any other date |
| CalendarView.SaveKeepsOnePerDate | src/components/Calender/CalenderView.tsx:76-88 | a save keeps "at most one memo per date" |
| CalendarView.FilterKeepsOnePerDate | src/components/Calender/CalenderView.tsx:80 | filtering keeps "at most one memo per date" |
| CalendarView.Calendar.constructor | src/components/Calender/CalenderView.tsx:12-18 | the first render shows today's month, no memos and a closed dialog |
| CalendarView.Calendar.HandlePrevMonth | src/components/Calender/CalenderView.tsx:59 | the shown month becomes the previous one; nothing else changes |
| CalendarView.Calendar.HandleNextMonth | src/components/Calender/CalenderView.tsx:60 | the shown month becomes the next one; nothing else changes |
| CalendarView.Calendar.HandleToday | src/components/Calender/CalenderView.tsx:61 | the shown month becomes today's; nothing else changes |
| CalendarView.Calendar.OpenMemoDialog | src/components/Calender/CalenderView.tsx:63-68 | the dialog opens on the date with its memo's content, or "" |
| CalendarView.Calendar.HandleSaveMemo | src/components/Calender/CalenderView.tsx:70-90 | nothing without a selected date; otherwise the memo list is updated by the rule and the dialog closes |
| DatePicker.BeforeSpace | src/ui/NorunoDatePicker.tsx:18 | split(" ")[0]: the longest space-free prefix |
| DatePicker.SecondField | src/ui/NorunoDatePicker.tsx:21 | split(" ")[1] is the longest space-free text right after the first space: it starts there and ends at the next space or the end |
| DatePicker.InitialDate | src/ui/NorunoDatePicker.tsx:17-19 | the initial date is the text before the first space, or "" for an empty value |
| DatePicker.InitialTime | src/ui/NorunoDatePicker.tsx:20-22 | the initial time is the second field when the value has a space, else "12:00" |
| DatePicker.BeforeSpaceOfJoin | src/ui/NorunoDatePicker.tsx:18 | the first field of a + " " + b is a, for space-free a |
| DatePicker.EmitRoundTrip | src/ui/NorunoDatePicker.tsx:54 | re-opening on the emitted value gives back the same space-free date and time |
| DatePicker.Picker.constructor | src/ui/NorunoDatePicker.tsx:14-22 | the shown month is the value's (today's for an empty value) and date and time are parsed from the value |
| DatePicker.Picker.HandlePrevMonth | src/ui/NorunoDatePicker.tsx:39-41 | the shown month becomes the previous one; the selection stays |
| DatePicker.Picker.HandleNextMonth | src/ui/NorunoDatePicker.tsx:43-45 | the shown month becomes the next one; the selection stays |
| DatePicker.Picker.HandleDateClick | src/ui/NorunoDatePicker.tsx:47-50 | the selected date becomes the YYYY-MM-DD key of the clicked day, which parses back to it |
| DatePicker.Picker.SetTime | src/ui/NorunoDatePicker.tsx:20 | the time input changes only the time |
| DatePicker.Picker.HandleOk | src/ui/NorunoDatePicker.tsx:52-57 | emits date + " " + time only when a date is selected, then closes exactly once, last |
| DatePicker.Picker.RenderCalendarDays | src/ui/NorunoDatePicker.tsx:59-89 | firstDay empty slots then days 1..daysInMonth, each selected iff its key equals the selected date |
| DatePicker.SelectedDayUnique | src/ui/NorunoDatePicker.tsx:68 | at most one day of a month is selected, and a date of that month selects exactly its own day |
| EditTaskDialog.ReplaceFirstT | src/components/ToDoList/EditTaskDialog.tsx:17 | replace("T", " ") changes only the first T, keeping the length |
| EditTaskDialog.FormatToPicker | src/components/ToDoList/EditTaskDialog.tsx:15-18 | "" for a missing or empty value; otherwise the first T replaced by a space, cut to min(16, len) characters |
| EditTaskDialog.IsoToPicker | src/components/ToDoList/EditTaskDialog.tsx:14-17 | "YYYY-MM-DDTHH:mm..." becomes "YYYY-MM-DD HH:mm" |
| EditTaskDialog.PickerSeesStoredDateTime | src/components/ToDoList/EditTaskDialog.tsx:20-21 | the picker opened on that text selects the stored date and time |
| EditTaskDialog.Load | src/components/ToDoList/EditTaskDialog.tsx:25-31 | opening loads the description and both date-times in picker form |
| EditTaskDialog.FormatToIso | src/components/ToDoList/EditTaskDialog.tsx:35-36 | an empty picker string gives undefined |
| EditTaskDialog.SavedTask | src/components/ToDoList/EditTaskDialog.tsx:42-47 | the saved task equals the input except description and both date-times; empty picker strings become undefined |
| EditTaskDialog.SaveUntouchedUndated | src/components/ToDoList/EditTaskDialog.tsx:42-47 | saving an untouched form of an undated task returns the task |
| Dropdown.FindOption | src/ui/NorunoDropdown.tsx:26 | find gives the first option with the value, or -1 when there is none |
| Dropdown.DisplayText | src/ui/NorunoDropdown.tsx:26-27 | the label of the first option with the value, else the placeholder ("Select..." by default) |
| Dropdown.DuplicateValuesShowFirst | src/ui/NorunoDropdown.tsx:26 | with two options sharing a value the first label shows |
| Dropdown.Select.constructor | src/ui/NorunoDropdown.tsx:22-23 | closed, no focus |
| Dropdown.Select.HandleKeyDown | src/ui/NorunoDropdown.tsx:51-86 | closed: Enter/Space/ArrowDown open it at 0, other keys nothing; open: arrows move within bounds, Enter emits the focused value and closes at -1 (nothing out of range), Escape closes at -1; the focus bound -1..max(0, len-1) is kept |
| Dropdown.Select.HandleOptionClick | src/ui/NorunoDropdown.tsx:88-92 | emits the option's value, closes, focus -1 |
| Dropdown.Select.HandleMouseDown | src/ui/NorunoDropdown.tsx:31-43 | a press outside an open list closes it at -1 and emits nothing; otherwise nothing changes |
| Dropdown.Select.Toggle | src/ui/NorunoDropdown.tsx:104 | the button flips isOpen and keeps the focus |
| Dropdown.Select.HandleMouseEnter | src/ui/NorunoDropdown.tsx:122 | hovering an option focuses it |
| Dropdown.KeyboardScenario | src/ui/NorunoDropdown.tsx:51-79 | open, step down, Enter on two options emits the second value |
| ContextMenu.Clamp | src/ui/NorunoContextMenu.tsx:40-45 | a fitting coordinate is kept; an overflowing one becomes max(8, viewport - size - 8), so >= 8, and ends 8 before the edge when the viewport has room |
| ContextMenu.FittingMenuUntouched | src/ui/NorunoContextMenu.tsx:44-45 | a menu that fits stays where it was opened, even nearer than 8 to the left or top |
| ContextMenu.WideMenuStillOverflows | src/ui/NorunoContextMenu.tsx:44 | a menu wider than the viewport lands at 8 and still overflows |
| ContextMenu.Menu.constructor | src/ui/NorunoContextMenu.tsx:19 | the first position is the click point |
| ContextMenu.Menu.LayoutEffect | src/ui/NorunoContextMenu.tsx:32-48 | mounted: the position becomes the clamped (left, top); unmounted: it stays |
| ContextMenu.HandleItemClick | src/ui/NorunoContextMenu.tsx:50-57 | the item runs first, an error is logged iff it throws, and the menu closes exactly once, last |
| Dashboard.Round | src/components/Dashboard/DashboardView.tsx:12 | Math.round: the integer r with r <= x + 1/2 < r + 1 |
| Dashboard.CompletedCount | src/components/Dashboard/DashboardView.tsx:10 | the completed count is at most the total |
| Dashboard.Percent | src/components/Dashboard/DashboardView.tsx:12 | round(100 c / n) is in 0..100 and within half a point of 100 c / n |
| Dashboard.ScaledBounds | src/components/Dashboard/DashboardView.tsx:12 | (c / n) * 100 lies in [0, 100] and times n is 100 c |
| Dashboard.RoundScaled | src/components/Dashboard/DashboardView.tsx:12 | rounding brackets the exact share within half a point |
| Dashboard.Summarize | src/components/Dashboard/DashboardView.tsx:9-12 | total is the task count, completed the completed count, completed + pending = total, progress 0 without tasks, else the rounded percentage in 0..100 |
| Dashboard.PercentFull | src/components/Dashboard/DashboardView.tsx:12 | n of n rounds to 100 |
| Dashboard.PercentNone | src/components/Dashboard/DashboardView.tsx:12 | 0 of n rounds to 0 |
| Dashboard.ProgressExtremes | src/components/Dashboard/DashboardView.tsx:12 | all tasks completed gives 100, none gives 0 |
| Dashboard.ProgressTwoOfThree | src/components/Dashboard/DashboardView.tsx:12 | two of three rounds 66.7 up to 67 |
| Dashboard.CountsMatchTaskList | src/components/Dashboard/DashboardView.tsx:10-11 | the counters equal the lengths of the to-do list's two sections |
| TaskList.PendingTasks | src/components/ToDoList/TaskList.tsx:11 | exactly the tasks that are not completed |
| TaskList.CompletedTasks | src/components/ToDoList/TaskList.tsx:12 | exactly the completed tasks |
| TaskList.Partition | src/components/ToDoList/TaskList.tsx:11-12 | each task is in exactly one list, the multisets and lengths add up to the input, both keep the input order |
| TaskList.Render | src/components/ToDoList/TaskList.tsx:17-33 | the pending cards always; the completed section iff some task is completed, showing its count and the completed tasks |
| MindMapEditor.LabelOf | src/components/MindMap/MindMapEditor.tsx:111 | the label when data.label is a string, else "" |
| MindMapEditor.RelabelNodes | src/components/MindMap/MindMapEditor.tsx:117-127 | every node with the id gets data.label, keeping its other data fields, position and type; other nodes unchanged; count and order kept |
| MindMapEditor.RelabelThenOpen | src/components/MindMap/MindMapEditor.tsx:111 | reopening a relabelled node shows the saved label |
| MindMapEditor.RelabelIdempotent | src/components/MindMap/MindMapEditor.tsx:117-127 | saving the same label twice equals saving it once |
| MindMapEditor.RelabelUnchanged | src/components/MindMap/MindMapEditor.tsx:117-127 | when the matching nodes already carry the label, nothing changes |
| MindMapEditor.RelabelKeepsOthers | src/components/MindMap/MindMapEditor.tsx:125 | the nodes with other ids are exactly the same before and after |
| MindMapEditor.NewNode | src/components/MindMap/MindMapEditor.tsx:209-215 | the new node has type custom, the single data field label = "Node", and coordinates in [100, 300) |
| MindMapEditor.Editor.constructor | src/components/MindMap/MindMapEditor.tsx:54-61 | nothing is being edited and the dialog is closed |
| MindMapEditor.Editor.OnNodeDoubleClick | src/components/MindMap/MindMapEditor.tsx:109-113 | the node is being edited, the label starts from LabelOf, the dialog opens |
| MindMapEditor.Editor.SetEditLabel | src/components/MindMap/MindMapEditor.tsx:187 | typing changes only the edit label |
| MindMapEditor.Editor.SaveNodeLabel | src/components/MindMap/MindMapEditor.tsx:115-130 | nothing without an edited node; otherwise the nodes are relabelled, the dialog closes and no node is being edited |
| MindMapEditor.Editor.HandleKeyDown | src/components/MindMap/MindMapEditor.tsx:132-136 | Enter saves: with a node being edited it relabels it and closes the dialog; with none, nothing changes; the edit label always stays; any other key changes nothing |
| MindMapEditor.Editor.CloseDialog | src/components/MindMap/MindMapEditor.tsx:193 | Cancel closes the dialog and keeps everything else |
| MindMapEditor.Editor.AddNode | src/components/MindMap/MindMapEditor.tsx:208-217 | exactly one new node is appended at the end |
| MindMapEditor.EditScenario | src/components/MindMap/MindMapEditor.tsx:109-130 | double-click, type, save: every node sharing the id carries the text, others unchanged |
| UnixPath.Join | src-tauri/src/commands/notes/fs.rs:122 | Path::join: an absolute argument replaces the base; otherwise appended with one separator |
| UnixPath.BodyStart | src-tauri/src/commands/notes/fs.rs:165 | one character before the body iff the path is absolute or starts with the "." component |
| UnixPath.CompStart | src-tauri/src/commands/notes/fs.rs:165 | the start of the last separator-free stretch |
| UnixPath.NextBack | src-tauri/src/commands/notes/fs.rs:165 | the span of the last component, non-empty, not ".", separator-free |
| UnixPath.TrimRight | src-tauri/src/commands/notes/fs.rs:165 | the length left after trailing separators and "." stretches, ending in a component or the body start |
| UnixPath.Parent | src-tauri/src/commands/notes/fs.rs:165 | Path::parent is a strictly shorter prefix, none for "" |
| UnixPath.FileName | src-tauri/src/commands/notes/fs.rs:124 | Path::file_name is one ordinary component, never ".." |
| UnixPath.LastDot | src-tauri/src/commands/notes/fs.rs:124 | the position of the last "." |
| UnixPath.Stem | src-tauri/src/commands/notes/fs.rs:124 | the text before the last ".", or the whole name without a dot or with only a leading one |
| UnixPath.SetExtension | src-tauri/src/commands/notes/fs.rs:124 | set_extension leaves a path without file name alone |
| UnixPath.BodyStartOfJoin | src-tauri/src/commands/notes/fs.rs:122 | joining a name does not change what precedes the body |
| UnixPath.NextBackOfJoin | src-tauri/src/commands/notes/fs.rs:122 | the last component of dir/name is name |
| UnixPath.ParentOfJoin | src-tauri/src/commands/notes/fs.rs:164-166 | the parent of dir/name is dir without its trailing "." stretches |
| UnixPath.ParentOfSettledJoin | src-tauri/src/commands/notes/fs.rs:164-166 | a settled directory is the parent of each of its entries |
| UnixPath.SettledJoin | src-tauri/src/commands/notes/fs.rs:42 | a directory named by joining an ordinary name is settled |
| UnixPath.FileNameOfJoin | src-tauri/src/commands/notes/fs.rs:122-124 | the file name of dir/name is name |
| UnixPath.SetExtensionOfJoin | src-tauri/src/commands/notes/fs.rs:122-125 | setting the extension of dir/name replaces name's extension |
| UnixPath.NoParent | src-tauri/src/commands/notes/fs.rs:165 | "" and "/" have no parent |
| NotesFs.NotesDir | src-tauri/src/commands/notes/fs.rs:41-45 | HOME/Documents/NorunosNotes when HOME is set (separator rules of join), else NorunosNotes |
| NotesFs.NotesDirUnderHome | src-tauri/src/commands/notes/fs.rs:42 | under a home directory the root is settled and its parent is HOME/Documents |
| NotesFs.EnsureNotesDir | src-tauri/src/commands/notes/fs.rs:48-54 | the root is returned when it exists or can be created, else the creation error |
| NotesFs.TargetDir | src-tauri/src/commands/notes/fs.rs:116-120 | an empty parent path selects the notes root, else the path as given |
| NotesFs.CreateNote | src-tauri/src/commands/notes/fs.rs:113-133 | root errors pass through; an existing target gives "File already exists"; success iff the target is new and the write succeeds, returning the .md path |
| NotesFs.CreateFolder | src-tauri/src/commands/notes/fs.rs:135-150 | root errors pass through; an existing target gives "Folder already exists"; success iff new and created, returning dir/name |
| NotesFs.NoteNameShape | src-tauri/src/commands/notes/fs.rs:123-125 | the stored name is an ordinary name ending in .md |
| NotesFs.NotePathOfName | src-tauri/src/commands/notes/fs.rs:122-125 | a name ending in .md is kept, any other has its extension replaced by md |
| NotesFs.NoteInDirectory | src-tauri/src/commands/notes/fs.rs:122 | the new note's parent is the directory it was created in |
| NotesFs.CreatedNoteIsMarkdown | src-tauri/src/commands/notes/fs.rs:122-132 | every created note path ends in .md |
| NotesFs.NoteNameExamples | src-tauri/src/commands/notes/fs.rs:123-125 | a.txt becomes dir/a.md, b.md stays dir/b.md |
| NotesFs.RenameItem | src-tauri/src/commands/notes/fs.rs:162-170 | the new path is the old path's parent joined with the new name; no parent gives "Invalid path" |
| NotesFs.RenameStaysInDirectory | src-tauri/src/commands/notes/fs.rs:164-166 | renaming an entry of a directory keeps it in that directory |
| NotesFs.RenameWithoutParent | src-tauri/src/commands/notes/fs.rs:165 | the empty path and the root give "Invalid path" |
| NotesFs.NameLeTotal | src-tauri/src/commands/notes/fs.rs:84 | the name order is total |
| NotesFs.NameLeTrans | src-tauri/src/commands/notes/fs.rs:84 | the name order is transitive |
| NotesFs.NameLeAntisymmetric | src-tauri/src/commands/notes/fs.rs:84 | the name order is antisymmetric |
| NotesFs.NodeLeTotal | src-tauri/src/commands/notes/fs.rs:82-92 | the comparator is total |
| NotesFs.NodeLeTrans | src-tauri/src/commands/notes/fs.rs:82-92 | the comparator is transitive |
| NotesFs.InsertNodeSorted | src-tauri/src/commands/notes/fs.rs:82-92 | insertion keeps the listing sorted and adds one node |
| NotesFs.InsertNodePerm | src-tauri/src/commands/notes/fs.rs:82-92 | inserting a node adds exactly that node to the multiset of the listing |
| NotesFs.SortNodesCorrect | src-tauri/src/commands/notes/fs.rs:82-92 | sort_by yields a sorted permutation |
| NotesFs.SortedDirsFirst | src-tauri/src/commands/notes/fs.rs:82-92 | in sorted order every directory precedes every file, names ascending within each kind |
| NotesFs.EntryNode | src-tauri/src/commands/notes/fs.rs:62-78 | a node has the entry's name, the joined path, is_dir iff a directory, children iff a directory |
| NotesFs.EntryNodes | src-tauri/src/commands/notes/fs.rs:60-79 | one node per entry in read_dir order |
| NotesFs.ReadDirRecursive | src-tauri/src/commands/notes/fs.rs:56-95 | the loop with recursion and the sort computes the specified tree |
| NotesFs.ReadTreeListing | src-tauri/src/commands/notes/fs.rs:56-95 | a listing is a permutation of the entry nodes, one per entry, directories first, names ascending within each kind |
| NotesFs.GetNotesTree | src-tauri/src/commands/notes/fs.rs:97-101 | the root error, or the tree of the notes root |
| TaskGroupRecord.Without | src-tauri/src/commands/task/task_group.rs:34 | retain drops the id, keeps every other id and their order |
| TaskGroupRecord.WithoutCount | src-tauri/src/commands/task/task_group.rs:34 | every occurrence of the id goes and nothing else |
| TaskGroupRecord.RemoveIdempotent | src-tauri/src/commands/task/task_group.rs:33-35 | removing twice equals removing once |
| TaskGroupRecord.RemoveAbsent | src-tauri/src/commands/task/task_group.rs:33-35 | removing an absent id changes nothing |
| TaskGroupRecord.AddThenRemove | src-tauri/src/commands/task/task_group.rs:29-35 | adding an absent id then removing it restores the list |
| TaskGroupRecord.TaskGroup.constructor | src-tauri/src/commands/task/task_group.rs:18-27 | a fresh id, empty name and tasks, created now, no update or deletion stamp |
| TaskGroupRecord.TaskGroup.AddTask | src-tauri/src/commands/task/task_group.rs:29-31 | the id is appended; nothing else changes |
| TaskGroupRecord.TaskGroup.RemoveTask | src-tauri/src/commands/task/task_group.rs:33-35 | the list becomes Without(old list, id); nothing else changes |
| TaskGroupRecord.TaskGroup.SetCreatedAt | src-tauri/src/commands/task/task_group.rs:38-40 | only created_at changes |
| TaskGroupRecord.TaskGroup.UpdateUpdatedAt | src-tauri/src/commands/task/task_group.rs:42-44 | only updated_at changes, to Some(now) |
| TaskGroupRecord.TaskGroup.SetDeleted | src-tauri/src/commands/task/task_group.rs:46-48 | only deleted_at changes, to Some(now) |
| TaskGroupRecord.AddRemoveScenario | src-tauri/src/commands/task/task_group.rs:18-35 | a new group with an id added and removed is empty |
| TaskRecord.Default | src-tauri/src/commands/Task/task.rs:15-23 | a fresh id, not completed, default elements, no subtasks |
| TaskRecord.UpdateCompleted | src-tauri/src/commands/Task/task.rs:25-33 | only the flag changes, under a fresh id |
| TaskRecord.UpdateTaskElement | src-tauri/src/commands/Task/task.rs:35-43 | only the task element changes, under a fresh id |
| TaskRecord.UpdateGanttElement | src-tauri/src/commands/Task/task.rs:45-53 | only the gantt element changes, under a fresh id |
| TaskRecord.UpdatesCommute | src-tauri/src/commands/Task/task.rs:25-53 | updates of different components commute |
| TaskRecord.PushSubtask | src-tauri/src/commands/Task/task.rs:55-65 | the subtask is appended; id, flag and elements kept |
| TaskRecord.FirstIndex | src-tauri/src/commands/Task/task.rs:67-71 | the first subtask with the id, or none |
| TaskRecord.RemoveSubtask | src-tauri/src/commands/Task/task.rs:66-82 | the search loop and removal compute RemovedSubtask, panicking when no id matches |
| TaskRecord.FirstIndexIs | src-tauri/src/commands/Task/task.rs:67-71 | the loop's stopping index is the first match |
| TaskRecord.RemovedSubtaskSpec | src-tauri/src/commands/Task/task.rs:66-82 | panics iff no subtask has the id; otherwise only the first match goes, length drops by 1, order kept, id, flag and elements kept |
| TaskRecord.PushThenRemove | src-tauri/src/commands/Task/task.rs:55-82 | pushing a subtask with a new id and removing it restores the task |
| GanttElementRecord.Default | src-tauri/src/commands/Task/gantt_element.rs:10-16 | no start, no end, progress 0 |
| GanttElementRecord.UpdateStartTime | src-tauri/src/commands/Task/gantt_element.rs:18-24 | start becomes Some, end and progress kept |
| GanttElementRecord.UpdateEndTime | src-tauri/src/commands/Task/gantt_element.rs:26-32 | end becomes Some, start and progress kept |
| GanttElementRecord.UpdateProgress | src-tauri/src/commands/Task/gantt_element.rs:34-40 | progress set, both dates kept |
| GanttElementRecord.UpdatesCommute | src-tauri/src/commands/Task/gantt_element.rs:18-40 | updates to different fields commute |
| GanttElementRecord.LastUpdateWins | src-tauri/src/commands/Task/gantt_element.rs:18-40 | a second update of a field overrides the first |
| GanttElementRecord.FullySet | src-tauri/src/commands/Task/gantt_element.rs:10-40 | setting all fields of the default gives exactly those values |
| TaskElementRecord.Default | src-tauri/src/commands/task/task_element.rs:9-14 | description "No description.", no details |
| TaskElementRecord.UpdateDescription | src-tauri/src/commands/task/task_element.rs:16-21 | the description is replaced, details kept |
| TaskElementRecord.UpdateGroup | src-tauri/src/commands/task/task_element.rs:23-28 | the element is returned unchanged; the group is ignored |
| TaskElementRecord.UpdateDetails | src-tauri/src/commands/task/task_element.rs:30-35 | details become Some, description kept |
| TaskElementRecord.UpdatesCommute | src-tauri/src/commands/task/task_element.rs:16-35 | description and details are set independently |
| TaskElementRecord.GroupIgnored | src-tauri/src/commands/task/task_element.rs:23-28 | two different groups give the same element, the input |

## Left out

- Date parsing and time zones. `new Date(s)` parsing, NaN from unparsable text, local time across daylight-saving changes, and `toISOString` are out. They enter as the parameters `toMs`, `valueMonth` and `toIso`, and "today" is a parameter too. A day is a fixed 86 400 000 ms.
- GanttLayout.ComputeWindow: the padding by `setDate(±n)` is modelled as ±n fixed days, so it is off by an hour whenever a daylight-saving change falls inside the padding.
- GanttLayout.Percent: computed on exact reals, not IEEE doubles.
- Dashboard.Percent: computed on exact rationals, not IEEE doubles. `Math.round` is floor(x + 1/2).
- GanttLayout.BuildLayout: the `getTaskGroups` fetch is left out. The task groups are an input.
- Rendering: JSX, CSS and pixel styling (`width - 4`, row heights) are not modelled.
- React Flow, `crypto.randomUUID`, `Uuid::new_v4`, `Local::now` and `Math.random` are left out. Ids, instants and random draws are parameters.
- DOM measurement (`getBoundingClientRect`, `window.innerWidth`) is left out. Sizes are parameters.
- The window event listeners are left out. They are the context menu's Escape listener and backdrop click, and the mind map's Ctrl+S shortcut.
- MindMapEditor.Editor: the JSON loading and saving of the map, `onConnect` edges, title editing and the React Flow change handlers are left out. They are I/O or library state.
- CalendarView.Calendar.HandleSaveMemo: the `saveMemo` call is a parameter, `saved`. A rejected call abandons the handler before any change.
- CalendarView.Calendar: the memo fetch (`getMemos`) is left out. MonthRange models only the range it asks for.
- Dropdown.Select: the `options` prop is a constant of the instance. Its `onChange` call is the returned value.
- NotesFs.CreateNote: `Path::exists` is exact membership in the set of existing paths. Paths are not normalised. The `fs::write` error is the `opError` parameter.
- NotesFs.CreateFolder and NotesFs.RenameItem: `Path::exists` is exact membership in the set of existing paths. The `create_dir` / `rename` errors are the `opError` parameter.
- NotesFs.ReadDirRecursive:
  - errors from `read_dir`, from an entry and from its metadata are not modelled;
  - the directory's contents are the `entries` argument;
  - `to_string_lossy` is the identity;
  - names are compared by code point, which is Rust's byte order on UTF-8.
- `read_note`, `save_note` and `delete_item` (src-tauri/src/commands/notes/fs.rs:103-160) are left out. They are direct file I/O with no logic of their own.
- NotesFs.NoteName: an empty note name joins to `dir/`. `set_extension` then renames the directory entry itself. This is modelled by SetExtension, but no lemma states it.
- TaskRecord.Subtask: only the id, description and flag are modelled. The Rust subtask module Task/sub_task.rs is not part of this model. src-tauri/src/commands/task/sub_task.rs holds unresolved merge conflicts.
- TaskRecord.RemoveSubtask: a panic is the `Panicked` outcome, not an abort.
- GanttElementRecord: `DateTime<Local>` values are integer instants.
- TaskGroupRecord: `DateTime<Local>` values are integer instants.
- The database commands (sqlx over SQLite) and the other views' dialog glue are left out. They are I/O.
