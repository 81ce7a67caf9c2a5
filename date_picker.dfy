/** The date picker of `src/ui/NorunoDatePicker.tsx`: it reads a
    `"YYYY-MM-DD HH:mm"` value into a date part and a time part, lets the user
    browse months and click a day, lays the month out as a grid of slots and,
    on OK, hands back the two parts joined by a space. */
module DatePicker {
  import opened Basics
  import opened CivilDate
  import opened DateKey

  // ---------------------------------------------------------- value parsing

  /** `s.split(" ")[0]`: the text before the first space. */
  function BeforeSpace(s: string): (r: string)
    ensures r <= s
    ensures forall i :: 0 <= i < |r| ==> r[i] != ' '
    ensures |r| == |s| || s[|r|] == ' '
    ensures ' ' in s ==> |r| < |s|
  {
    if s == [] || s[0] == ' ' then [] else [s[0]] + BeforeSpace(s[1..])
  }

  /** `s.split(" ")[1]` for a string holding a space: the text between the
      first space and the next one (or the end). */
  function SecondField(s: string): (r: string)
    requires ' ' in s
    ensures forall i :: 0 <= i < |r| ==> r[i] != ' '
    ensures var k := |BeforeSpace(s)|;
            r <= s[k + 1..] && (k + 1 + |r| == |s| || s[k + 1 + |r|] == ' ')
  {
    var k := |BeforeSpace(s)|;
    BeforeSpace(s[k + 1..])
  }

  /** The initial `selectedDate`: the first field of a non-empty value. */
  function InitialDate(value: string): (r: string)
    ensures r <= value && (forall i :: 0 <= i < |r| ==> r[i] != ' ')
    ensures value != "" ==> |r| == |value| || value[|r|] == ' '
  {
    if value != "" then BeforeSpace(value) else ""
  }

  /** The initial `selectedTime`: the second field when the value has a
      space, noon otherwise. */
  function InitialTime(value: string): (r: string)
    ensures ' ' !in value ==> r == "12:00"
    ensures ' ' in value ==> r == SecondField(value)
    ensures forall i :: 0 <= i < |r| ==> r[i] != ' '
  {
    if value != "" && ' ' in value then SecondField(value) else "12:00"
  }

  /** The value OK emits. */
  function Emit(date: string, time: string): string {
    date + " " + time
  }

  lemma BeforeSpaceOfJoin(a: string, b: string)
    requires forall i :: 0 <= i < |a| ==> a[i] != ' '
    ensures BeforeSpace(a + " " + b) == a
  {
    var r := BeforeSpace(a + " " + b);
    var s := a + " " + b;
    assert s[|a|] == ' ';
    assert r == s[..|r|];
    assert s[..|a|] == a;
  }

  /** Re-opening the picker on the value it emitted gives back the same date
      and time, as long as neither contains a space. */
  lemma EmitRoundTrip(date: string, time: string)
    requires forall i :: 0 <= i < |date| ==> date[i] != ' '
    requires forall i :: 0 <= i < |time| ==> time[i] != ' '
    ensures InitialDate(Emit(date, time)) == date
    ensures InitialTime(Emit(date, time)) == time
  {
    var v := Emit(date, time);
    assert v[|date|] == ' ';
    BeforeSpaceOfJoin(date, time);
    assert v[|date| + 1..] == time + "";
    BeforeSpaceOfJoin(time, "");
    assert time + " " + "" == time + " ";
    assert BeforeSpace(time) == time by {
      assert BeforeSpace(time) <= time;
    }
  }

  // -------------------------------------------------------------- the view

  /** A slot of the day grid. */
  datatype Slot = EmptySlot | DaySlot(day: int, isSelected: bool, isToday: bool)

  /** What a click on OK asks of the parent. */
  datatype Effect = Change(value: string) | Close

  class Picker {
    var current: YearMonth
    var selectedDate: string
    var selectedTime: string

    /** `valueMonth` is the month `new Date(value)` falls in and `todayMonth`
        the current month. */
    constructor (value: string, valueMonth: YearMonth, todayMonth: YearMonth)
      requires ValidMonth(valueMonth) && ValidMonth(todayMonth)
      ensures current == (if value != "" then valueMonth else todayMonth)
      ensures selectedDate == InitialDate(value)
      ensures selectedTime == InitialTime(value)
      ensures Valid()
    {
      current := if value != "" then valueMonth else todayMonth;
      selectedDate := InitialDate(value);
      selectedTime := InitialTime(value);
    }

    predicate Valid()
      reads this
    {
      ValidMonth(current)
    }

    method HandlePrevMonth()
      requires Valid()
      modifies this
      ensures Valid()
      ensures current == PrevMonth(old(current))
      ensures selectedDate == old(selectedDate) && selectedTime == old(selectedTime)
    {
      current := PrevMonth(current);
    }

    method HandleNextMonth()
      requires Valid()
      modifies this
      ensures Valid()
      ensures current == NextMonth(old(current))
      ensures selectedDate == old(selectedDate) && selectedTime == old(selectedTime)
    {
      current := NextMonth(current);
    }

    /** Clicking day `day` selects its date key; the month and time stay. */
    method HandleDateClick(day: int)
      requires Valid() && 1 <= day <= DaysInMonth(current.year, current.month)
      modifies this
      ensures Valid()
      ensures selectedDate == Key(current.year, current.month, day)
      ensures ParseKey(selectedDate) == Some((current.year, current.month, day))
      ensures current == old(current) && selectedTime == old(selectedTime)
    {
      selectedDate := Key(current.year, current.month, day);
      KeyRoundTrip(current.year, current.month, day);
    }

    /** The time input. */
    method SetTime(time: string)
      modifies this
      ensures selectedTime == time
      ensures current == old(current) && selectedDate == old(selectedDate)
    {
      selectedTime := time;
    }

    /** OK: emits the joined value when a date is selected, and closes the
        picker exactly once in every case, last. */
    method HandleOk() returns (effects: seq<Effect>)
      ensures |effects| >= 1 && effects[|effects| - 1] == Close
      ensures forall i :: 0 <= i < |effects| - 1 ==> effects[i].Change?
      ensures |effects| == 2 <==> selectedDate != ""
      ensures selectedDate != "" ==> effects[0] == Change(Emit(selectedDate, selectedTime))
    {
      effects := [];
      if selectedDate != "" {
        effects := effects + [Change(Emit(selectedDate, selectedTime))];
      }
      effects := effects + [Close];
    }

    /** The day grid: `FirstDayOfMonth` empty slots, then each day, selected
        exactly when its key is `selectedDate`. */
    method RenderCalendarDays(today: CivilDay) returns (days: seq<Slot>)
      requires Valid()
      ensures var first := FirstDayOfMonth(current.year, current.month);
              var n := DaysInMonth(current.year, current.month);
              |days| == first + n
              && (forall i :: 0 <= i < |days| ==> (days[i] == EmptySlot <==> i < first))
              && (forall k :: 1 <= k <= n ==> days[first + k - 1] == SlotOf(current, selectedDate, today, k))
    {
      var ym, sel := current, selectedDate;
      var year := ym.year;
      var month := ym.month;
      var daysInMonth := DaysInMonth(year, month);
      var firstDay := FirstDayOfMonth(year, month);
      days := [];
      var i := 0;
      while i < firstDay
        invariant 0 <= i <= firstDay
        invariant |days| == i
        invariant forall j :: 0 <= j < i ==> days[j] == EmptySlot
      {
        days := days + [EmptySlot];
        i := i + 1;
      }
      var day := 1;
      while day <= daysInMonth
        invariant 1 <= day <= daysInMonth + 1
        invariant |days| == firstDay + day - 1
        invariant forall j :: 0 <= j < firstDay ==> days[j] == EmptySlot
        invariant forall j :: firstDay <= j < |days| ==> days[j] == SlotOf(ym, sel, today, j - firstDay + 1)
      {
        var dateStr := Key(year, month, day);
        var isSelected := sel == dateStr;
        var isToday := today == CivilDay(MakeYear(year), month, day);
        AppendSlot(days, firstDay, ym, sel, today, day, DaySlot(day, isSelected, isToday));
        days := days + [DaySlot(day, isSelected, isToday)];
        day := day + 1;
      }
      assert forall k :: 1 <= k <= daysInMonth ==> days[firstDay + k - 1] == SlotOf(ym, sel, today, k);
    }
  }

  /** Appending the slot of the next day keeps the day slots in place. */
  lemma AppendSlot(days: seq<Slot>, first: int, ym: YearMonth, sel: string, today: CivilDay, day: int, c: Slot)
    requires 0 <= first && |days| == first + day - 1
    requires forall j :: first <= j < |days| ==> days[j] == SlotOf(ym, sel, today, j - first + 1)
    requires c == SlotOf(ym, sel, today, day)
    ensures forall j :: first <= j < |days + [c]| ==> (days + [c])[j] == SlotOf(ym, sel, today, j - first + 1)
  {
    var d := days + [c];
    forall j | first <= j < |d| ensures d[j] == SlotOf(ym, sel, today, j - first + 1) {
      if j < |days| {
        assert d[j] == days[j];
      } else {
        assert j - first + 1 == day;
      }
    }
  }

  /** The slot of day `k` of month `ym`. */
  function SlotOf(ym: YearMonth, selectedDate: string, today: CivilDay, k: int): Slot {
    DaySlot(k, selectedDate == Key(ym.year, ym.month, k), today == CivilDay(MakeYear(ym.year), ym.month, k))
  }

  /** At most one day of a month is marked selected, and a selected date of
      that month marks exactly its own day. */
  lemma SelectedDayUnique(ym: YearMonth, selectedDate: string, today: CivilDay, k1: int, k2: int)
    requires ValidMonth(ym) && 1 <= k1 <= 31 && 1 <= k2 <= 31
    ensures SlotOf(ym, selectedDate, today, k1).isSelected && SlotOf(ym, selectedDate, today, k2).isSelected
            ==> k1 == k2
    ensures selectedDate == Key(ym.year, ym.month, k1) ==>
              (SlotOf(ym, selectedDate, today, k2).isSelected <==> k1 == k2)
  {
    KeyInjective(ym.year, ym.month, k1, ym.year, ym.month, k2);
  }
}
