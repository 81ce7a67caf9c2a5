/** The slice of the JavaScript `Date` object that the calendar views use:
    `new Date(year, month, day)` with its month normalisation and its
    two-digit-year rule, `getDate()` of day 0 of the next month (the length
    of a month) and `getDay()` of the first (its weekday). Dates are
    proleptic Gregorian; months are numbered 0..11 as `getMonth()` does. */
module CivilDate {

  /** A calendar month as `getFullYear()` / `getMonth()` report it. */
  datatype YearMonth = YearMonth(year: int, month: int)

  predicate ValidMonth(ym: YearMonth) { 0 <= ym.month < 12 }

  /** A calendar day, as `toDateString()` identifies it. */
  datatype CivilDay = CivilDay(year: int, month: int, day: int)

  /** Months counted from year 0, so that consecutive months differ by one. */
  function MonthIndex(ym: YearMonth): int { 12 * ym.year + ym.month }

  predicate IsLeap(y: int) {
    y % 4 == 0 && (y % 100 != 0 || y % 400 == 0)
  }

  /** Days in month `m` (0-based) of year `y`. */
  function DaysIn(y: int, m: int): (n: int)
    requires 0 <= m < 12
    ensures 28 <= n <= 31
  {
    if m == 1 then (if IsLeap(y) then 29 else 28)
    else if m == 3 || m == 5 || m == 8 || m == 10 then 30
    else 31
  }

  function YearLength(y: int): int { if IsLeap(y) then 366 else 365 }

  /** Days from 0001-01-01 to the first of January of year `y`. */
  function DaysBeforeYear(y: int): int {
    var p := y - 1;
    365 * p + p / 4 - p / 100 + p / 400
  }

  /** Days from the first of January of `y` to the first of month `m`. */
  function DaysBeforeMonth(y: int, m: int): (n: int)
    requires 0 <= m <= 12
    ensures 0 <= n <= 31 * m
  {
    if m == 0 then 0 else DaysBeforeMonth(y, m - 1) + DaysIn(y, m - 1)
  }

  /** Days from 0001-01-01 (day 0, a Monday) to the given date. */
  function DayNumber(y: int, m: int, d: int): int
    requires 0 <= m < 12
  {
    DaysBeforeYear(y) + DaysBeforeMonth(y, m) + d - 1
  }

  /** `getDay()`: 0 for Sunday up to 6 for Saturday. */
  function WeekDay(y: int, m: int, d: int): (w: int)
    requires 0 <= m < 12
    ensures 0 <= w < 7
  {
    (DayNumber(y, m, d) + 1) % 7
  }

  /** The year the `Date` constructor uses for a year argument: 0..99 mean
      1900..1999. */
  function MakeYear(y: int): int {
    if 0 <= y <= 99 then 1900 + y else y
  }

  /** The month of `new Date(year, month, 1)`, for any integer `month`. */
  function MonthStart(year: int, month: int): (r: YearMonth)
    ensures ValidMonth(r)
    ensures MonthIndex(r) == 12 * MakeYear(year) + month
  {
    YearMonth(MakeYear(year) + month / 12, month % 12)
  }

  /** `new Date(year, month + 1, 0).getDate()`. */
  function DaysInMonth(year: int, month: int): (n: int)
    requires 0 <= month < 12
    ensures 28 <= n <= 31
  {
    DaysIn(MakeYear(year), month)
  }

  /** `new Date(year, month, 1).getDay()`. */
  function FirstDayOfMonth(year: int, month: int): (w: int)
    requires 0 <= month < 12
    ensures 0 <= w < 7
  {
    WeekDay(MakeYear(year), month, 1)
  }

  /** The previous-month button: `new Date(year, month - 1, 1)`. */
  function PrevMonth(ym: YearMonth): (r: YearMonth)
    ensures ValidMonth(r)
  {
    MonthStart(ym.year, ym.month - 1)
  }

  /** The next-month button: `new Date(year, month + 1, 1)`. */
  function NextMonth(ym: YearMonth): (r: YearMonth)
    ensures ValidMonth(r)
  {
    MonthStart(ym.year, ym.month + 1)
  }

  // ---------------------------------------------------------------- lemmas

  /** Away from the two-digit years, the buttons move exactly one month:
      January steps back to December of the previous year and December
      forward to January of the next. */
  lemma MonthSteps(ym: YearMonth)
    requires ValidMonth(ym) && !(0 <= ym.year <= 99)
    ensures MonthIndex(PrevMonth(ym)) == MonthIndex(ym) - 1
    ensures MonthIndex(NextMonth(ym)) == MonthIndex(ym) + 1
    ensures PrevMonth(ym) == (if ym.month == 0 then YearMonth(ym.year - 1, 11)
                              else YearMonth(ym.year, ym.month - 1))
    ensures NextMonth(ym) == (if ym.month == 11 then YearMonth(ym.year + 1, 0)
                              else YearMonth(ym.year, ym.month + 1))
  {
  }

  /** The two buttons undo each other while no two-digit year is involved. */
  lemma PrevNextInverse(ym: YearMonth)
    requires ValidMonth(ym) && !(0 <= ym.year <= 99)
    requires !(0 <= PrevMonth(ym).year <= 99) && !(0 <= NextMonth(ym).year <= 99)
    ensures NextMonth(PrevMonth(ym)) == ym
    ensures PrevMonth(NextMonth(ym)) == ym
  {
    MonthSteps(ym);
    MonthSteps(PrevMonth(ym));
    MonthSteps(NextMonth(ym));
  }

  /** The two-digit-year rule: one step forward from January of year 99
      lands in February 1999. */
  lemma TwoDigitYearJump()
    ensures NextMonth(YearMonth(99, 0)) == YearMonth(1999, 1)
  {
  }

  /** Floor division by a positive constant steps up exactly at multiples. */
  lemma FloorStep4(p: int)
    ensures (p + 1) / 4 - p / 4 == (if (p + 1) % 4 == 0 then 1 else 0)
  {
    var q, r := p / 4, p % 4;
    if r == 3 { assert p + 1 == 4 * (q + 1); } else { assert p + 1 == 4 * q + (r + 1); }
  }

  lemma FloorStep100(p: int)
    ensures (p + 1) / 100 - p / 100 == (if (p + 1) % 100 == 0 then 1 else 0)
  {
    var q, r := p / 100, p % 100;
    if r == 99 { assert p + 1 == 100 * (q + 1); } else { assert p + 1 == 100 * q + (r + 1); }
  }

  lemma FloorStep400(p: int)
    ensures (p + 1) / 400 - p / 400 == (if (p + 1) % 400 == 0 then 1 else 0)
  {
    var q, r := p / 400, p % 400;
    if r == 399 { assert p + 1 == 400 * (q + 1); } else { assert p + 1 == 400 * q + (r + 1); }
  }

  /** Consecutive years differ by the length of the first one. */
  lemma YearStep(y: int)
    ensures DaysBeforeYear(y + 1) == DaysBeforeYear(y) + YearLength(y)
  {
    var a := if y % 4 == 0 then 1 else 0;
    var b := if y % 100 == 0 then 1 else 0;
    var c := if y % 400 == 0 then 1 else 0;
    assert DaysBeforeYear(y + 1) == DaysBeforeYear(y) + 365 + a - b + c by {
      FloorStep4(y - 1);
      FloorStep100(y - 1);
      FloorStep400(y - 1);
    }
    LeapCount(y);
  }

  /** The year length as the three leap-year corrections. */
  lemma LeapCount(y: int)
    ensures YearLength(y) == 365 + (if y % 4 == 0 then 1 else 0) - (if y % 100 == 0 then 1 else 0)
                                  + (if y % 400 == 0 then 1 else 0)
  {
    Div400Div100(y);
    Div100Div4(y);
  }

  lemma Div400Div100(y: int)
    ensures y % 400 == 0 ==> y % 100 == 0
  {
    if y % 400 == 0 {
      var k, q, r := y / 400, y / 100, y % 100;
      assert y == 400 * k && y == 100 * q + r && 0 <= r < 100;
      assert r == 100 * (4 * k - q);
    }
  }

  lemma Div100Div4(y: int)
    ensures y % 100 == 0 ==> y % 4 == 0
  {
    if y % 100 == 0 {
      var k, q, r := y / 100, y / 4, y % 4;
      assert y == 100 * k && y == 4 * q + r && 0 <= r < 4;
      assert r == 4 * (25 * k - q);
    }
  }

  /** The twelve months add up to the year. */
  lemma MonthsFillYear(y: int)
    ensures DaysBeforeMonth(y, 12) == YearLength(y)
  {
    var feb := DaysIn(y, 1);
    assert DaysBeforeMonth(y, 2) == 31 + feb;
    assert DaysBeforeMonth(y, 4) == 31 + feb + 31 + 30;
    assert DaysBeforeMonth(y, 6) == 31 + feb + 31 + 30 + 31 + 30;
    assert DaysBeforeMonth(y, 8) == 31 + feb + 31 + 30 + 31 + 30 + 31 + 31;
    assert DaysBeforeMonth(y, 10) == 31 + feb + 31 + 30 + 31 + 30 + 31 + 31 + 30 + 31;
  }

  /** The first of the next month is the first of this month plus the length
      of this month, so its weekday moves on by that length. */
  lemma {:induction false} NextMonthDayNumber(y: int, m: int)
    requires 0 <= m < 12
    ensures var n := MonthStart(y, m + 1);
            DayNumber(n.year, n.month, 1) == DayNumber(MakeYear(y), m, 1) + DaysIn(MakeYear(y), m)
  {
    var yy := MakeYear(y);
    if m == 11 {
      assert MonthStart(y, m + 1) == YearMonth(yy + 1, 0);
      assert DaysBeforeYear(yy + 1) == DaysBeforeYear(yy) + DaysBeforeMonth(yy, 12) by {
        YearStep(yy);
        MonthsFillYear(yy);
      }
    } else {
      assert MonthStart(y, m + 1) == YearMonth(yy, m + 1);
    }
  }

  /** The weekday of the first of each month is the previous one shifted by
      the month's length, as `new Date` counts it. */
  lemma FirstDayOfNextMonth(ym: YearMonth)
    requires ValidMonth(ym) && !(0 <= ym.year <= 99)
    ensures var n := NextMonth(ym);
            !(0 <= n.year <= 99) ==>
              FirstDayOfMonth(n.year, n.month)
              == (FirstDayOfMonth(ym.year, ym.month) + DaysInMonth(ym.year, ym.month)) % 7
  {
    var y, m := ym.year, ym.month;
    var n := NextMonth(ym);
    if !(0 <= n.year <= 99) {
      assert FirstDayOfMonth(n.year, n.month) == WeekDay(n.year, n.month, 1);
      assert FirstDayOfMonth(y, m) == WeekDay(y, m, 1);
      assert DaysInMonth(y, m) == DaysIn(y, m);
      assert DayNumber(n.year, n.month, 1) == DayNumber(y, m, 1) + DaysIn(y, m) by {
        NextMonthDayNumber(y, m);
      }
      WeekDayShift(y, m, n.year, n.month, DaysIn(y, m));
    }
  }

  /** Weekdays of firsts of months that lie `k` days apart differ by `k` mod 7. */
  lemma WeekDayShift(y1: int, m1: int, y2: int, m2: int, k: int)
    requires 0 <= m1 < 12 && 0 <= m2 < 12
    requires DayNumber(y2, m2, 1) == DayNumber(y1, m1, 1) + k
    ensures WeekDay(y2, m2, 1) == (WeekDay(y1, m1, 1) + k) % 7
  {
    ModAddLemma(DayNumber(y1, m1, 1) + 1, k);
  }

  lemma ModAddLemma(a: int, b: int)
    ensures (a + b) % 7 == (a % 7 + b) % 7
  {
    var q := a / 7;
    assert a == 7 * q + a % 7;
    assert a + b == 7 * q + (a % 7 + b);
  }

  /** Known weekdays: 1970-01-01 was a Thursday, 2024-02-01 a Thursday and
      2026-10-14 a Wednesday. */
  lemma WeekDayExamples()
    ensures WeekDay(1970, 0, 1) == 4
    ensures WeekDay(2024, 1, 1) == 4
    ensures WeekDay(2026, 9, 14) == 3
  {
  }
}
