/**
 The two facts the calendar page takes from `calendar.monthrange`: the weekday
 of the first day of a month (Monday = 0 ... Sunday = 6) and the number of days
 in the month. Both are specified here by the proleptic Gregorian calendar,
 extended to every integer year; day number 1 is 1 January of year 1, a Monday.

 Python's `//` and `%` floor their result, and Dafny's `/` and `%` by a positive
 constant agree with them, so the formulas below mean the same for negative
 years as their Python counterparts. For a year outside 1..9999, current
 versions of Python's `calendar.weekday` take the weekday of year
 `2000 + year % 400` instead; `LibraryYearFold` shows that this gives the same
 weekday as the formulas here.
 */
module Gregorian {
  import opened Arithmetic

  /** A year is a leap year when divisible by 4, except centuries not divisible by 400. */
  predicate IsLeapYear(year: int): (leap: bool)
    ensures year % 4 != 0 ==> !leap
    ensures year % 4 == 0 && year % 100 != 0 ==> leap
    ensures year % 100 == 0 && year % 400 != 0 ==> !leap
  {
    year % 4 == 0 && (year % 100 != 0 || year % 400 == 0)
  }

  /** Every fourth century year is a leap year. */
  lemma CenturyLeap(year: int)
    ensures year % 400 == 0 ==> IsLeapYear(year)
  {
    if year % 400 == 0 {
      MultipleOfFactor(year, 100, 4);
    }
  }

  /** Length of `month` in a common year. */
  function CommonMonthLength(month: int): int {
    match month
    case 2 => 28
    case 4 | 6 | 9 | 11 => 30
    case _ => 31
  }

  function DaysInMonth(year: int, month: int): (n: int)
    requires 1 <= month <= 12
    ensures 28 <= n <= 31
  {
    CommonMonthLength(month) + (if month == 2 && IsLeapYear(year) then 1 else 0)
  }

  function DaysInYear(year: int): int {
    if IsLeapYear(year) then 366 else 365
  }

  /** Days of a common year that precede the first of `month`; month 13 gives the whole year. */
  function CommonDaysBeforeMonth(month: int): int {
    match month
    case 1 => 0
    case 2 => 31
    case 3 => 59
    case 4 => 90
    case 5 => 120
    case 6 => 151
    case 7 => 181
    case 8 => 212
    case 9 => 243
    case 10 => 273
    case 11 => 304
    case 12 => 334
    case _ => 365
  }

  /** Days of `year` that precede the first of `month` (month 13 stands for the year's end). */
  function DaysBeforeMonth(year: int, month: int): int
    requires 1 <= month <= 13
  {
    CommonDaysBeforeMonth(month) + (if month > 2 && IsLeapYear(year) then 1 else 0)
  }

  /** Days from 1 January of year 1 up to, not including, 1 January of `year`
      (negative before year 1): 365 a year plus one per leap year. */
  function DaysBeforeYear(year: int): int {
    var y := year - 1;
    365 * y + y / 4 - y / 100 + y / 400
  }

  /** The ordinal of a date: 1 January of year 1 is day 1. */
  function DayNumber(year: int, month: int, day: int): int
    requires 1 <= month <= 12
  {
    DaysBeforeYear(year) + DaysBeforeMonth(year, month) + day
  }

  /** Day of the week of a day number, Monday = 0 ... Sunday = 6. */
  function WeekdayOf(dayNumber: int): int {
    (dayNumber + 6) % 7
  }

  /** Day of the week, Monday = 0 ... Sunday = 6. */
  function Weekday(year: int, month: int, day: int): (w: int)
    requires 1 <= month <= 12
    ensures 0 <= w <= 6
  {
    WeekdayOf(DayNumber(year, month, day))
  }

  /** The pair `calendar.monthrange(year, month)` returns: first weekday and day count. */
  function MonthRange(year: int, month: int): (r: (int, int))
    requires 1 <= month <= 12
    ensures 0 <= r.0 <= 6
    ensures 28 <= r.1 <= 31
    ensures r.0 == Weekday(year, month, 1) && r.1 == DaysInMonth(year, month)
  {
    (Weekday(year, month, 1), DaysInMonth(year, month))
  }

  /** February has 29 days exactly in leap years; April, June, September and
      November have 30; every other month has 31. */
  lemma MonthLengths(year: int, month: int)
    requires 1 <= month <= 12
    ensures month == 2 ==> (DaysInMonth(year, month) == 29 <==> IsLeapYear(year))
    ensures month == 2 ==> (DaysInMonth(year, month) == 28 <==> !IsLeapYear(year))
    ensures month in {4, 6, 9, 11} ==> DaysInMonth(year, month) == 30
    ensures month !in {2, 4, 6, 9, 11} ==> DaysInMonth(year, month) == 31
  {
  }

  /** The table of month offsets agrees with the month lengths: the year starts at
      offset 0, each month starts where the one before it ends, and the offsets end
      at the length of the year. */
  lemma MonthStep(year: int, month: int)
    requires 1 <= month <= 12
    ensures DaysBeforeMonth(year, 1) == 0
    ensures DaysBeforeMonth(year, month + 1) == DaysBeforeMonth(year, month) + DaysInMonth(year, month)
    ensures DaysBeforeMonth(year, 13) == DaysInYear(year)
  {
  }

  /** Each year adds its own length to the count. */
  lemma YearStep(year: int)
    ensures DaysBeforeYear(year + 1) == DaysBeforeYear(year) + DaysInYear(year)
  {
    DivStep(year, 4);
    DivStep(year, 100);
    DivStep(year, 400);
    if year % 400 == 0 {
      MultipleOfFactor(year, 4, 100);
    }
    if year % 100 == 0 {
      MultipleOfFactor(year, 25, 4);
    }
  }

  /** The first of the following month comes right after the last day of this one. */
  lemma FirstOfNextMonth(year: int, month: int)
    requires 1 <= month <= 12
    ensures month < 12 ==> DayNumber(year, month + 1, 1) == DayNumber(year, month, 1) + DaysInMonth(year, month)
    ensures month == 12 ==> DayNumber(year + 1, 1, 1) == DayNumber(year, 12, 1) + DaysInMonth(year, 12)
  {
    MonthStep(year, month);
    if month == 12 {
      YearStep(year);
    }
  }

  /** The weekday of the first of the following month (`nextYear`, `nextMonth`) is
      this month's first weekday moved on by the length of this month. */
  lemma WeekdayOfNextMonth(year: int, month: int, nextYear: int, nextMonth: int)
    requires 1 <= month <= 12
    requires (nextYear, nextMonth) == if month < 12 then (year, month + 1) else (year + 1, 1)
    ensures 1 <= nextMonth <= 12
    ensures Weekday(nextYear, nextMonth, 1) == (Weekday(year, month, 1) + DaysInMonth(year, month)) % 7
  {
    FirstOfNextMonth(year, month);
    var d := DayNumber(year, month, 1);
    var n := DaysInMonth(year, month);
    assert DayNumber(nextYear, nextMonth, 1) == d + n;
    AddMod(d + 6, n, 7);
  }

  /** Consecutive days of a month are consecutive weekdays. */
  lemma NextDay(year: int, month: int, day: int)
    requires 1 <= month <= 12
    ensures Weekday(year, month, day + 1) == (Weekday(year, month, day) + 1) % 7
  {
    AddMod(DayNumber(year, month, day) + 6, 1, 7);
  }

  /** Day 1 of the ordinal count, 1 January of year 1, is a Monday. */
  lemma Epoch()
    ensures Weekday(1, 1, 1) == 0
    ensures DayNumber(1, 1, 1) == 1
  {
    assert DaysBeforeYear(1) == 0;
  }

  /** The Gregorian calendar repeats every 400 years, weekdays included. */
  lemma FourHundredYearCycle(year: int, month: int, day: int)
    requires 1 <= month <= 12
    ensures DaysBeforeYear(year + 400) == DaysBeforeYear(year) + 146097
    ensures DaysInMonth(year + 400, month) == DaysInMonth(year, month)
    ensures Weekday(year + 400, month, day) == Weekday(year, month, day)
  {
    LeapCycle(year);
    AddMultiple(year - 1, 4, 100);
    AddMultiple(year - 1, 100, 4);
    AddMultiple(year - 1, 400, 1);
    var d := DayNumber(year, month, day);
    assert DayNumber(year + 400, month, day) == d + 7 * 20871;
    AddMultiple(d + 6, 7, 20871);
  }

  lemma LeapCycle(year: int)
    ensures IsLeapYear(year + 400) == IsLeapYear(year)
  {
    AddMultiple(year, 4, 100);
    AddMultiple(year, 100, 4);
    AddMultiple(year, 400, 1);
  }

  /** Moving on by `cycles` periods of 400 years leaves the leap rule, the month
      lengths and the weekdays unchanged. */
  lemma Cycles(year: int, cycles: int, month: int, day: int)
    requires 1 <= month <= 12
    ensures DaysInMonth(year + 400 * cycles, month) == DaysInMonth(year, month)
    ensures Weekday(year + 400 * cycles, month, day) == Weekday(year, month, day)
  {
    AddMultiple(year, 4, 100 * cycles);
    AddMultiple(year, 100, 4 * cycles);
    AddMultiple(year, 400, cycles);
    assert IsLeapYear(year + 400 * cycles) == IsLeapYear(year);
    AddMultiple(year - 1, 4, 100 * cycles);
    AddMultiple(year - 1, 100, 4 * cycles);
    AddMultiple(year - 1, 400, cycles);
    var d := DayNumber(year, month, day);
    assert DayNumber(year + 400 * cycles, month, day) == d + 7 * (20871 * cycles);
    AddMultiple(d + 6, 7, 20871 * cycles);
  }

  /** Replacing a year by `2000 + year % 400`, as the library does outside
      1..9999, changes neither the month lengths nor the weekdays. */
  lemma LibraryYearFold(year: int, month: int, day: int)
    requires 1 <= month <= 12
    ensures DaysInMonth(2000 + year % 400, month) == DaysInMonth(year, month)
    ensures Weekday(2000 + year % 400, month, day) == Weekday(year, month, day)
  {
    var cycles := 5 - year / 400;
    assert 2000 + year % 400 == year + 400 * cycles;
    Cycles(year, cycles, month, day);
  }

  /** Known dates: 1 January 2024 is a Monday, 1 June 2024 a Saturday, and the
      leap-year rule's century cases. */
  lemma Anchors()
    ensures Weekday(2024, 1, 1) == 0
    ensures Weekday(2024, 6, 1) == 5 && DaysInMonth(2024, 6) == 30
    ensures DaysInMonth(2024, 2) == 29 && DaysInMonth(2023, 2) == 28
    ensures DaysInMonth(1900, 2) == 28 && DaysInMonth(2000, 2) == 29
  {
    assert DaysBeforeYear(2024) == 738885;
    assert DaysBeforeMonth(2024, 6) == 152;
  }
}
