/**
 The month page of the calendar service: `get_calendar(year, month)` checks the
 month, takes the first weekday and the day count from `calendar.monthrange`,
 lays the month out as a list of blank cells followed by the day numbers, and
 names the neighbouring months that the page links to.
 */
module Notion {
  import opened Wrappers
  import Gregorian

  /** A month of a year, as the navigation links carry it. */
  datatype YearMonth = YearMonth(year: int, month: int)

  /** The data handed to the page template. */
  datatype Calendar = Calendar(
    year: int,
    month: int,
    days: seq<Option<int>>,
    prev: YearMonth,
    next: YearMonth)

  /** Either the page, or the HTTP 400 answer for a month outside 1..12. */
  datatype Response = Page(calendar: Calendar) | InvalidMonth

  predicate ValidMonth(month: int) {
    1 <= month <= 12
  }

  // ---------------------------------------------------------------------------
  // Navigation
  // ---------------------------------------------------------------------------

  /** The month the "previous" link points at. */
  function PrevMonth(year: int, month: int): (p: YearMonth)
    ensures ValidMonth(month) ==> ValidMonth(p.month) && MonthIndex(p) == MonthIndex(YearMonth(year, month)) - 1
  {
    if month > 1 then YearMonth(year, month - 1) else YearMonth(year - 1, 12)
  }

  /** The month the "next" link points at. */
  function NextMonth(year: int, month: int): (n: YearMonth)
    ensures ValidMonth(month) ==> ValidMonth(n.month) && MonthIndex(n) == MonthIndex(YearMonth(year, month)) + 1
  {
    if month < 12 then YearMonth(year, month + 1) else YearMonth(year + 1, 1)
  }

  /** Months elapsed since January of year 0: consecutive months have consecutive indices. */
  function MonthIndex(ym: YearMonth): int {
    12 * ym.year + ym.month - 1
  }

  /** A valid month is determined by its index. */
  lemma MonthIndexInjective(a: YearMonth, b: YearMonth)
    requires ValidMonth(a.month) && ValidMonth(b.month)
    ensures MonthIndex(a) == MonthIndex(b) <==> a == b
  {
  }

  /** The previous month is a valid month, the one whose index is one less. */
  lemma PrevMonthIsPredecessor(year: int, month: int)
    requires ValidMonth(month)
    ensures ValidMonth(PrevMonth(year, month).month)
    ensures MonthIndex(PrevMonth(year, month)) == MonthIndex(YearMonth(year, month)) - 1
    ensures month == 1 ==> PrevMonth(year, month).year == year - 1
    ensures month > 1 ==> PrevMonth(year, month).year == year
  {
  }

  /** The next month is a valid month, the one whose index is one more. */
  lemma NextMonthIsSuccessor(year: int, month: int)
    requires ValidMonth(month)
    ensures ValidMonth(NextMonth(year, month).month)
    ensures MonthIndex(NextMonth(year, month)) == MonthIndex(YearMonth(year, month)) + 1
    ensures month == 12 ==> NextMonth(year, month).year == year + 1
    ensures month < 12 ==> NextMonth(year, month).year == year
  {
  }

  /** Following the "next" link and then the "previous" link returns to the same month. */
  lemma PrevOfNext(year: int, month: int)
    requires ValidMonth(month)
    ensures var n := NextMonth(year, month); PrevMonth(n.year, n.month) == YearMonth(year, month)
  {
  }

  /** Following the "previous" link and then the "next" link returns to the same month. */
  lemma NextOfPrev(year: int, month: int)
    requires ValidMonth(month)
    ensures var p := PrevMonth(year, month); NextMonth(p.year, p.month) == YearMonth(year, month)
  {
  }

  // ---------------------------------------------------------------------------
  // The day list
  // ---------------------------------------------------------------------------

  /** `blanks` empty cells followed by the days 1..`count`, in order. */
  function Grid(blanks: nat, count: nat): (cells: seq<Option<int>>)
    ensures |cells| == blanks + count
    ensures blanks < |cells| ==> cells[blanks] == Some(1)
  {
    seq(blanks, _ => None) + seq(count, k => Some(k + 1))
  }

  /** Appending day `count + 1` to the grid of `count` days gives the grid of `count + 1` days. */
  lemma GridGrows(blanks: nat, count: nat)
    ensures Grid(blanks, count + 1) == Grid(blanks, count) + [Some(count + 1)]
  {
    assert seq(count + 1, k => Some(k + 1)) == seq(count, k => Some(k + 1)) + [Some(count + 1)];
  }

  /** The day numbers that appear in a list of cells, in order. */
  function ShownDays(cells: seq<Option<int>>): seq<int>
    decreases |cells|
  {
    if cells == [] then []
    else
      var last := cells[|cells| - 1];
      ShownDays(cells[..|cells| - 1]) + (if last.Some? then [last.value] else [])
  }

  /** The number of empty cells before the first day. */
  function LeadingBlanks(cells: seq<Option<int>>): nat
    decreases |cells|
  {
    if cells == [] || cells[0].Some? then 0 else 1 + LeadingBlanks(cells[1..])
  }

  /** The days 1..`count` in ascending order. */
  function OneTo(count: nat): seq<int> {
    seq(count, k => k + 1)
  }

  /** The grid holds `blanks` empty cells, then day `d` at position `blanks + d - 1`. */
  lemma GridShape(blanks: nat, count: nat)
    ensures |Grid(blanks, count)| == blanks + count
    ensures forall i :: 0 <= i < blanks ==> Grid(blanks, count)[i] == None
    ensures forall i :: blanks <= i < blanks + count ==> Grid(blanks, count)[i] == Some(i - blanks + 1)
  {
  }

  lemma {:induction false} NoDaysInBlanks(blanks: nat)
    ensures ShownDays(seq(blanks, _ => None)) == []
    decreases blanks
  {
    if blanks > 0 {
      var cells: seq<Option<int>> := seq(blanks, _ => None);
      assert cells[..blanks - 1] == seq(blanks - 1, _ => None);
      NoDaysInBlanks(blanks - 1);
    }
  }

  /** The days shown by the grid are exactly 1..`count`, ascending. */
  lemma {:induction false} GridShowsOneTo(blanks: nat, count: nat)
    ensures ShownDays(Grid(blanks, count)) == OneTo(count)
    decreases count
  {
    if count == 0 {
      assert Grid(blanks, 0) == seq(blanks, _ => None);
      NoDaysInBlanks(blanks);
    } else {
      GridGrows(blanks, count - 1);
      var g := Grid(blanks, count);
      assert g[..|g| - 1] == Grid(blanks, count - 1);
      GridShowsOneTo(blanks, count - 1);
      assert OneTo(count) == OneTo(count - 1) + [count];
    }
  }

  /** A list whose first `b` cells are empty and whose cell `b` holds a day has `b` leading blanks. */
  lemma {:induction false} LeadingBlanksExact(cells: seq<Option<int>>, b: nat)
    requires b < |cells|
    requires forall i :: 0 <= i < b ==> cells[i] == None
    requires cells[b].Some?
    ensures LeadingBlanks(cells) == b
    decreases b
  {
    if b > 0 {
      LeadingBlanksExact(cells[1..], b - 1);
    }
  }

  /**
   The loop of `get_calendar`: `first_weekday + 1` empty cells, then each day of
   the month appended in turn.
   */
  method BuildDays(firstWeekday: nat, numDays: nat) returns (days: seq<Option<int>>)
    ensures days == Grid(firstWeekday + 1, numDays)
  {
    days := seq(firstWeekday + 1, _ => None);
    assert days == Grid(firstWeekday + 1, 0);
    for day := 1 to numDays + 1
      invariant days == Grid(firstWeekday + 1, day - 1)
    {
      GridGrows(firstWeekday + 1, day - 1);
      days := days + [Some(day)];
    }
  }

  // ---------------------------------------------------------------------------
  // The page
  // ---------------------------------------------------------------------------

  /** What `get_calendar` answers for `year` and `month`. */
  function CalendarOf(year: int, month: int): (r: Response)
    ensures r.InvalidMonth? <==> !ValidMonth(month)
    ensures r.Page? ==> r.calendar.year == year && r.calendar.month == month
    ensures r.Page? ==> 29 <= |r.calendar.days| <= 38
  {
    if !ValidMonth(month) then InvalidMonth
    else
      var (firstWeekday, numDays) := Gregorian.MonthRange(year, month);
      Page(Calendar(year, month, Grid(firstWeekday + 1, numDays),
                    PrevMonth(year, month), NextMonth(year, month)))
  }

  method GetCalendar(year: int, month: int) returns (r: Response)
    ensures r == CalendarOf(year, month)
    ensures r.InvalidMonth? <==> !ValidMonth(month)
    ensures r.Page? ==> r.calendar.year == year && r.calendar.month == month
  {
    if !(1 <= month <= 12) {
      return InvalidMonth;
    }
    var (firstWeekday, numDays) := Gregorian.MonthRange(year, month);
    var days := BuildDays(firstWeekday, numDays);
    var prev := PrevMonth(year, month);
    var next := NextMonth(year, month);
    r := Page(Calendar(year, month, days, prev, next));
  }

  /** For a valid month the page is the grid of the month's first weekday and length. */
  lemma PageDays(year: int, month: int)
    requires ValidMonth(month)
    ensures CalendarOf(year, month).Page?
    ensures CalendarOf(year, month).calendar.days
            == Grid(Gregorian.Weekday(year, month, 1) + 1, Gregorian.DaysInMonth(year, month))
  {
  }

  /**
   For a valid month the day list is the weekday of the 1st plus one empty
   cells, then the days of the month, day `d` at position `weekday + d`.
   */
  lemma PageLayout(year: int, month: int)
    requires ValidMonth(month)
    ensures CalendarOf(year, month).Page?
    ensures var days := CalendarOf(year, month).calendar.days;
            var w := Gregorian.Weekday(year, month, 1);
            var n := Gregorian.DaysInMonth(year, month);
            && |days| == w + 1 + n
            && (forall i :: 0 <= i <= w ==> days[i] == None)
            && (forall i :: w + 1 <= i < |days| ==> days[i] == Some(i - w))
  {
    PageDays(year, month);
    GridShape(Gregorian.Weekday(year, month, 1) + 1, Gregorian.DaysInMonth(year, month));
  }

  /** The days on the page are exactly 1..days-in-month, in ascending order. */
  lemma PageShowsEveryDay(year: int, month: int)
    requires ValidMonth(month)
    ensures CalendarOf(year, month).Page?
    ensures ShownDays(CalendarOf(year, month).calendar.days) == OneTo(Gregorian.DaysInMonth(year, month))
  {
    GridShowsOneTo(Gregorian.Weekday(year, month, 1) + 1, Gregorian.DaysInMonth(year, month));
  }

  /** The page opens with between 1 and 7 empty cells: the weekday of the 1st plus one. */
  lemma PageLeadingBlanks(year: int, month: int)
    requires ValidMonth(month)
    ensures CalendarOf(year, month).Page?
    ensures var days := CalendarOf(year, month).calendar.days;
            && LeadingBlanks(days) == Gregorian.Weekday(year, month, 1) + 1
            && 1 <= LeadingBlanks(days) <= 7
  {
    var w := Gregorian.Weekday(year, month, 1);
    var days := Grid(w + 1, Gregorian.DaysInMonth(year, month));
    PageDays(year, month);
    GridShape(w + 1, Gregorian.DaysInMonth(year, month));
    assert days[w + 1] == Some(1);
    LeadingBlanksExact(days, w + 1);
  }

  /** The page links to the month before and the month after, both valid months. */
  lemma PageLinks(year: int, month: int)
    requires ValidMonth(month)
    ensures CalendarOf(year, month).Page?
    ensures var c := CalendarOf(year, month).calendar;
            && ValidMonth(c.prev.month) && ValidMonth(c.next.month)
            && MonthIndex(c.prev) == MonthIndex(YearMonth(year, month)) - 1
            && MonthIndex(c.next) == MonthIndex(YearMonth(year, month)) + 1
  {
    PrevMonthIsPredecessor(year, month);
    NextMonthIsSuccessor(year, month);
  }

  /**
   The page behind the "next" link continues the week where this page stops:
   its blank cells, less the one extra, are this page's cells, less that same
   extra one, taken modulo 7.
   */
  lemma NextPageContinuesWeek(year: int, month: int)
    requires ValidMonth(month)
    ensures CalendarOf(year, month).Page?
    ensures var next := NextMonth(year, month);
            var there := CalendarOf(next.year, next.month);
            && there.Page?
            && LeadingBlanks(there.calendar.days) == (|CalendarOf(year, month).calendar.days| - 1) % 7 + 1
  {
    PageLayout(year, month);
    var next := NextMonth(year, month);
    Gregorian.WeekdayOfNextMonth(year, month, next.year, next.month);
    PageLeadingBlanks(next.year, next.month);
  }

  /**
   Concrete pages: January 2024 starts on a Monday and opens with one
   empty cell; September 2024 starts on a Sunday and opens with seven; the
   month links wrap the year at both ends.
   */
  lemma Examples()
    ensures CalendarOf(2024, 0) == InvalidMonth && CalendarOf(2024, 13) == InvalidMonth
    ensures CalendarOf(2024, 1).Page?
    ensures var c := CalendarOf(2024, 1).calendar;
            c.days[0] == None && c.days[1] == Some(1) && c.prev == YearMonth(2023, 12)
    ensures CalendarOf(2024, 12).Page? && CalendarOf(2024, 12).calendar.next == YearMonth(2025, 1)
    ensures CalendarOf(2024, 9).Page? && LeadingBlanks(CalendarOf(2024, 9).calendar.days) == 7
  {
    Gregorian.Anchors();
    PageLayout(2024, 1);
    assert Gregorian.Weekday(2024, 9, 1) == 6 by {
      assert Gregorian.DaysBeforeYear(2024) == 738885;
      assert Gregorian.DaysBeforeMonth(2024, 9) == 244;
    }
    PageLeadingBlanks(2024, 9);
  }
}
