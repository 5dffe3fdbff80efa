# Month calendar page, modelled in Dafny

The service behind `notion.py` draws a month-view calendar. The route
`/calendar/{year}/{month}` calls `get_calendar`, which does four things:

- it rejects a month outside 1..12 with an HTTP 400 answer;
- it asks `calendar.monthrange` for the weekday of the 1st (Monday = 0 ... Sunday = 6)
  and the number of days in the month;
- it builds the list of cells the template draws. The list starts with
  `first_weekday + 1` empty cells (`None`), then a loop appends the days
  `1..num_days`;
- it names the previous and the next month for the two navigation links. The year
  rolls over at January and at December.

The model has four modules:

- `Wrappers` (`wrappers.dfy`): the `Option` type that stands for a cell, `None` or
  a day number.
- `Arithmetic` (`arithmetic.dfy`): facts about quotient and remainder by a
  positive divisor. The calendar proofs use them.
- `Gregorian` (`gregorian.dfy`): the two facts `calendar.monthrange` returns,
  specified by the proleptic Gregorian calendar for every integer year.
  - `DaysInMonth` uses the leap-year rule: divisible by 4, and not by 100 unless
    also by 400.
  - `Weekday` counts days from 1 January of year 1, which was a Monday.
  - Dafny's `/` and `%` by a positive constant floor their result, as Python's do,
    so the formulas mean the same for years below 1.
- `Notion` (`notion.dfy`): `get_calendar` itself.
  - `GetCalendar` is a method. Like the source, it returns early for an invalid
    month and calls the loop `BuildDays`. `BuildDays` appends one day per
    iteration.
  - Both methods are proved equal to pure specifications:
    - `CalendarOf` for the whole answer;
    - `Grid` for the day list, which is the blank cells followed by the days.
  - The lemmas state what the page looks like: its length, where each day sits,
    which days it shows, how many blanks it opens with, and where its links go.

`notion.py:26` gives `first_weekday + 1` blanks. So January 2024, which starts
on a Monday, opens with one empty cell. A month that starts on a Sunday opens with
seven, a whole blank row. `Notion.Examples` states both cases.

## Model

| member | source | states |
|---|---|---|
| Gregorian.IsLeapYear | notion.py:22 | a year not divisible by 4 is common; one divisible by 4 but not by 100 is a leap year; a century not divisible by 400 is common |
| Gregorian.CenturyLeap | notion.py:22 | a year divisible by 400 is a leap year |
| Gregorian.DaysInMonth | notion.py:22 | the second value of `monthrange` is between 28 and 31 for every year and valid month |
| Gregorian.Weekday | notion.py:21-22 | the weekday of a date is an index in 0..6 |
| Gregorian.MonthRange | notion.py:21-22 | `monthrange(year, month)` is the weekday of the 1st, in 0..6, paired with the month's length, in 28..31 |
| Gregorian.MonthLengths | notion.py:22 | February has 29 days exactly in leap years and 28 otherwise; April, June, September and November have 30; every other month has 31 |
| Gregorian.MonthStep | notion.py:22 | the month offsets within a year start at 0; each month starts where the one before it ends; the offsets end at the length of the year |
| Gregorian.YearStep | notion.py:22 | each year adds its own length (365, or 366 in a leap year) to the day count |
| Gregorian.FirstOfNextMonth | notion.py:22 | the 1st of the following month, including January of the next year, comes right after the last day of the month |
| Gregorian.WeekdayOfNextMonth | notion.py:21-22 | the weekday of the 1st of the following month is this month's first weekday plus its length, modulo 7 |
| Gregorian.NextDay | notion.py:21-22 | consecutive days have consecutive weekdays, modulo 7 |
| Gregorian.Epoch | notion.py:21-22 | day 1 of the count is 1 January of year 1, and it is a Monday (0) |
| Gregorian.LeapCycle | notion.py:22 | a year and the year 400 later are both leap years or both common years |
| Gregorian.FourHundredYearCycle | notion.py:21-22 | 400 years hold 146097 days, so month lengths and weekdays repeat every 400 years |
| Gregorian.Cycles | notion.py:21-22 | moving a year on by any whole number of 400-year periods, forward or back, keeps the month lengths and the weekdays |
| Gregorian.LibraryYearFold | notion.py:21-22 | year `2000 + year % 400`, which the library uses for years outside 1..9999, has the same month lengths and weekdays as `year` |
| Gregorian.Anchors | notion.py:21-22 | 1 January 2024 is a Monday, and 1 June 2024 is a Saturday in a 30-day month; February has 29 days in 2024 and 2000, and 28 days in 2023 and 1900 |
| Notion.PrevMonth | notion.py:32 | the "previous" link: `(year, month - 1)` after January and `(year - 1, 12)` for January; for a valid month it is a valid month whose index is one less (see also `PrevMonthIsPredecessor`) |
| Notion.NextMonth | notion.py:33 | the "next" link: `(year, month + 1)` before December and `(year + 1, 1)` for December; for a valid month it is a valid month whose index is one more (see also `NextMonthIsSuccessor`) |
| Notion.MonthIndexInjective | notion.py:32-33 | two valid months are equal exactly when they have the same month index |
| Notion.PrevMonthIsPredecessor | notion.py:32 | the previous month is valid and its index is one less; it is in the year before when the month is January, and in the same year otherwise |
| Notion.NextMonthIsSuccessor | notion.py:33 | the next month is valid and its index is one more; it is in the year after when the month is December, and in the same year otherwise |
| Notion.PrevOfNext | notion.py:32-33 | the previous month of the next month is the month itself |
| Notion.NextOfPrev | notion.py:32-33 | the next month of the previous month is the month itself |
| Notion.Grid | notion.py:26-29 | the day list: `blanks` empty cells, then the days 1..`count`; it has `blanks + count` cells and day 1 comes right after the blanks (`GridShape` and `GridShowsOneTo` give every cell) |
| Notion.GridGrows | notion.py:28-29 | appending day `count + 1` to the list of `count` days gives the list of `count + 1` days |
| Notion.GridShape | notion.py:26-29 | the list has `blanks + count` cells; the first `blanks` are empty; cell `i` after them holds day `i - blanks + 1` |
| Notion.NoDaysInBlanks | notion.py:26 | a list of empty cells shows no day |
| Notion.GridShowsOneTo | notion.py:26-29 | the days shown by the list are exactly 1..`count`, ascending |
| Notion.LeadingBlanksExact | notion.py:26 | a list whose first `b` cells are empty and whose cell `b` holds a day opens with exactly `b` blanks |
| Notion.BuildDays | notion.py:26-29 | the filler list, extended by the append loop, is `first_weekday + 1` empty cells followed by the days 1..`num_days` |
| Notion.GetCalendar | notion.py:17-33 | the answer is the error exactly when the month is outside 1..12; otherwise it is the page for that year and month, with the day list and both links |
| Notion.CalendarOf | notion.py:17-33 | the answer of `get_calendar`: the error exactly when the month is outside 1..12; otherwise a page for that year and month with between 29 and 38 cells, the day list and both links (the `Page` lemmas give its contents) |
| Notion.PageDays | notion.py:21-29 | for a valid month, the page's day list has the month's first weekday plus one blanks, then the month's days |
| Notion.PageLayout | notion.py:21-29 | for a valid month, the day list has `w + 1 + n` cells, where `w` is the first weekday and `n` the month's length; cells `0..w` are empty, and cell `i` after them holds day `i - w` |
| Notion.PageShowsEveryDay | notion.py:26-29 | the page shows every day of the month, 1..`num_days`, once each and in ascending order |
| Notion.PageLeadingBlanks | notion.py:21-26 | the page opens with the first weekday plus one blank cells, which is between 1 and 7 |
| Notion.PageLinks | notion.py:32-33 | the page's two links point at valid months, one before and one after this month |
| Notion.NextPageContinuesWeek | notion.py:21-33 | the page behind the "next" link opens where this page's week stops: its blank count is this page's cell count minus one, taken modulo 7, plus one |
| Notion.Examples | notion.py:17-33 | month 0 and month 13 give the error; January 2024 opens with one blank, then day 1, and links back to December 2023; December 2024 links on to January 2025; September 2024 opens with seven blanks |

## Left out

- The web layer is not modelled: the FastAPI application, the route decorators, the
  `Request` object and the parsing of the path into integers (notion.py:1-15).
- Rendering is not modelled: the Jinja2 template, the `context` dictionary and its
  `request` entry (notion.py:11, 36-48). `Calendar` holds the values the context
  carries.
- The HTML text of the error page (notion.py:19) is not modelled. The error is the
  `InvalidMonth` variant.
- `get_current_calendar` (notion.py:51-58) is not modelled. It reads the host clock
  and returns a redirect script, and has no logic beyond echoing the year and month.
- The internals of Python's `calendar` module are not part of this model. The
  proleptic Gregorian functions in `Gregorian` stand for what `monthrange` returns.
- Gregorian.MonthRange: gives an answer for every integer year. For a year outside
  1..9999, current versions of Python's `calendar.weekday` use year
  `2000 + year % 400`, and `Gregorian.LibraryYearFold` shows that this gives the
  same answer. Older versions raise `ValueError` for such a year instead, and
  that error is not modelled.
