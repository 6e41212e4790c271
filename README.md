# Brazilian calendar utilities (`date_holidays.py`) in Dafny

`date_holidays.py` is a small stateless library of calendar facts for Brazil:
the last day and the last business day (Monday to Friday) of a month, the
national holidays of a year, the holiday day numbers of a month, the Portuguese
weekday label of a date ("Seg" … "Dom"), and whether a date is a holiday. Each
operation first checks its arguments (a day must be in 1..31, checked before
the month, and a month in 1..12). It then computes with `datetime`,
`dateutil.relativedelta` and `calendar`, or slices the rule table of the
`holidays` package, and re-raises any failure wrapped in an operation-specific
message.

The model has four modules:

- `Calendar` (calendar.dfy): the proleptic Gregorian calendar as `datetime`
  computes it. It has the month-length table and leap-year rule, and day
  ordinals with 0001-01-01 as ordinal 1. Weekdays are `(ordinal - 1) % 7`, with
  Monday = 0. The ordinal is proved strictly monotone in calendar order,
  hence one-to-one. The calendar repeats every 400 years.
- `PyCalendar` (py_calendar.dfy): `calendar.weekday`, which maps a year
  outside 1..9999 to `2000 + year % 400`, plus `calendar.monthrange` and
  `calendar.monthcalendar` (the month cut into Monday-first weeks padded with
  0), and the builtin `max`.
- `HolidayTable` (holiday_table.dfy): the rule table of `holidays.Brazil()` as
  an abstract, possibly infinite set of dates, `iset<Date>`. Also the slice
  `table[start:stop]`, both as the inclusive range the library's caller means
  (`Slice`) and as the `holidays` package computes it, which leaves out the
  stop date (`HalfOpenSlice`, see Findings).
- `DateHolidays` (date_holidays.dfy): the six operations. Failures are an
  `Error` datatype. `OutOfRange(Month | Day)` is the source's range check.
  `BadDate(date)` is a date that `datetime` refuses. `Wrapped(op, cause)` is
  a failure caught and re-raised by operation `op`. The sentinel `0` of
  `get_dias_feriado_mes` is `DayList.NoHolidays`. The list-building loops of
  `get_feriados_brasil` and `get_dias_feriado_mes`, and the `resultado` flag of
  `data_is_feriado`, are methods. The three single-expression operations are
  functions.

Python names and model names:
`get_ultimo_dia_do_mes` = `LastDayOfMonth`,
`get_ultimo_dia_util_do_mes` = `LastBusinessDayOfMonth`,
`get_feriados_brasil` = `HolidaysInYear`,
`get_dias_feriado_mes` = `HolidayDaysInMonth`,
`get_nome_dia_semana` = `WeekdayName`,
`data_is_feriado` = `IsHoliday`.

The holiday table is a parameter (`hol`) of the three holiday operations. The
model makes no assumption about its contents.

`data_is_feriado` never builds `datetime(ano, mes, dia)` (date_holidays.py:207-220).
So April 31 passes the range checks and answers `False`. `IsHoliday` does the
same.

The model follows the code in every branch but one. The slices
`feriados[start:stop]` follow the inclusive range the caller means, not the
`holidays` package's own slice, which leaves out its stop date (see Findings).

## Model

| member | source | states |
|---|---|---|
| `Calendar.DaysInMonth` | date_holidays.py:33 | Month length is in 28..31: 31 for months 1,3,5,7,8,10,12; 30 for 4,6,9,11; February has 29 days in a Gregorian leap year and 28 otherwise |
| `Calendar.IsLeapYear` | date_holidays.py:33 | `calendar.isleap`: divisible by 4 and not by 100, or divisible by 400; `DaysInYear` and `DaysInMonth` add the leap day by it |
| `Calendar.DaysInYear` | date_holidays.py:169-173 | `datetime`'s `_days_in_year`: 365 or 366, and 366 exactly in a leap year |
| `Calendar.ValidDate` | date_holidays.py:33 | A real Gregorian date in any year: month in 1..12 and day from 1 to the month's length; `IsDatetime` adds the year range 1..9999 |
| `Calendar.IsDatetime` | date_holidays.py:33 | What `datetime(year, month, day)` accepts: a year in 1..9999 and a real day of a real month; `LastDayOfMonth` and `WeekdayName` fail exactly when it is false |
| `Calendar.DaysBeforeYear` | date_holidays.py:169-173 | `datetime`'s closed form for the days before a year; `YearStep` proves it grows by the length of each year |
| `Calendar.DaysBeforeMonth` | date_holidays.py:169-173 | `datetime`'s `_days_before_month`: the days of the year before month `m`, in 0..335; `MonthsFillYear` proves each month starts where the previous one ends |
| `Calendar.Ordinal` | date_holidays.py:169-173 | The day ordinal of a valid date lies inside its year's block of 365 or 366 ordinals |
| `Calendar.Weekday` | date_holidays.py:169-173 | `datetime.weekday()`: always in 0..6 |
| `Calendar.NextDate` | date_holidays.py:93 | The day after a valid date is valid and has the next ordinal |
| `Calendar.OrdinalOrder` | date_holidays.py:93 | Ordinals compare exactly as (year, month, day) compare, so equal ordinals mean equal dates |
| `Calendar.YearsOrdered` | date_holidays.py:93 | Every day of a year has a smaller ordinal than every day of any later year |
| `Calendar.YearStep` | date_holidays.py:93 | Consecutive years are 365 or 366 days apart, by the leap-year rule |
| `Calendar.MonthTurn` | date_holidays.py:93 | The 1st of a month has the ordinal after the last day of the previous month |
| `Calendar.YearTurn` | date_holidays.py:93 | January 1 has the ordinal after December 31 of the year before |
| `Calendar.YearSpan` | date_holidays.py:93 | A valid date lies between January 1 and December 31 of `y` iff its year is `y` |
| `Calendar.MonthSpan` | date_holidays.py:128 | A valid date lies between the 1st and the last day of month `m` of `y` iff it is in that month |
| `Calendar.EpochIsMonday` | date_holidays.py:173 | 0001-01-01 is ordinal 1 and a Monday (weekday 0) |
| `Calendar.WeekdayNext` | date_holidays.py:173 | The weekday of the next day is the weekday after, Sunday wrapping to Monday |
| `Calendar.WeekdayInMonth` | date_holidays.py:64 | Day `d` of a month falls `d - 1` weekdays after the 1st, modulo 7 |
| `Calendar.ShiftCycles` | date_holidays.py:64 | Moving a year by `k` 400-year cycles moves its start by `146097 * k` days and keeps its leap status |
| `Calendar.WeekdayPeriodic` | date_holidays.py:64 | A date and the same date `k` 400-year cycles away are both valid or both invalid, and share a weekday |
| `PyCalendar.CalendarWeekday` | date_holidays.py:64 | `calendar.weekday` moves a year outside 1..9999 to `2000 + year % 400`, and the weekday it gives equals the proleptic one |
| `PyCalendar.MonthRange` | date_holidays.py:64 | `calendar.monthrange` gives the weekday of the 1st and the month length (valid last day, invalid day after it) |
| `PyCalendar.MonthDays` | date_holidays.py:64 | `itermonthdays` of the month as a list; `MonthDaysLayout` gives its contents position by position |
| `PyCalendar.PaddedDays` | date_holidays.py:64 | The days 1..n padded with zeros to whole weeks: its length is a multiple of seven and at least n; `PaddedLayout` gives every entry |
| `PyCalendar.Weeks` | date_holidays.py:64 | The list cut into pieces of seven; `WeeksIndex` proves rows of seven with row `i` holding positions `7i`..`7i+6` |
| `PyCalendar.MonthCalendar` | date_holidays.py:64 | `calendar.monthcalendar(y, m)`; its shape and every cell are given by `CalendarCell` and `MonthCalendarLayout` |
| `PyCalendar.LastWeekOf` | date_holidays.py:64 | `weeks[-1:][0]`, the last week; `PaddedLastRow` and `LastWeek` give its contents and its Monday-to-Friday maximum |
| `PyCalendar.MaxOf` | date_holidays.py:64 | The builtin `max` returns an element of the list that no element exceeds |
| `PyCalendar.PaddedLayout` | date_holidays.py:64 | The days 1..n padded to whole weeks for a 1st on weekday `w`: whole weeks long, day `d` at position `w + d - 1`, 0 everywhere else |
| `PyCalendar.MonthDaysLayout` | date_holidays.py:64 | The flat day list of the month is whole weeks long; it holds day `d` at position `weekday(1st) + d - 1` and 0 everywhere else |
| `PyCalendar.WeeksIndex` | date_holidays.py:64 | Cutting a list of length `7k` gives `k` rows of seven, and row `i` holds positions `7i`..`7i+6` |
| `PyCalendar.PaddedCell` | date_holidays.py:64 | Entry `j` of week `i` of the padded weeks is day `7i + j - w + 1`, or 0 outside the month |
| `PyCalendar.PaddedCellDay` | date_holidays.py:64 | A non-zero entry of the padded weeks is a day of the month lying `j` weekdays after Monday |
| `PyCalendar.PaddedDayCell` | date_holidays.py:64 | Day `d` stands in the padded weeks at row `(w + d - 1) / 7`, column `(w + d - 1) % 7` |
| `PyCalendar.CalendarSize` | date_holidays.py:64 | The weeks of `monthcalendar` cover the 1st through the last day with less than a week of padding |
| `PyCalendar.CalendarCell` | date_holidays.py:64 | Entry `j` of week `i` is the day at flat position `7i + j`, or 0 outside the month |
| `PyCalendar.CalendarRows` | date_holidays.py:64 | `monthcalendar` is non-empty and each week has seven entries |
| `PyCalendar.CalendarColumn` | date_holidays.py:64 | A non-zero entry in column `j` is a day of the month whose weekday is `j` |
| `PyCalendar.CalendarColumns` | date_holidays.py:64 | Every non-zero entry of `monthcalendar` is a day of the month in its weekday's column |
| `PyCalendar.CalendarPlacesDay` | date_holidays.py:64 | Day `d` of the month stands in `monthcalendar` at its week's row and its weekday's column |
| `PyCalendar.CalendarPlacesDays` | date_holidays.py:64 | Every day of the month stands at its week's row and its weekday's column |
| `PyCalendar.MonthCalendarLayout` | date_holidays.py:64 | `monthcalendar` rows have seven entries, each non-zero entry is a day of the month in its weekday's column, and every day of the month is at its week and weekday |
| `PyCalendar.PaddedLastRow` | date_holidays.py:64 | The last padded week holds `n - p + j` in each column `j` up to the column `p` of the last day `n`, and 0 after it |
| `PyCalendar.MaxOfWorkWeek` | date_holidays.py:64 | `max` of the Monday-to-Friday part of such a week is `n` when `p` is a weekday, otherwise the Friday before, `n - (p - 4)` |
| `PyCalendar.PaddedLastWeek` | date_holidays.py:64 | `max(weeks[-1:][0][:5])` of the padded weeks is the last day moved back over the weekend |
| `PyCalendar.LastWeek` | date_holidays.py:64 | `max(monthcalendar(y, m)[-1:][0][:5])` is the month's last day, moved back to Friday when that day is a Saturday or Sunday |
| `HolidayTable.Slice` | date_holidays.py:93 | `feriados[start:stop]` as the inclusive range the caller means; it holds only real holiday dates, and `SliceMembers` proves it holds exactly the holidays from start to stop, ascending |
| `HolidayTable.HalfOpenSlice` | date_holidays.py:128 | The `holidays` package's slice for start no later than stop; it holds only real holiday dates, and `HalfOpenSliceMembers` proves it holds exactly those from start up to, not including, stop |
| `HolidayTable.SliceMembers` | date_holidays.py:93 | The inclusive slice holds exactly the holidays from start to stop, in strictly ascending order with no repeats |
| `HolidayTable.MonthSlice` | date_holidays.py:128 | The inclusive slice from the 1st to the last day of a month holds exactly that month's holidays, in increasing order of day |
| `HolidayTable.HalfOpenSliceMembers` | date_holidays.py:128 | The `holidays` package's slice holds exactly the holidays from start up to, not including, stop |
| `HolidayTable.HalfOpenSliceDropsStop` | date_holidays.py:128 | A holiday on the stop date is in the inclusive slice and missing from the package's slice |
| `HolidayTable.AscendingCons` | date_holidays.py:93 | Putting a date before an ascending list of later dates keeps it ascending |
| `DateHolidays.IsLastBusinessDay` | date_holidays.py:64 | Reference definition of the last business day: a Monday-to-Friday day of the month after which no day of the month is a weekday |
| `DateHolidays.LastDayBeforeWeekend` | date_holidays.py:64 | The last day moved back to Friday over a weekend: one of the month's last three days; `WeekendRuleIsLastBusinessDay` proves it satisfies `IsLastBusinessDay` |
| `DateHolidays.WithDay` | date_holidays.py:33 | `relativedelta(day=n)` keeps year and month and gives day `n`, or the month's last day when `n` is past it |
| `DateHolidays.LastDayOfMonth` | date_holidays.py:29-39 | A month outside 1..12 is refused first. A year `datetime` refuses fails wrapped. Otherwise the result is the Gregorian month length by the explicit rule, a valid day whose successor is invalid |
| `DateHolidays.LastBusinessDayOfMonth` | date_holidays.py:60-70 | Fails iff the month is outside 1..12. Otherwise the result is a Monday-to-Friday day of the month with no later such day; it is the last day moved back over the weekend, so at least `last - 2`, and equal to `last` when the last day is a weekday |
| `DateHolidays.WeekdayName` | date_holidays.py:162-177 | Day check before month check. A date `datetime` refuses fails wrapped. Otherwise the result is one of the seven labels, the one at index `weekday`, Monday = "Seg" |
| `DateHolidays.HolidaysInYear` | date_holidays.py:86-100 | For a year in 1..9999: the slice January 1 to December 31, holding a date iff it is a holiday of that year, ascending. Other years fail wrapped |
| `DateHolidays.HolidayDaysInMonth` | date_holidays.py:121-138 | The month is checked first, then the last day is got (its failure wrapped twice). The result is `NoHolidays` (the sentinel 0) iff no day of the month is a holiday. Otherwise it is a non-empty, strictly increasing list holding `d` iff day `d` of the month is a holiday |
| `DateHolidays.IsHoliday` | date_holidays.py:201-224 | Day check, then month check, then the month lookup (failure wrapped three deep). The answer is true iff the date is real and a holiday: the sentinel gives false, and a day past the month's end gives false |
| `DateHolidays.WeekendRuleIsLastBusinessDay` | date_holidays.py:64 | The last day moved back over the weekend is a Monday-to-Friday day of the month with no later such day |
| `DateHolidays.LastBusinessDayBounds` | date_holidays.py:64 | A last business day is one of the month's last three days, and is the last day when that is a weekday |
| `DateHolidays.MonthDayNumbers` | date_holidays.py:128-134 | The day numbers of the month slice are exactly the month's holiday days, strictly increasing, and empty iff the month has none |
| `DateHolidays.WeekdayNameNext` | date_holidays.py:171-173 | For consecutive dates, the label of the second is the label after the first's, cyclically |
| `DateHolidays.HalfOpenMonthMissesLastDay` | date_holidays.py:128 | With the package's slice, every date the month query sees is before the last day. A holiday on the last day is seen by the inclusive slice and missed by the package's |
| `DateHolidays.LastDayExamples` | date_holidays.py:33 | February 2021 has 28 days, 2020 29, 1900 28, 2000 29; month 13 is refused |
| `DateHolidays.LastBusinessDayMay2021` | date_holidays.py:64 | The last business day of May 2021 is the 31st (a Monday) |
| `DateHolidays.LastBusinessDayJuly2021` | date_holidays.py:64 | The last business day of July 2021 is the 30th (the 31st is a Saturday) |
| `DateHolidays.LastBusinessDayOctober2021` | date_holidays.py:64 | The last business day of October 2021 is the 29th (the 31st is a Sunday) |
| `DateHolidays.WeekdayName1974` | date_holidays.py:233 | 1974-05-07 is labelled "Ter" |
| `DateHolidays.WeekdayNameRefusals` | date_holidays.py:162-177 | April 31, 2021, February 29, 2021 and year 0 fail wrapped after the range checks; day 32 is refused by the day check before the month check |

## Left out

- The `isinstance(..., int)` checks at the head of every operation: the Dafny
  types make them vacuous. Python's bool-is-int quirk is not modelled either.
- The text of the error messages, including the wrong "último dia do mês"
  message of `get_ultimo_dia_util_do_mes`. Errors are a datatype with a kind
  tag and the wrapping operation. `get_ultimo_dia_util_do_mes` has no
  `Op` tag: on valid input its body cannot fail in the model.
- The contents of the Brazilian holiday table (fixed dates, Easter-based
  feasts). It comes from the external `holidays` package and is the `hol`
  parameter. So concrete facts such as "April 21 is a holiday" are not lemmas.
- Failures of the holiday table itself. Only the failures the code itself
  causes are modelled.
- The string keys of the slices (`f"{ano}-{mes}-01"`) and their parsing by the
  `holidays` package. The model passes the dates they are meant to denote.
  For years below 100 the keys have one or two year digits (`"21-01-01"`),
  which `dateutil` does not read as year 21. So for those years the model's
  holiday answers can differ from the program's.
- `HolidaysInYear`: for a year outside 1..9999 the model fails with
  `BadDate(year-01-01)`. This assumes the key `"{year}-01-01"` cannot be read
  as a date then. How the package's parser actually handles such strings is
  not modelled.
- `calendar.weekday` maps out-of-range years to `2000 + year % 400` only in
  Python 3.8 and later. The model follows that behaviour, so
  `LastBusinessDayOfMonth` never fails on the year. Older Pythons would raise
  there.
- Time zones, concurrency and I/O: there are none in the source. Calling any
  operation twice with the same arguments gives the same result. The functions
  are deterministic, and every method's postconditions fix its result
  uniquely.
- The commented-out demo at the end of the file, except as a source of the
  regression case 1974-05-07 = "Ter".

## Findings

| source | as written | input that shows it | evidently intended | confidence | as-written member | corrected member |
|---|---|---|---|---|---|---|
| date_holidays.py:128 | The month's last day is passed as the stop of `feriados[start:stop]`. The `holidays` package stops one day before its stop date, so the last day of the month is never examined | `get_dias_feriado_mes(2018, 5)`: Corpus Christi falls on 2018-05-31 and is not listed, so `data_is_feriado(2018, 5, 31)` answers False | All holidays from the 1st to the last day, both included | medium, not executed; it rests on the `holidays` package's slice leaving out its stop date, and that package is not part of this model | `DateHolidays.HalfOpenMonthMissesLastDay` | `HolidayTable.SliceMembers` |

The same half-open slice affects `get_feriados_brasil` (date_holidays.py:93):
December 31 is never examined. Brazil's national table normally has no holiday
on that date. `HalfOpenSliceDropsStop` states the general fact. The rest of
the model uses the inclusive `Slice`.
