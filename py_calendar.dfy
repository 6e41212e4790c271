/** The parts of Python's standard library that `date_holidays.py` leans on for
    its calendar arithmetic: `calendar.weekday`, `calendar.monthrange`,
    `calendar.monthcalendar` (weeks start on Monday, the module's default) and
    the builtin `max`. */
module PyCalendar {
  import opened Calendar

  /** `calendar.weekday(year, month, day)`: a year outside 1..9999 is first moved
      to `2000 + year % 400`, then the weekday of that `datetime.date` is taken.
      Python's `%` floors, as Dafny's does for a positive divisor. */
  function CalendarWeekday(y: int, m: int, d: int): (w: int)
    requires ValidDate(Date(y, m, d))
    ensures w == Weekday(Date(y, m, d))
  {
    var y' := if MinYear <= y <= MaxYear then y else 2000 + y % 400;
    var k := if MinYear <= y <= MaxYear then 0 else 5 - y / 400;
    assert y' == y + 400 * k;
    WeekdayPeriodic(y, m, d, k);
    Weekday(Date(y', m, d))
  }

  /** `calendar.monthrange(year, month)`: the weekday of the 1st and the number
      of days of the month. */
  function MonthRange(y: int, m: int): (r: (int, int))
    requires 1 <= m <= 12
    ensures r.0 == Weekday(Date(y, m, 1))
    ensures 28 <= r.1 <= 31 && ValidDate(Date(y, m, r.1)) && !ValidDate(Date(y, m, r.1 + 1))
  {
    (CalendarWeekday(y, m, 1), DaysInMonth(y, m))
  }

  /** `Calendar(0).itermonthdays(year, month)` as a list: a zero for each day of
      the first week before the 1st, the day numbers 1..n, then zeros up to the
      end of the last week. */
  function MonthDays(y: int, m: int): (s: seq<int>)
    requires 1 <= m <= 12
  {
    var (day1, ndays) := MonthRange(y, m);
    PaddedDays(day1, ndays)
  }

  /** The days `1..ndays` of a month whose 1st falls on weekday `day1`, padded
      with zeros on both sides to whole Monday-to-Sunday weeks. */
  function PaddedDays(day1: int, ndays: int): (s: seq<int>)
    requires 0 <= day1 && 0 <= ndays
    ensures |s| % 7 == 0 && ndays <= |s|
  {
    var before := (day1 - 0) % 7;
    var after := (0 - day1 - ndays) % 7;
    seq(before, _ => 0) + seq(ndays, i => i + 1) + seq(after, _ => 0)
  }

  /** `[days[i:i+7] for i in range(0, len(days), 7)]`: the list cut into weeks. */
  function Weeks(s: seq<int>): (w: seq<seq<int>>)
    decreases |s|
  {
    if |s| == 0 then []
    else
      var k := if |s| < 7 then |s| else 7;
      [s[..k]] + Weeks(s[k..])
  }

  /** `calendar.monthcalendar(year, month)`: the month as a list of weeks, each
      a list of seven day numbers from Monday to Sunday, 0 outside the month. */
  function MonthCalendar(y: int, m: int): (cal: seq<seq<int>>)
    requires 1 <= m <= 12
  {
    Weeks(MonthDays(y, m))
  }

  /** `weeks[-1:][0]`: the last week of a non-empty list of weeks. */
  function LastWeekOf(cal: seq<seq<int>>): (w: seq<int>)
    requires |cal| > 0
  {
    cal[|cal| - 1]
  }

  /** The builtin `max` of a non-empty list. */
  function MaxOf(s: seq<int>): (r: int)
    requires |s| > 0
    ensures r in s
    ensures forall i :: 0 <= i < |s| ==> s[i] <= r
  {
    if |s| == 1 then s[0]
    else
      var t := MaxOf(s[1..]);
      if s[0] >= t then s[0] else t
  }

  // ---------------------------------------------------------------------------
  // Lemmas

  /** The padded day list: its length is a whole number of weeks, and it holds
      day `d` at position `day1 + d - 1` and 0 everywhere else. */
  lemma PaddedLayout(day1: int, ndays: int)
    requires 0 <= day1 < 7 && 0 <= ndays
    ensures var s := PaddedDays(day1, ndays);
      |s| % 7 == 0 && day1 + ndays <= |s| < day1 + ndays + 7
      && forall i :: 0 <= i < |s| ==> s[i] == if day1 <= i < day1 + ndays then i - day1 + 1 else 0
  {
    var s := PaddedDays(day1, ndays);
    var after := (0 - day1 - ndays) % 7;
    assert |s| == day1 + ndays + after;
    forall i | 0 <= i < |s|
      ensures s[i] == if day1 <= i < day1 + ndays then i - day1 + 1 else 0
    {
      if i < day1 {
        assert s[i] == seq(day1, _ => 0)[i];
      } else if i < day1 + ndays {
        assert s[i] == seq(ndays, j => j + 1)[i - day1];
      } else {
        assert s[i] == seq(after, _ => 0)[i - day1 - ndays];
      }
    }
  }

  /** The same layout for the month itself, its 1st on weekday `Weekday(y-m-1)`. */
  lemma MonthDaysLayout(y: int, m: int)
    requires 1 <= m <= 12
    ensures var s := MonthDays(y, m);
      var day1 := Weekday(Date(y, m, 1));
      |s| % 7 == 0 && day1 + DaysInMonth(y, m) <= |s| < day1 + DaysInMonth(y, m) + 7
      && forall i :: 0 <= i < |s| ==>
           s[i] == if day1 <= i < day1 + DaysInMonth(y, m) then i - day1 + 1 else 0
  {
    PaddedLayout(Weekday(Date(y, m, 1)), DaysInMonth(y, m));
  }

  /** Cutting a list whose length is a multiple of seven gives rows of seven,
      row `i` holding positions `7 * i` to `7 * i + 6`. */
  lemma {:induction false} WeeksIndex(s: seq<int>)
    requires |s| % 7 == 0
    ensures 7 * |Weeks(s)| == |s|
    ensures forall i :: 0 <= i < |Weeks(s)| ==> |Weeks(s)[i]| == 7
    ensures forall i, j :: 0 <= i < |Weeks(s)| && 0 <= j < 7 ==> Weeks(s)[i][j] == s[7 * i + j]
    decreases |s|
  {
    if |s| > 0 {
      var rest := s[7..];
      WeeksIndex(rest);
      var w := Weeks(s);
      assert w == [s[..7]] + Weeks(rest);
      forall i | 0 <= i < |w| ensures |w[i]| == 7 {
        if i > 0 {
          assert w[i] == Weeks(rest)[i - 1];
        }
      }
      forall i, j | 0 <= i < |w| && 0 <= j < 7 ensures w[i][j] == s[7 * i + j] {
        if i > 0 {
          assert w[i] == Weeks(rest)[i - 1];
          assert rest[7 * (i - 1) + j] == s[7 * i + j];
        }
      }
    }
  }

  /** The row of `monthcalendar` in which day `d` of the month stands. */
  function WeekOf(y: int, m: int, d: int): (i: int)
    requires 1 <= m <= 12
  {
    (Weekday(Date(y, m, 1)) + d - 1) / 7
  }

  /** Entry `j` of week `i` of the padded list cut into weeks: the day at
      position `7 * i + j`, or 0. */
  lemma PaddedCell(day1: int, ndays: int, i: int, j: int)
    requires 0 <= day1 < 7 && 0 <= ndays
    requires 0 <= i < |Weeks(PaddedDays(day1, ndays))| && 0 <= j < 7
    ensures |Weeks(PaddedDays(day1, ndays))[i]| == 7
    ensures var k := 7 * i + j - day1;
      Weeks(PaddedDays(day1, ndays))[i][j] == if 0 <= k < ndays then k + 1 else 0
  {
    PaddedLayout(day1, ndays);
    WeeksIndex(PaddedDays(day1, ndays));
  }

  /** The weeks of `monthcalendar` span the month: the 1st falls in the first
      week and the last day in the last week. */
  lemma CalendarSize(y: int, m: int)
    requires 1 <= m <= 12
    ensures var n := 7 * |MonthCalendar(y, m)|; var day1 := Weekday(Date(y, m, 1));
      n == |MonthDays(y, m)| && day1 + DaysInMonth(y, m) <= n < day1 + DaysInMonth(y, m) + 7
  {
    var day1, ndays := Weekday(Date(y, m, 1)), DaysInMonth(y, m);
    PaddedLayout(day1, ndays);
    WeeksIndex(PaddedDays(day1, ndays));
  }

  /** Entry `j` of week `i` of `monthcalendar`: the day at flat position
      `7 * i + j`, or 0. */
  lemma CalendarCell(y: int, m: int, i: int, j: int)
    requires 1 <= m <= 12
    requires 0 <= i < |MonthCalendar(y, m)| && 0 <= j < 7
    ensures |MonthCalendar(y, m)[i]| == 7
    ensures var k := 7 * i + j - Weekday(Date(y, m, 1));
      MonthCalendar(y, m)[i][j] == if 0 <= k < DaysInMonth(y, m) then k + 1 else 0
  {
    PaddedCell(Weekday(Date(y, m, 1)), DaysInMonth(y, m), i, j);
  }

  /** A non-zero entry of the padded weeks is a day of the month standing in
      the column of its weekday. */
  lemma PaddedCellDay(day1: int, ndays: int, i: int, j: int)
    requires 0 <= day1 < 7 && 0 <= ndays
    requires 0 <= i < |Weeks(PaddedDays(day1, ndays))| && 0 <= j < 7
    ensures |Weeks(PaddedDays(day1, ndays))[i]| == 7
    ensures var d := Weeks(PaddedDays(day1, ndays))[i][j];
      d != 0 ==> 1 <= d <= ndays && (day1 + d - 1) % 7 == j
  {
    PaddedCell(day1, ndays, i, j);
    ModWeeks(j, i);
  }

  /** Every day of the month stands in the padded weeks at the row and column
      of its position `day1 + d - 1`. */
  lemma PaddedDayCell(day1: int, ndays: int, d: int)
    requires 0 <= day1 < 7 && 1 <= d <= ndays
    ensures var cal := Weeks(PaddedDays(day1, ndays)); var k := day1 + d - 1;
      k / 7 < |cal| && |cal[k / 7]| == 7 && cal[k / 7][k % 7] == d
  {
    var k := day1 + d - 1;
    var i, j := k / 7, k % 7;
    assert 7 * i + j == k;
    PaddedLayout(day1, ndays);
    WeeksIndex(PaddedDays(day1, ndays));
    assert i < |Weeks(PaddedDays(day1, ndays))|;
    PaddedCell(day1, ndays, i, j);
  }

  /** Every week of `monthcalendar` has seven entries. */
  lemma CalendarRows(y: int, m: int)
    requires 1 <= m <= 12
    ensures var cal := MonthCalendar(y, m);
      |cal| > 0 && forall i :: 0 <= i < |cal| ==> |cal[i]| == 7
  {
    var cal := MonthCalendar(y, m);
    CalendarSize(y, m);
    forall i | 0 <= i < |cal| ensures |cal[i]| == 7 {
      CalendarCell(y, m, i, 0);
    }
  }

  /** Every non-zero entry of `monthcalendar` is a day of the month standing in
      the column of its weekday. */
  lemma CalendarColumns(y: int, m: int)
    requires 1 <= m <= 12
    ensures var cal := MonthCalendar(y, m);
      forall i, j :: 0 <= i < |cal| && 0 <= j < 7 && j < |cal[i]| && cal[i][j] != 0 ==>
        1 <= cal[i][j] <= DaysInMonth(y, m) && Weekday(Date(y, m, cal[i][j])) == j
  {
    var cal := MonthCalendar(y, m);
    forall i, j | 0 <= i < |cal| && 0 <= j < 7 && j < |cal[i]| && cal[i][j] != 0
      ensures 1 <= cal[i][j] <= DaysInMonth(y, m) && Weekday(Date(y, m, cal[i][j])) == j
    {
      CalendarColumn(y, m, i, j);
    }
  }

  lemma CalendarColumn(y: int, m: int, i: int, j: int)
    requires 1 <= m <= 12
    requires 0 <= i < |MonthCalendar(y, m)| && 0 <= j < 7
    ensures |MonthCalendar(y, m)[i]| == 7
    ensures var d := MonthCalendar(y, m)[i][j];
      d != 0 ==> 1 <= d <= DaysInMonth(y, m) && Weekday(Date(y, m, d)) == j
  {
    PaddedCellDay(Weekday(Date(y, m, 1)), DaysInMonth(y, m), i, j);
    var d := MonthCalendar(y, m)[i][j];
    if d != 0 {
      WeekdayInMonth(y, m, d);
    }
  }

  /** Every day of the month stands in `monthcalendar`, in its week's row and
      its weekday's column. */
  lemma CalendarPlacesDays(y: int, m: int)
    requires 1 <= m <= 12
    ensures var cal := MonthCalendar(y, m);
      forall d :: 1 <= d <= DaysInMonth(y, m) ==>
        WeekOf(y, m, d) < |cal| && |cal[WeekOf(y, m, d)]| == 7
        && cal[WeekOf(y, m, d)][Weekday(Date(y, m, d))] == d
  {
    forall d | 1 <= d <= DaysInMonth(y, m)
      ensures var cal := MonthCalendar(y, m);
        WeekOf(y, m, d) < |cal| && |cal[WeekOf(y, m, d)]| == 7
        && cal[WeekOf(y, m, d)][Weekday(Date(y, m, d))] == d
    {
      CalendarPlacesDay(y, m, d);
    }
  }

  lemma CalendarPlacesDay(y: int, m: int, d: int)
    requires 1 <= m <= 12 && 1 <= d <= DaysInMonth(y, m)
    ensures var cal := MonthCalendar(y, m);
      WeekOf(y, m, d) < |cal| && |cal[WeekOf(y, m, d)]| == 7
      && cal[WeekOf(y, m, d)][Weekday(Date(y, m, d))] == d
  {
    PaddedDayCell(Weekday(Date(y, m, 1)), DaysInMonth(y, m), d);
    WeekdayInMonth(y, m, d);
  }

  /** What `calendar.monthcalendar` promises: rows of seven, Monday first;
      every non-zero entry is a day of the month standing in the column of its
      weekday, and every day of the month stands in its week's row. */
  lemma MonthCalendarLayout(y: int, m: int)
    requires 1 <= m <= 12
    ensures var cal := MonthCalendar(y, m);
      |cal| > 0
      && (forall i :: 0 <= i < |cal| ==> |cal[i]| == 7)
      && (forall i, j :: 0 <= i < |cal| && 0 <= j < 7 && cal[i][j] != 0 ==>
            1 <= cal[i][j] <= DaysInMonth(y, m) && Weekday(Date(y, m, cal[i][j])) == j)
      && (forall d :: 1 <= d <= DaysInMonth(y, m) ==>
            WeekOf(y, m, d) < |cal| && cal[WeekOf(y, m, d)][Weekday(Date(y, m, d))] == d)
  {
    CalendarRows(y, m);
    CalendarColumns(y, m);
    CalendarPlacesDays(y, m);
  }

  /** The last week of the padded list: day `ndays - p + j` in column `j` up to
      the column `p` of the last day, zeros after it. */
  lemma PaddedLastRow(day1: int, ndays: int)
    requires 0 <= day1 < 7 && 7 <= ndays
    ensures var cal := Weeks(PaddedDays(day1, ndays)); var p := (day1 + ndays - 1) % 7;
      |cal| > 0 && |LastWeekOf(cal)| == 7
      && forall j :: 0 <= j < 7 ==> LastWeekOf(cal)[j] == if j <= p then ndays - p + j else 0
  {
    var s := PaddedDays(day1, ndays);
    var cal := Weeks(s);
    PaddedLayout(day1, ndays);
    WeeksIndex(s);
    var q := day1 + ndays - 1;
    var c := |cal|;
    var p := q - 7 * (c - 1);
    assert 0 <= p < 7;
    ModWeeks(p, c - 1);
    forall j | 0 <= j < 7 ensures LastWeekOf(cal)[j] == if j <= p then ndays - p + j else 0 {
      assert LastWeekOf(cal)[j] == s[7 * (c - 1) + j];
    }
  }

  /** The largest of the five Monday-to-Friday entries of such a row. */
  lemma MaxOfWorkWeek(row: seq<int>, p: int, n: int)
    requires |row| == 5 && 0 <= p < 7 && 7 <= n
    requires forall j :: 0 <= j < 5 ==> row[j] == if j <= p then n - p + j else 0
    ensures MaxOf(row) == if p <= 4 then n else n - (p - 4)
  {
    var best := if p <= 4 then n else n - (p - 4);
    assert row[if p <= 4 then p else 4] == best;
    assert forall j :: 0 <= j < 5 ==> row[j] <= best;
  }

  /** The Monday-to-Friday part of the last week of the padded list: its
      largest entry is the last day `ndays` moved back over the weekend, where
      `p` is the weekday of the last day. */
  lemma PaddedLastWeek(day1: int, ndays: int)
    requires 0 <= day1 < 7 && 7 <= ndays
    ensures var cal := Weeks(PaddedDays(day1, ndays)); var p := (day1 + ndays - 1) % 7;
      |cal| > 0 && |LastWeekOf(cal)| == 7
      && MaxOf(LastWeekOf(cal)[..5]) == if p <= 4 then ndays else ndays - (p - 4)
  {
    var cal := Weeks(PaddedDays(day1, ndays));
    PaddedLastRow(day1, ndays);
    var row := LastWeekOf(cal)[..5];
    MaxOfWorkWeek(row, (day1 + ndays - 1) % 7, ndays);
  }

  /** The same for the month: the last week of `monthcalendar`. */
  lemma LastWeek(y: int, m: int)
    requires 1 <= m <= 12
    ensures var cal := MonthCalendar(y, m); var n := DaysInMonth(y, m);
      var p := Weekday(Date(y, m, n));
      |cal| > 0 && |LastWeekOf(cal)| == 7
      && MaxOf(LastWeekOf(cal)[..5]) == if p <= 4 then n else n - (p - 4)
  {
    var day1, n := Weekday(Date(y, m, 1)), DaysInMonth(y, m);
    PaddedLastWeek(day1, n);
    WeekdayInMonth(y, m, n);
  }
}
