/** The proleptic Gregorian calendar as Python's `datetime` module computes it:
    month lengths, the leap-year rule, day ordinals (0001-01-01 is ordinal 1)
    and weekdays (Monday = 0). Years are unbounded here; `IsDatetime` adds the
    1..9999 limit that `datetime` itself enforces. */
module Calendar {

  /** The year range accepted by `datetime.datetime` and `datetime.date`. */
  const MinYear := 1
  const MaxYear := 9999

  datatype Date = Date(year: int, month: int, day: int)

  predicate IsLeapYear(y: int) {
    (y % 4 == 0 && y % 100 != 0) || y % 400 == 0
  }

  function DaysInYear(y: int): (n: int)
    ensures n == 365 || n == 366
    ensures n == 366 <==> IsLeapYear(y)
  {
    if IsLeapYear(y) then 366 else 365
  }

  /** Days in month `m` of year `y`, from a table of common-year lengths with one
      day added to February of a leap year. */
  function DaysInMonth(y: int, m: int): (n: int)
    requires 1 <= m <= 12
    ensures 28 <= n <= 31
    ensures m in {1, 3, 5, 7, 8, 10, 12} ==> n == 31
    ensures m in {4, 6, 9, 11} ==> n == 30
    ensures m == 2 ==> n == if IsLeapYear(y) then 29 else 28
  {
    [31, 28, 31, 30, 31, 30, 31, 31, 30, 31, 30, 31][m - 1]
      + (if m == 2 && IsLeapYear(y) then 1 else 0)
  }

  /** A real date of the proleptic Gregorian calendar (any year). */
  predicate ValidDate(d: Date) {
    1 <= d.month <= 12 && 1 <= d.day <= DaysInMonth(d.year, d.month)
  }

  /** A date that `datetime(year, month, day)` accepts. */
  predicate IsDatetime(d: Date) {
    MinYear <= d.year <= MaxYear && ValidDate(d)
  }

  /** Days in the years before `y`, counted from 0001-01-01 (negative for
      y < 1): 365 a year, plus one for each multiple of 4, less one for each
      multiple of 100, plus one for each multiple of 400 before `y`. */
  function DaysBeforeYear(y: int): (n: int) {
    var p := y - 1;
    365 * p + p / 4 - p / 100 + p / 400
  }

  /** Days in the months of year `y` before month `m`. */
  function DaysBeforeMonth(y: int, m: int): (n: int)
    requires 1 <= m <= 12
    ensures 0 <= n <= 335
  {
    [0, 31, 59, 90, 120, 151, 181, 212, 243, 273, 304, 334][m - 1]
      + (if m > 2 && IsLeapYear(y) then 1 else 0)
  }

  /** The day ordinal: 0001-01-01 is 1, each following day one more. */
  function Ordinal(d: Date): (n: int)
    requires ValidDate(d)
    ensures DaysBeforeYear(d.year) < n <= DaysBeforeYear(d.year) + DaysInYear(d.year)
  {
    MonthsFillYear(d.year, d.month);
    DaysBeforeYear(d.year) + DaysBeforeMonth(d.year, d.month) + d.day
  }

  /** The weekday of a date, Monday = 0 ... Sunday = 6. */
  function Weekday(d: Date): (w: int)
    requires ValidDate(d)
    ensures 0 <= w < 7
  {
    (Ordinal(d) - 1) % 7
  }

  /** The day after `d`. */
  function NextDate(d: Date): (e: Date)
    requires ValidDate(d)
    ensures ValidDate(e)
    ensures Ordinal(e) == Ordinal(d) + 1
  {
    if d.day < DaysInMonth(d.year, d.month) then
      Date(d.year, d.month, d.day + 1)
    else if d.month < 12 then
      MonthTurn(d.year, d.month);
      Date(d.year, d.month + 1, 1)
    else
      YearTurn(d.year);
      Date(d.year + 1, 1, 1)
  }

  /** Lexicographic order on (year, month, day). */
  predicate LexLe(a: Date, b: Date) {
    a.year < b.year
    || (a.year == b.year && (a.month < b.month || (a.month == b.month && a.day <= b.day)))
  }

  // ---------------------------------------------------------------------------
  // Lemmas

  lemma MonthsFillYear(y: int, m: int)
    requires 1 <= m <= 12
    ensures DaysBeforeMonth(y, m) + DaysInMonth(y, m) <= DaysInYear(y)
    ensures m < 12 ==> DaysBeforeMonth(y, m + 1) == DaysBeforeMonth(y, m) + DaysInMonth(y, m)
    ensures m == 12 ==> DaysBeforeMonth(y, m) + DaysInMonth(y, m) == DaysInYear(y)
  {
  }

  lemma YearStep(y: int)
    ensures DaysBeforeYear(y + 1) == DaysBeforeYear(y) + DaysInYear(y)
  {
    StepBy4(y);
    StepBy100(y);
    StepBy400(y);
  }

  lemma StepBy4(y: int)
    ensures y / 4 - (y - 1) / 4 == if y % 4 == 0 then 1 else 0
  {
  }

  lemma StepBy100(y: int)
    ensures y / 100 - (y - 1) / 100 == if y % 100 == 0 then 1 else 0
  {
  }

  lemma StepBy400(y: int)
    ensures y / 400 - (y - 1) / 400 == if y % 400 == 0 then 1 else 0
  {
  }

  /** The 1st of a month follows the last day of the month before. */
  lemma MonthTurn(y: int, m: int)
    requires 1 <= m < 12
    ensures Ordinal(Date(y, m + 1, 1)) == Ordinal(Date(y, m, DaysInMonth(y, m))) + 1
  {
    MonthsFillYear(y, m);
  }

  /** January 1 follows December 31 of the year before. */
  lemma YearTurn(y: int)
    ensures Ordinal(Date(y + 1, 1, 1)) == Ordinal(Date(y, 12, 31)) + 1
  {
    YearStep(y);
    MonthsFillYear(y, 12);
  }

  /** All the days of a year come before all the days of any later year. */
  lemma {:induction false} YearsOrdered(y1: int, y2: int)
    requires y1 < y2
    ensures DaysBeforeYear(y1) + DaysInYear(y1) <= DaysBeforeYear(y2)
    decreases y2 - y1
  {
    YearStep(y1);
    if y1 + 1 < y2 {
      YearsOrdered(y1 + 1, y2);
    }
  }

  /** Within a year, the days of a month come before those of any later month. */
  lemma MonthsOrdered(y: int, m1: int, m2: int)
    requires 1 <= m1 < m2 <= 12
    ensures DaysBeforeMonth(y, m1) + DaysInMonth(y, m1) <= DaysBeforeMonth(y, m2)
  {
  }

  /** The ordinal numbers dates in calendar order: it is strictly monotone and
      therefore one-to-one on valid dates. */
  lemma OrdinalOrder(a: Date, b: Date)
    requires ValidDate(a) && ValidDate(b)
    ensures Ordinal(a) <= Ordinal(b) <==> LexLe(a, b)
    ensures Ordinal(a) == Ordinal(b) <==> a == b
  {
    if a.year < b.year {
      YearsOrdered(a.year, b.year);
    } else if b.year < a.year {
      YearsOrdered(b.year, a.year);
    } else if a.month < b.month {
      MonthsOrdered(a.year, a.month, b.month);
    } else if b.month < a.month {
      MonthsOrdered(a.year, b.month, a.month);
    }
  }

  /** The valid dates from January 1 to December 31 of year `y` are exactly the
      valid dates of that year. */
  lemma YearSpan(y: int, x: Date)
    requires ValidDate(x)
    ensures ValidDate(Date(y, 1, 1)) && ValidDate(Date(y, 12, 31))
    ensures Ordinal(Date(y, 1, 1)) <= Ordinal(x) <= Ordinal(Date(y, 12, 31)) <==> x.year == y
  {
    OrdinalOrder(Date(y, 1, 1), x);
    OrdinalOrder(x, Date(y, 12, 31));
  }

  /** The valid dates from the 1st to the last day of month `m` of year `y` are
      exactly the valid dates of that month. */
  lemma MonthSpan(y: int, m: int, x: Date)
    requires 1 <= m <= 12 && ValidDate(x)
    ensures ValidDate(Date(y, m, 1)) && ValidDate(Date(y, m, DaysInMonth(y, m)))
    ensures Ordinal(Date(y, m, 1)) <= Ordinal(x) <= Ordinal(Date(y, m, DaysInMonth(y, m)))
            <==> x.year == y && x.month == m
  {
    OrdinalOrder(Date(y, m, 1), x);
    OrdinalOrder(x, Date(y, m, DaysInMonth(y, m)));
  }

  /** 0001-01-01 is ordinal 1 and a Monday. */
  lemma EpochIsMonday()
    ensures ValidDate(Date(1, 1, 1))
    ensures Ordinal(Date(1, 1, 1)) == 1
    ensures Weekday(Date(1, 1, 1)) == 0
  {
    var o := Ordinal(Date(1, 1, 1));
    assert o == 1;
    assert Weekday(Date(1, 1, 1)) == (o - 1) % 7;
  }

  /** Consecutive days have consecutive weekdays. */
  lemma WeekdayNext(d: Date)
    requires ValidDate(d)
    ensures Weekday(NextDate(d)) == (Weekday(d) + 1) % 7
  {
    ModSucc(Ordinal(d) - 1);
  }

  /** Within one month, the weekday advances with the day number. */
  lemma WeekdayInMonth(y: int, m: int, d: int)
    requires 1 <= m <= 12 && 1 <= d <= DaysInMonth(y, m)
    ensures Weekday(Date(y, m, d)) == (Weekday(Date(y, m, 1)) + d - 1) % 7
  {
    var o := Ordinal(Date(y, m, 1));
    assert Ordinal(Date(y, m, d)) == o + (d - 1);
    ModAdd(o - 1, d - 1);
  }

  lemma ModSucc(x: int)
    ensures (x + 1) % 7 == (x % 7 + 1) % 7
  {
  }

  lemma ModAdd(x: int, j: int)
    ensures (x + j) % 7 == (x % 7 + j) % 7
  {
  }

  lemma ModWeeks(x: int, j: int)
    ensures (x + 7 * j) % 7 == x % 7
  {
  }

  /** `k` whole 400-year cycles later, the closed form has grown by `k` times
      146097 days and the leap-year rule gives the same answer. */
  lemma ShiftCycles(y: int, k: int)
    ensures DaysBeforeYear(y + 400 * k) == DaysBeforeYear(y) + 146097 * k
    ensures IsLeapYear(y + 400 * k) == IsLeapYear(y)
  {
    CyclesBy(y - 1, 4, 100 * k);
    CyclesBy(y - 1, 100, 4 * k);
    CyclesBy(y - 1, 400, k);
    CyclesBy(y, 4, 100 * k);
    CyclesBy(y, 100, 4 * k);
    CyclesBy(y, 400, k);
  }

  /** Adding `t` multiples of `b` adds `t` to the quotient and leaves the
      remainder. */
  lemma CyclesBy(p: int, b: int, t: int)
    requires b in {4, 100, 400}
    ensures (p + b * t) / b == p / b + t && (p + b * t) % b == p % b
  {
    if b == 4 {
      assert p + 4 * t == 4 * (p / 4 + t) + p % 4;
    } else if b == 100 {
      assert p + 100 * t == 100 * (p / 100 + t) + p % 100;
    } else {
      assert p + 400 * t == 400 * (p / 400 + t) + p % 400;
    }
  }

  /** The Gregorian calendar repeats every 400 years (146097 days, a whole
      number of weeks): a date and the same date `k` cycles away are both valid
      or both invalid, and fall on the same weekday. */
  lemma WeekdayPeriodic(y: int, m: int, d: int, k: int)
    requires 1 <= m <= 12
    ensures ValidDate(Date(y, m, d)) <==> ValidDate(Date(y + 400 * k, m, d))
    ensures ValidDate(Date(y, m, d)) ==> Weekday(Date(y + 400 * k, m, d)) == Weekday(Date(y, m, d))
  {
    ShiftCycles(y, k);
    if ValidDate(Date(y, m, d)) {
      var o := Ordinal(Date(y, m, d));
      assert Ordinal(Date(y + 400 * k, m, d)) == o + 7 * (20871 * k);
      ModWeeks(o - 1, 20871 * k);
    }
  }
}
