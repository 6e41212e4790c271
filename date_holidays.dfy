/** The six public operations of `date_holidays.py`: last day and last business
    day of a month, the holidays of a year, the holiday days of a month (with
    its sentinel 0 for "none"), the Portuguese weekday label of a date, and the
    holiday test for a date. Each validates its arguments in the source's order
    and reports failures as typed errors; the holiday table is a parameter. */
module DateHolidays {
  import opened Calendar
  import opened PyCalendar
  import opened HolidayTable

  /** The argument a range check rejected. */
  datatype Arg = Month | Day

  /** The operation whose `except` clause wrapped a failure, adding its own
      "Falha ao ..." prefix. */
  datatype Op = LastDayOp | YearHolidaysOp | MonthHolidaysOp | WeekdayNameOp | IsHolidayOp

  datatype Error =
    | OutOfRange(arg: Arg)          // month outside 1..12 or day outside 1..31
    | BadDate(date: Date)           // `datetime` refuses the date
    | Wrapped(op: Op, cause: Error) // a failure caught and re-raised by `op`

  datatype Result<T> = Success(value: T) | Failure(error: Error)

  /** What `get_dias_feriado_mes` returns: the integer 0 when the month has no
      holiday, otherwise the list of holiday day numbers. */
  datatype DayList = NoHolidays | Days(days: seq<int>)

  /** The label table `{0: "Seg", ..., 6: "Dom"}`, Monday first. */
  const WeekdayLabels: seq<string> := ["Seg", "Ter", "Qua", "Qui", "Sex", "Sab", "Dom"]

  predicate ValidMonth(m: int) { 1 <= m <= 12 }
  predicate ValidDay(d: int) { 1 <= d <= 31 }
  predicate ValidYear(y: int) { MinYear <= y <= MaxYear }

  /** `d` is a Monday-to-Friday day of month `m` and no later day of the month is. */
  predicate IsLastBusinessDay(y: int, m: int, d: int)
    requires ValidMonth(m)
  {
    1 <= d <= DaysInMonth(y, m)
    && Weekday(Date(y, m, d)) < 5
    && forall e :: d < e <= DaysInMonth(y, m) ==> Weekday(Date(y, m, e)) >= 5
  }

  /** `relativedelta(day=n)` applied to a date: the day becomes `n`, clamped to
      the last day of the month. */
  function WithDay(d: Date, n: int): (e: Date)
    requires ValidDate(d) && n >= 1
    ensures ValidDate(e) && e.year == d.year && e.month == d.month
    ensures e.day == n || (e.day < n && !ValidDate(Date(d.year, d.month, e.day + 1)))
  {
    var last := DaysInMonth(d.year, d.month);
    Date(d.year, d.month, if n < last then n else last)
  }

  /** `get_ultimo_dia_do_mes`: `(datetime(y, m, 1) + relativedelta(day=31)).day`. */
  function LastDayOfMonth(y: int, m: int): (r: Result<int>)
    ensures !ValidMonth(m) ==> r == Failure(OutOfRange(Month))
    ensures ValidMonth(m) && !ValidYear(y) ==> r == Failure(Wrapped(LastDayOp, BadDate(Date(y, m, 1))))
    ensures r.Success? <==> ValidMonth(m) && ValidYear(y)
    ensures r.Success? ==>
      r.value == if m in {1, 3, 5, 7, 8, 10, 12} then 31
                 else if m in {4, 6, 9, 11} then 30
                 else if (y % 4 == 0 && y % 100 != 0) || y % 400 == 0 then 29
                 else 28
    ensures r.Success? ==> ValidDate(Date(y, m, r.value)) && !ValidDate(Date(y, m, r.value + 1))
  {
    if m < 1 || m > 12 then Failure(OutOfRange(Month))
    else if !IsDatetime(Date(y, m, 1)) then Failure(Wrapped(LastDayOp, BadDate(Date(y, m, 1))))
    else Success(WithDay(Date(y, m, 1), 31).day)
  }

  /** `get_ultimo_dia_util_do_mes`: `max(calendar.monthcalendar(y, m)[-1:][0][:5])`,
      the largest Monday-to-Friday entry of the month's last week. The
      `calendar` module accepts every year, so only the month check can fail. */
  function LastBusinessDayOfMonth(y: int, m: int): (r: Result<int>)
    ensures r.Failure? <==> !ValidMonth(m)
    ensures r.Failure? ==> r.error == OutOfRange(Month)
    ensures r.Success? ==> IsLastBusinessDay(y, m, r.value)
    ensures r.Success? ==> r.value == LastDayBeforeWeekend(y, m)
    ensures r.Success? ==> DaysInMonth(y, m) - 2 <= r.value
    ensures r.Success? && Weekday(Date(y, m, DaysInMonth(y, m))) < 5 ==> r.value == DaysInMonth(y, m)
  {
    if m < 1 || m > 12 then Failure(OutOfRange(Month))
    else
      var cal := MonthCalendar(y, m);
      LastWeek(y, m);
      WeekendRuleIsLastBusinessDay(y, m);
      Success(MaxOf(LastWeekOf(cal)[..5]))
  }

  /** The month's last day, moved back to Friday when it falls on a Saturday
      or a Sunday. */
  function LastDayBeforeWeekend(y: int, m: int): (d: int)
    requires ValidMonth(m)
    ensures DaysInMonth(y, m) - 2 <= d <= DaysInMonth(y, m)
  {
    var n := DaysInMonth(y, m);
    var p := Weekday(Date(y, m, n));
    if p <= 4 then n else n - (p - 4)
  }

  /** `get_nome_dia_semana`: the day check, then the month check, then
      `datetime(y, m, d)` (which refuses a day past the month's end or a year
      outside 1..9999), then the label of its weekday. */
  function WeekdayName(y: int, m: int, d: int): (r: Result<string>)
    ensures !ValidDay(d) ==> r == Failure(OutOfRange(Day))
    ensures ValidDay(d) && !ValidMonth(m) ==> r == Failure(OutOfRange(Month))
    ensures ValidDay(d) && ValidMonth(m) && !IsDatetime(Date(y, m, d)) ==>
              r == Failure(Wrapped(WeekdayNameOp, BadDate(Date(y, m, d))))
    ensures r.Success? <==> IsDatetime(Date(y, m, d))
    ensures r.Success? ==> r.value in WeekdayLabels
    ensures r.Success? ==> r.value == WeekdayLabels[Weekday(Date(y, m, d))]
  {
    if d < 1 || d > 31 then Failure(OutOfRange(Day))
    else if m < 1 || m > 12 then Failure(OutOfRange(Month))
    else if !IsDatetime(Date(y, m, d)) then Failure(Wrapped(WeekdayNameOp, BadDate(Date(y, m, d))))
    else Success(WeekdayLabels[Weekday(Date(y, m, d))])
  }

  /** `get_feriados_brasil`: the holidays from January 1 to December 31 of the
      year, copied one by one into a new list. */
  method HolidaysInYear(hol: Table, y: int) returns (r: Result<seq<Date>>)
    ensures r.Success? <==> ValidYear(y)
    ensures !ValidYear(y) ==> r == Failure(Wrapped(YearHolidaysOp, BadDate(Date(y, 1, 1))))
    ensures r.Success? ==> r.value == Slice(hol, Date(y, 1, 1), Date(y, 12, 31))
    ensures r.Success? ==> forall x :: x in r.value <==> ValidDate(x) && x.year == y && x in hol
    ensures r.Success? ==> Ascending(r.value)
  {
    if y < MinYear || y > MaxYear {
      return Failure(Wrapped(YearHolidaysOp, BadDate(Date(y, 1, 1))));
    }
    var start, stop := Date(y, 1, 1), Date(y, 12, 31);
    var feriados := Slice(hol, start, stop);
    var lst: seq<Date> := [];
    for i := 0 to |feriados|
      invariant lst == feriados[..i]
    {
      lst := lst + [feriados[i]];
    }
    assert lst == feriados;
    SliceMembers(hol, start, stop);
    forall x | ValidDate(x) ensures Ordinal(start) <= Ordinal(x) <= Ordinal(stop) <==> x.year == y {
      YearSpan(y, x);
    }
    return Success(lst);
  }

  /** `get_dias_feriado_mes`: the month check, then the holidays from the 1st to
      the last day of the month (found with `get_ultimo_dia_do_mes`), keeping
      their day numbers; an empty list is returned as the sentinel 0. */
  method HolidayDaysInMonth(hol: Table, y: int, m: int) returns (r: Result<DayList>)
    ensures !ValidMonth(m) ==> r == Failure(OutOfRange(Month))
    ensures ValidMonth(m) && !ValidYear(y) ==>
              r == Failure(Wrapped(MonthHolidaysOp, Wrapped(LastDayOp, BadDate(Date(y, m, 1)))))
    ensures r.Success? <==> ValidMonth(m) && ValidYear(y)
    ensures r.Success? ==>
              (r.value == NoHolidays <==> forall d :: 1 <= d <= DaysInMonth(y, m) ==> Date(y, m, d) !in hol)
    ensures r.Success? && r.value.Days? ==>
              |r.value.days| > 0
              && (forall d :: d in r.value.days <==> 1 <= d <= DaysInMonth(y, m) && Date(y, m, d) in hol)
              && (forall i, j :: 0 <= i < j < |r.value.days| ==> r.value.days[i] < r.value.days[j])
  {
    if m < 1 || m > 12 {
      return Failure(OutOfRange(Month));
    }
    var last := LastDayOfMonth(y, m);
    if last.Failure? {
      return Failure(Wrapped(MonthHolidaysOp, last.error));
    }
    var start, stop := Date(y, m, 1), Date(y, m, last.value);
    var feriados := Slice(hol, start, stop);
    var lst: seq<int> := [];
    for i := 0 to |feriados|
      invariant |lst| == i
      invariant forall k :: 0 <= k < i ==> lst[k] == feriados[k].day
    {
      lst := lst + [feriados[i].day];
    }
    MonthDayNumbers(hol, y, m, feriados, lst);
    if |lst| == 0 {
      return Success(NoHolidays);
    }
    return Success(Days(lst));
  }

  /** `data_is_feriado`: the day check, then the month check, then membership of
      the day in the month's holiday days, the sentinel 0 meaning "no". A day
      past the month's end (April 31) is not refused: it is simply not found. */
  method IsHoliday(hol: Table, y: int, m: int, d: int) returns (r: Result<bool>)
    ensures !ValidDay(d) ==> r == Failure(OutOfRange(Day))
    ensures ValidDay(d) && !ValidMonth(m) ==> r == Failure(OutOfRange(Month))
    ensures ValidDay(d) && ValidMonth(m) && !ValidYear(y) ==>
              r == Failure(Wrapped(IsHolidayOp, Wrapped(MonthHolidaysOp, Wrapped(LastDayOp, BadDate(Date(y, m, 1))))))
    ensures r.Success? <==> ValidDay(d) && ValidMonth(m) && ValidYear(y)
    ensures r.Success? ==> r.value == (ValidDate(Date(y, m, d)) && Date(y, m, d) in hol)
  {
    if d < 1 || d > 31 {
      return Failure(OutOfRange(Day));
    }
    if m < 1 || m > 12 {
      return Failure(OutOfRange(Month));
    }
    var lstDias := HolidayDaysInMonth(hol, y, m);
    if lstDias.Failure? {
      return Failure(Wrapped(IsHolidayOp, lstDias.error));
    }
    var resultado := false;
    match lstDias.value {
      case NoHolidays =>
        resultado := false;
      case Days(days) =>
        resultado := d in days;
    }
    return Success(resultado);
  }

  // ---------------------------------------------------------------------------
  // Lemmas

  /** The last day moved back over the weekend is the month's last business
      day. */
  lemma WeekendRuleIsLastBusinessDay(y: int, m: int)
    requires ValidMonth(m)
    ensures IsLastBusinessDay(y, m, LastDayBeforeWeekend(y, m))
  {
    var n := DaysInMonth(y, m);
    var q := Weekday(Date(y, m, 1)) + n - 1;
    var best := LastDayBeforeWeekend(y, m);
    WeekdayInMonth(y, m, n);
    WeekdayInMonth(y, m, best);
    ModBack(q, n - best);
    forall e | best < e <= n ensures Weekday(Date(y, m, e)) >= 5 {
      WeekdayInMonth(y, m, e);
      ModBack(q, n - e);
    }
  }

  lemma ModBack(q: int, t: int)
    requires 0 <= t <= q % 7
    ensures (q - t) % 7 == q % 7 - t
  {
    assert q - t == 7 * (q / 7) + (q % 7 - t);
  }

  /** A month's last business day is one of its last three days, and is the
      last day itself when that falls on Monday to Friday. */
  lemma LastBusinessDayBounds(y: int, m: int, d: int)
    requires ValidMonth(m) && IsLastBusinessDay(y, m, d)
    ensures DaysInMonth(y, m) - 2 <= d
    ensures Weekday(Date(y, m, DaysInMonth(y, m))) < 5 ==> d == DaysInMonth(y, m)
  {
    var n := DaysInMonth(y, m);
    WeekdayInMonth(y, m, n);
    WeekdayInMonth(y, m, n - 1);
    WeekdayInMonth(y, m, n - 2);
  }

  /** The day numbers of a month's slice are exactly the holiday days of that
      month, in increasing order. */
  lemma MonthDayNumbers(hol: Table, y: int, m: int, feriados: seq<Date>, lst: seq<int>)
    requires ValidMonth(m)
    requires feriados == Slice(hol, Date(y, m, 1), Date(y, m, DaysInMonth(y, m)))
    requires |lst| == |feriados| && forall k :: 0 <= k < |lst| ==> lst[k] == feriados[k].day
    ensures forall d :: d in lst <==> 1 <= d <= DaysInMonth(y, m) && Date(y, m, d) in hol
    ensures forall i, j :: 0 <= i < j < |lst| ==> lst[i] < lst[j]
    ensures |lst| == 0 <==> forall d :: 1 <= d <= DaysInMonth(y, m) ==> Date(y, m, d) !in hol
  {
    MonthSlice(hol, y, m);
    forall d | 1 <= d <= DaysInMonth(y, m) && Date(y, m, d) in hol ensures d in lst {
      assert Date(y, m, d) in feriados;
      var k :| 0 <= k < |feriados| && feriados[k] == Date(y, m, d);
      assert lst[k] == d;
    }
    forall d | d in lst ensures 1 <= d <= DaysInMonth(y, m) && Date(y, m, d) in hol {
      var k :| 0 <= k < |lst| && lst[k] == d;
      assert feriados[k] in feriados;
    }
    if |lst| > 0 {
      assert feriados[0] in feriados;
    }
  }

  /** Consecutive dates get consecutive labels, Sunday ("Dom") followed by
      Monday ("Seg"). */
  lemma WeekdayNameNext(x: Date)
    requires IsDatetime(x) && IsDatetime(NextDate(x))
    ensures WeekdayName(x.year, x.month, x.day).Success?
    ensures WeekdayName(NextDate(x).year, NextDate(x).month, NextDate(x).day).Success?
    ensures var i := Weekday(x);
      WeekdayName(NextDate(x).year, NextDate(x).month, NextDate(x).day).value
        == WeekdayLabels[(i + 1) % 7]
  {
    WeekdayNext(x);
  }

  /** The month range as the source passes it to the `holidays` package,
      whose slice leaves out its stop date: every date it yields lies in the
      month but before the last day, so a holiday on the last day (Corpus
      Christi on 2018-05-31, say) is in the inclusive slice and missing here. */
  lemma HalfOpenMonthMissesLastDay(hol: Table, y: int, m: int)
    requires ValidMonth(m)
    ensures var start, stop := Date(y, m, 1), Date(y, m, DaysInMonth(y, m));
      forall x :: x in HalfOpenSlice(hol, start, stop) ==>
        x.year == y && x.month == m && 1 <= x.day < DaysInMonth(y, m)
    ensures var start, stop := Date(y, m, 1), Date(y, m, DaysInMonth(y, m));
      stop in hol ==> stop in Slice(hol, start, stop) && stop !in HalfOpenSlice(hol, start, stop)
  {
    var start, stop := Date(y, m, 1), Date(y, m, DaysInMonth(y, m));
    HalfOpenSliceMembers(hol, start, stop);
    forall x | x in HalfOpenSlice(hol, start, stop)
      ensures x.year == y && x.month == m && 1 <= x.day < DaysInMonth(y, m)
    {
      MonthSpan(y, m, x);
      OrdinalOrder(stop, x);
    }
    if stop in hol {
      HalfOpenSliceDropsStop(hol, start, stop);
    }
  }

  // ---------------------------------------------------------------------------
  // Concrete facts

  lemma LastDayExamples()
    ensures LastDayOfMonth(2021, 2) == Success(28)
    ensures LastDayOfMonth(2020, 2) == Success(29)
    ensures LastDayOfMonth(1900, 2) == Success(28)
    ensures LastDayOfMonth(2000, 2) == Success(29)
    ensures LastDayOfMonth(2021, 13) == Failure(OutOfRange(Month))
  {
  }

  /** May 31, 2021 is a Monday. */
  lemma LastBusinessDayMay2021()
    ensures LastBusinessDayOfMonth(2021, 5) == Success(31)
  {
    assert Weekday(Date(2021, 5, 31)) == 0;
  }

  /** July 31, 2021 is a Saturday. */
  lemma LastBusinessDayJuly2021()
    ensures LastBusinessDayOfMonth(2021, 7) == Success(30)
  {
    assert Weekday(Date(2021, 7, 31)) == 5;
    assert Weekday(Date(2021, 7, 30)) == 4;
  }

  /** October 31, 2021 is a Sunday. */
  lemma LastBusinessDayOctober2021()
    ensures LastBusinessDayOfMonth(2021, 10) == Success(29)
  {
    assert Weekday(Date(2021, 10, 31)) == 6;
    assert Weekday(Date(2021, 10, 30)) == 5;
    assert Weekday(Date(2021, 10, 29)) == 4;
  }

  /** The regression case of the source: 1974-05-07 is a Tuesday. */
  lemma WeekdayName1974()
    ensures WeekdayName(1974, 5, 7) == Success("Ter")
  {
    assert Weekday(Date(1974, 5, 7)) == 1;
  }

  /** `datetime` refuses April 31 and February 29 of a common year, after both
      range checks have passed; a day outside 1..31 is refused first. */
  lemma WeekdayNameRefusals()
    ensures WeekdayName(2021, 4, 31) == Failure(Wrapped(WeekdayNameOp, BadDate(Date(2021, 4, 31))))
    ensures WeekdayName(2021, 2, 29) == Failure(Wrapped(WeekdayNameOp, BadDate(Date(2021, 2, 29))))
    ensures WeekdayName(2021, 13, 32) == Failure(OutOfRange(Day))
    ensures WeekdayName(0, 1, 1) == Failure(Wrapped(WeekdayNameOp, BadDate(Date(0, 1, 1))))
  {
  }
}
