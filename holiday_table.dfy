/** The holiday rule table that `holidays.Brazil()` supplies, kept abstract as a
    set of dates (it covers every year, so it may be infinite), and the slice
    `table[start : stop]` through which `date_holidays.py` reads it. */
module HolidayTable {
  import opened Calendar

  type Table = iset<Date>

  /** The dates of a list follow one another strictly in calendar order, so
      none appears twice. */
  predicate Ascending(s: seq<Date>) {
    (forall i :: 0 <= i < |s| ==> ValidDate(s[i]))
    && forall i, j :: 0 <= i < j < |s| ==> ValidDate(s[i]) && ValidDate(s[j]) && Ordinal(s[i]) < Ordinal(s[j])
  }

  /** `table[start : stop]` read as the inclusive range the caller means: the
      holidays from `start` to `stop`, both included, visited day by day. */
  function Slice(hol: Table, start: Date, stop: Date): (s: seq<Date>)
    requires ValidDate(start) && ValidDate(stop)
    ensures forall x :: x in s ==> ValidDate(x) && x in hol
    decreases Ordinal(stop) - Ordinal(start)
  {
    if Ordinal(stop) < Ordinal(start) then []
    else (if start in hol then [start] else []) + Slice(hol, NextDate(start), stop)
  }

  /** `table[start : stop]` as the `holidays` package computes it for `start`
      no later than `stop`: `range(0, (stop - start).days)` days from `start`,
      so `stop` itself is never visited. */
  function HalfOpenSlice(hol: Table, start: Date, stop: Date): (s: seq<Date>)
    requires ValidDate(start) && ValidDate(stop)
    ensures forall x :: x in s ==> ValidDate(x) && x in hol
    decreases Ordinal(stop) - Ordinal(start)
  {
    if Ordinal(stop) <= Ordinal(start) then []
    else (if start in hol then [start] else []) + HalfOpenSlice(hol, NextDate(start), stop)
  }

  // ---------------------------------------------------------------------------
  // Lemmas

  /** The slice holds exactly the holidays whose ordinal lies between those of
      `start` and `stop`, in ascending order. */
  lemma {:induction false} SliceMembers(hol: Table, start: Date, stop: Date)
    requires ValidDate(start) && ValidDate(stop)
    ensures forall x :: x in Slice(hol, start, stop) <==>
              ValidDate(x) && x in hol && Ordinal(start) <= Ordinal(x) <= Ordinal(stop)
    ensures Ascending(Slice(hol, start, stop))
    decreases Ordinal(stop) - Ordinal(start)
  {
    if Ordinal(start) <= Ordinal(stop) {
      var next := NextDate(start);
      var head := if start in hol then [start] else [];
      var rest := Slice(hol, next, stop);
      SliceMembers(hol, next, stop);
      assert Slice(hol, start, stop) == head + rest;
      forall x | ValidDate(x) ensures x == start <==> Ordinal(x) == Ordinal(start) {
        OrdinalOrder(x, start);
      }
      AscendingCons(head, rest, start);
    }
  }

  /** The slice from the 1st to the last day of a month holds exactly the
      holidays of that month, in increasing order of day. */
  lemma MonthSlice(hol: Table, y: int, m: int)
    requires 1 <= m <= 12
    ensures var f := Slice(hol, Date(y, m, 1), Date(y, m, DaysInMonth(y, m)));
      forall x :: x in f <==> x.year == y && x.month == m && 1 <= x.day <= DaysInMonth(y, m) && x in hol
    ensures var f := Slice(hol, Date(y, m, 1), Date(y, m, DaysInMonth(y, m)));
      forall i, j :: 0 <= i < j < |f| ==> f[i].day < f[j].day
  {
    var start, stop := Date(y, m, 1), Date(y, m, DaysInMonth(y, m));
    var f := Slice(hol, start, stop);
    SliceMembers(hol, start, stop);
    forall x | ValidDate(x) ensures Ordinal(start) <= Ordinal(x) <= Ordinal(stop) <==> x.year == y && x.month == m {
      MonthSpan(y, m, x);
    }
    forall i, j | 0 <= i < j < |f| ensures f[i].day < f[j].day {
      assert f[i] in f && f[j] in f;
    }
  }

  /** The `holidays` package's slice holds the holidays from `start` up to,
      but not including, `stop`. */
  lemma {:induction false} HalfOpenSliceMembers(hol: Table, start: Date, stop: Date)
    requires ValidDate(start) && ValidDate(stop)
    ensures forall x :: x in HalfOpenSlice(hol, start, stop) <==>
              ValidDate(x) && x in hol && Ordinal(start) <= Ordinal(x) < Ordinal(stop)
    decreases Ordinal(stop) - Ordinal(start)
  {
    if Ordinal(start) < Ordinal(stop) {
      var next := NextDate(start);
      HalfOpenSliceMembers(hol, next, stop);
      assert HalfOpenSlice(hol, start, stop)
          == (if start in hol then [start] else []) + HalfOpenSlice(hol, next, stop);
      forall x | ValidDate(x) ensures x == start <==> Ordinal(x) == Ordinal(start) {
        OrdinalOrder(x, start);
      }
    }
  }

  /** A holiday on the stop date is in the inclusive slice but never in the
      `holidays` package's slice. */
  lemma HalfOpenSliceDropsStop(hol: Table, start: Date, stop: Date)
    requires ValidDate(start) && ValidDate(stop)
    requires Ordinal(start) <= Ordinal(stop) && stop in hol
    ensures stop in Slice(hol, start, stop)
    ensures stop !in HalfOpenSlice(hol, start, stop)
  {
    SliceMembers(hol, start, stop);
    HalfOpenSliceMembers(hol, start, stop);
  }

  lemma AscendingCons(head: seq<Date>, rest: seq<Date>, d: Date)
    requires ValidDate(d) && (head == [] || head == [d])
    requires Ascending(rest)
    requires forall x :: x in rest ==> ValidDate(x) && Ordinal(d) < Ordinal(x)
    ensures Ascending(head + rest)
  {
    if head == [d] {
      var s := [d] + rest;
      forall i | 0 <= i < |s| ensures ValidDate(s[i]) {
        if i > 0 { assert s[i] == rest[i - 1]; }
      }
      forall i, j | 0 <= i < j < |s|
        ensures ValidDate(s[i]) && ValidDate(s[j]) && Ordinal(s[i]) < Ordinal(s[j])
      {
        assert s[j] == rest[j - 1];
        if i > 0 {
          assert s[i] == rest[i - 1];
        } else {
          assert s[j] in rest;
        }
      }
    } else {
      assert head + rest == rest;
    }
  }
}
