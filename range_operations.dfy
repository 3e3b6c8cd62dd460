/** The "Comparison and Range Operations" region of ToPersian.cs: the range of days of a
    Persian month, the difference in days between two DateTimes and the range test. */
module RangeOperations {
  import opened Results
  import opened CSharpInt
  import opened PersianCalendar
  import opened DateCalculations

  /** `GetPersianMonthRange` (ToPersian.cs:158-165): midnight of the first day of the date's
      Persian month, and one month later minus one day, i.e. midnight of the month's last day.
      The one month is added by the source's own `AddPersianMonths`, which can only fail here
      because the month after the calendar's last one is outside it. */
  function GetPersianMonthRange(pc: Calendar, x: Moment): (r: Result<(Moment, Moment)>)
    ensures r.Err? ==> r.error == ArgumentOutOfRange
    ensures r.Ok? ==> r.value.0 == Moment(PersianDate(x.date.year, x.date.month, 1), 0)
    ensures r.Ok? ==> r.value.1 == Moment(PersianDate(x.date.year, x.date.month,
                                                      MonthDays(pc, x.date.year, x.date.month)), 0)
  {
    var start :- ToDateTime(pc, x.date.year, x.date.month, 1);
    var next :- AddPersianMonths(pc, start, 1);
    Ok((start, PreviousDay(pc, next)))
  }

  /** The month after the start of a month is the first of the next month: adding one month
      never meets the month-0 case, since the month was at most 12. */
  lemma NextMonthStart(pc: Calendar, x: Moment)
    requires ValidMoment(pc, x) && (x.date.year < pc.maxYear || x.date.month < 12)
    ensures AddPersianMonths(pc, Moment(PersianDate(x.date.year, x.date.month, 1), 0), 1)
            == Ok(Moment(if x.date.month < 12 then PersianDate(x.date.year, x.date.month + 1, 1)
                         else PersianDate(x.date.year + 1, 1, 1), 0))
  {
    assert !MonthZeroCase(x.date.month, 1);
  }

  /** The range exists exactly when the month after the date's month is in the calendar. */
  lemma MonthRangeExists(pc: Calendar, x: Moment)
    requires ValidMoment(pc, x)
    ensures GetPersianMonthRange(pc, x).Ok? <==> x.date.year < pc.maxYear || x.date.month < 12
  {
    if x.date.year < pc.maxYear || x.date.month < 12 {
      NextMonthStart(pc, x);
    }
  }

  /** `GetPersianDateDifference` (ToPersian.cs:167-170): `(int)(date2 - date1).TotalDays`, the
      signed number of whole days from `a` to `b`, truncated toward zero. */
  function GetPersianDateDifference(pc: Calendar, a: Moment, b: Moment): (r: int)
    requires ValidMoment(pc, a) && ValidMoment(pc, b)
    ensures Ticks(pc, a) <= Ticks(pc, b) ==>
              0 <= r && r * TicksPerDay <= Ticks(pc, b) - Ticks(pc, a) < (r + 1) * TicksPerDay
    ensures Ticks(pc, b) < Ticks(pc, a) ==>
              r <= 0 && (r - 1) * TicksPerDay < Ticks(pc, b) - Ticks(pc, a) <= r * TicksPerDay
  {
    TruncDiv(Ticks(pc, b) - Ticks(pc, a), TicksPerDay)
  }

  /** Swapping the two DateTimes negates the difference, and a DateTime is no day away from
      itself. */
  lemma DateDifferenceAntisymmetric(pc: Calendar, a: Moment, b: Moment)
    requires ValidMoment(pc, a) && ValidMoment(pc, b)
    ensures GetPersianDateDifference(pc, a, b) == -GetPersianDateDifference(pc, b, a)
    ensures GetPersianDateDifference(pc, a, a) == 0
  {
  }

  /** Between two midnights the difference is exactly the distance in calendar days. */
  lemma DateDifferenceOfMidnights(pc: Calendar, a: Moment, b: Moment)
    requires ValidMoment(pc, a) && ValidMoment(pc, b) && a.time == 0 && b.time == 0
    ensures GetPersianDateDifference(pc, a, b) == DayNumber(pc, b.date) - DayNumber(pc, a.date)
  {
  }

  /** `IsBetweenPersianDates` (ToPersian.cs:172-175): `date >= start && date <= end` on
      DateTime, i.e. on ticks.  In calendar terms the test is inclusive at both ends: the date
      is neither earlier than the start nor later than the end. */
  predicate IsBetweenPersianDates(pc: Calendar, x: Moment, start: Moment, end: Moment): (b: bool)
    requires ValidMoment(pc, x) && ValidMoment(pc, start) && ValidMoment(pc, end)
    ensures b <==> !Earlier(x, start) && !Earlier(end, x)
  {
    TicksOrderIsCalendarOrder(pc, x, start);
    TicksOrderIsCalendarOrder(pc, end, x);
    Ticks(pc, start) <= Ticks(pc, x) && Ticks(pc, x) <= Ticks(pc, end)
  }

  /** The month range starts no later than it ends, spans the month's length less one day,
      and holds every DateTime of the month except those after midnight on its last day:
      its end is that midnight, not the end of that day. */
  lemma MonthRangeContents(pc: Calendar, x: Moment)
    requires ValidMoment(pc, x) && (x.date.year < pc.maxYear || x.date.month < 12)
    ensures GetPersianMonthRange(pc, x).Ok?
    ensures var (s, e) := GetPersianMonthRange(pc, x).value;
            && ValidMoment(pc, s) && ValidMoment(pc, e)
            && Ticks(pc, s) <= Ticks(pc, e)
            && GetPersianDateDifference(pc, s, e) == MonthDays(pc, x.date.year, x.date.month) - 1
            && (IsBetweenPersianDates(pc, x, s, e)
                <==> x.date.day < MonthDays(pc, x.date.year, x.date.month) || x.time == 0)
  {
    NextMonthStart(pc, x);
    var (s, e) := GetPersianMonthRange(pc, x).value;
    assert s.date.day <= e.date.day;
    TicksOrderIsCalendarOrder(pc, s, e);
  }
}
