/** The calendar object `_pc` (ToPersian.cs:7) as far as the extension methods rely on it,
    and the DateTime values they pass around.

    The real object is .NET's `PersianCalendar`, whose algorithm is not part of this model.
    What the extension methods need from it is captured here:
      - a leap-year predicate, left uninterpreted (an arbitrary set of leap years);
      - the range of supported years, `1 .. maxYear`;
      - month lengths, ASSUMED to follow the rule ToPersian.cs:104-109 writes out itself
        (`MonthDays`), for both `GetPersianMonthDays` and `_pc.GetDaysInMonth`;
      - validation in `GetDaysInMonth` and `ToDateTime`, which throw
        ArgumentOutOfRangeException on a year, month or day outside the calendar.
    A DateTime is seen through the calendar as a `Moment`: its Persian date and the time of
    day in 100-nanosecond ticks.  Its position on the time line is `Ticks`, counted from
    1 Farvardin of year 1; the fixed offset of that day from DateTime's own origin does not
    change any comparison or difference, so it is left out. */
module PersianCalendar {
  import opened Results

  /** `_pc`: the years its leap rule makes leap, and the last year it supports. */
  datatype Calendar = Calendar(leapYears: iset<int>, maxYear: int) {
    /** `_pc.IsLeapYear(year)`. */
    predicate IsLeap(year: int) {
      year in leapYears
    }
  }

  datatype PersianDate = PersianDate(year: int, month: int, day: int)

  /** A DateTime: its Persian date and the ticks elapsed since midnight. */
  datatype Moment = Moment(date: PersianDate, time: int)

  /** DateTime's `TimeSpan.TicksPerDay`: 24 * 3600 * 10^7 ticks of 100 ns. */
  const TicksPerDay: int := 864_000_000_000

  /** Length of a Persian month (ToPersian.cs:104-109): 31 days for the first six months,
      30 for the next five, and 30 or 29 for the twelfth, as the year is leap or not. */
  function MonthDays(pc: Calendar, year: int, month: int): (r: int)
    ensures 29 <= r <= 31
    ensures 1 <= month <= 6 ==> r == 31
    ensures 7 <= month <= 11 ==> r == 30
    ensures r == 31 ==> month <= 6
    ensures month == 12 ==> (r == 30 <==> pc.IsLeap(year)) && (r == 29 <==> !pc.IsLeap(year))
  {
    if month <= 6 then 31
    else if month <= 11 then 30
    else if pc.IsLeap(year) then 30 else 29
  }

  /** A date the calendar can represent. */
  predicate ValidDate(pc: Calendar, p: PersianDate) {
    && 1 <= p.year <= pc.maxYear
    && 1 <= p.month <= 12
    && 1 <= p.day <= MonthDays(pc, p.year, p.month)
  }

  /** A DateTime the calendar can represent. */
  predicate ValidMoment(pc: Calendar, x: Moment) {
    ValidDate(pc, x.date) && 0 <= x.time < TicksPerDay
  }

  /** `_pc.GetDaysInMonth(year, month)`: throws on a year or month outside the calendar. */
  function GetDaysInMonth(pc: Calendar, year: int, month: int): (r: Result<int>)
    ensures r.Ok? <==> 1 <= year <= pc.maxYear && 1 <= month <= 12
    ensures r.Err? ==> r.error == ArgumentOutOfRange
    ensures r.Ok? ==> r.value == MonthDays(pc, year, month)
  {
    if 1 <= year <= pc.maxYear && 1 <= month <= 12 then Ok(MonthDays(pc, year, month))
    else Err(ArgumentOutOfRange)
  }

  /** `_pc.ToDateTime(year, month, day, 0, 0, 0, 0)` (every call in the source passes a zero
      time of day): the midnight that starts the given date, or ArgumentOutOfRange. */
  function ToDateTime(pc: Calendar, year: int, month: int, day: int): (r: Result<Moment>)
    ensures r.Ok? <==> ValidDate(pc, PersianDate(year, month, day))
    ensures r.Err? ==> r.error == ArgumentOutOfRange
    ensures r.Ok? ==> ValidMoment(pc, r.value) && r.value.time == 0
    ensures r.Ok? ==> r.value.date == PersianDate(year, month, day)
  {
    if ValidDate(pc, PersianDate(year, month, day)) then Ok(Moment(PersianDate(year, month, day), 0))
    else Err(ArgumentOutOfRange)
  }

  /** Length of a year: 366 days in a leap year, else 365. */
  function YearDays(pc: Calendar, year: int): int {
    if pc.IsLeap(year) then 366 else 365
  }

  /** Days of `year` before the first of `month`; with `month == 13`, the length of the
      year. */
  function DaysBeforeMonth(pc: Calendar, year: int, month: int): (r: int)
    requires 1 <= month <= 13
    ensures month <= 7 ==> r == 31 * (month - 1)
    ensures 7 <= month <= 12 ==> r == 186 + 30 * (month - 7)
    ensures month == 13 ==> r == YearDays(pc, year)
    decreases month
  {
    if month == 1 then 0 else DaysBeforeMonth(pc, year, month - 1) + MonthDays(pc, year, month - 1)
  }

  /** Days in the years before `year`, counted from year 1. */
  function DaysBeforeYear(pc: Calendar, year: int): (r: int)
    requires year >= 1
    ensures 365 * (year - 1) <= r <= 366 * (year - 1)
    decreases year
  {
    if year == 1 then 0 else DaysBeforeYear(pc, year - 1) + YearDays(pc, year - 1)
  }

  /** Days from 1 Farvardin of year 1 to the given date. */
  function DayNumber(pc: Calendar, p: PersianDate): int
    requires p.year >= 1 && 1 <= p.month <= 12
  {
    DaysBeforeYear(pc, p.year) + DaysBeforeMonth(pc, p.year, p.month) + p.day - 1
  }

  /** The DateTime's position on the time line, in ticks from 1 Farvardin of year 1. */
  function Ticks(pc: Calendar, x: Moment): int
    requires x.date.year >= 1 && 1 <= x.date.month <= 12
  {
    DayNumber(pc, x.date) * TicksPerDay + x.time
  }

  /** Calendar order on moments: by year, then month, then day, then time of day. */
  predicate Earlier(a: Moment, b: Moment) {
    || a.date.year < b.date.year
    || (a.date.year == b.date.year && a.date.month < b.date.month)
    || (a.date.year == b.date.year && a.date.month == b.date.month && a.date.day < b.date.day)
    || (a.date == b.date && a.time < b.time)
  }

  /** Later years start later. */
  lemma {:induction false} DaysBeforeYearMonotone(pc: Calendar, y1: int, y2: int)
    requires 1 <= y1 <= y2
    ensures DaysBeforeYear(pc, y1) + 365 * (y2 - y1) <= DaysBeforeYear(pc, y2)
    decreases y2 - y1
  {
    if y1 < y2 {
      DaysBeforeYearMonotone(pc, y1, y2 - 1);
    }
  }

  /** A valid date falls inside its own year and its own month on the day line. */
  lemma DayNumberBounds(pc: Calendar, p: PersianDate)
    requires ValidDate(pc, p)
    ensures DaysBeforeYear(pc, p.year) + DaysBeforeMonth(pc, p.year, p.month)
            <= DayNumber(pc, p)
            < DaysBeforeYear(pc, p.year) + DaysBeforeMonth(pc, p.year, p.month + 1)
    ensures DayNumber(pc, p) < DaysBeforeYear(pc, p.year + 1)
  {
    assert DaysBeforeMonth(pc, p.year, p.month + 1)
        == DaysBeforeMonth(pc, p.year, p.month) + MonthDays(pc, p.year, p.month);
  }

  /** Dates of an earlier year have smaller day numbers. */
  lemma EarlierYearHasSmallerDayNumber(pc: Calendar, p: PersianDate, q: PersianDate)
    requires ValidDate(pc, p) && ValidDate(pc, q) && p.year < q.year
    ensures DayNumber(pc, p) < DayNumber(pc, q)
  {
    DayNumberBounds(pc, p);
    DaysBeforeYearMonotone(pc, p.year + 1, q.year);
  }

  /** Within a year, dates of an earlier month have smaller day numbers. */
  lemma EarlierMonthHasSmallerDayNumber(pc: Calendar, p: PersianDate, q: PersianDate)
    requires ValidDate(pc, p) && ValidDate(pc, q) && p.year == q.year && p.month < q.month
    ensures DayNumber(pc, p) < DayNumber(pc, q)
  {
    DayNumberBounds(pc, p);
    var m1, m2 := DaysBeforeMonth(pc, p.year, p.month + 1), DaysBeforeMonth(pc, q.year, q.month);
    assert m1 <= m2;
  }

  /** Of two valid dates, the one earlier in the calendar has the smaller day number. */
  lemma EarlierDateHasSmallerDayNumber(pc: Calendar, p: PersianDate, q: PersianDate)
    requires ValidDate(pc, p) && ValidDate(pc, q)
    requires p.year < q.year || (p.year == q.year && p.month < q.month)
             || (p.year == q.year && p.month == q.month && p.day < q.day)
    ensures DayNumber(pc, p) < DayNumber(pc, q)
  {
    if p.year < q.year {
      EarlierYearHasSmallerDayNumber(pc, p, q);
    } else if p.month < q.month {
      EarlierMonthHasSmallerDayNumber(pc, p, q);
    }
  }

  /** DateTime's tick order is the calendar order: an earlier date or time has fewer ticks. */
  lemma EarlierHasFewerTicks(pc: Calendar, a: Moment, b: Moment)
    requires ValidMoment(pc, a) && ValidMoment(pc, b)
    requires Earlier(a, b)
    ensures Ticks(pc, a) < Ticks(pc, b)
  {
    if a.date != b.date {
      EarlierDateHasSmallerDayNumber(pc, a.date, b.date);
      var da, db := DayNumber(pc, a.date), DayNumber(pc, b.date);
      assert da * TicksPerDay + TicksPerDay <= db * TicksPerDay;
    }
  }

  /** Comparing two DateTimes by ticks is comparing their Persian dates and times of day;
      in particular the ticks determine the moment. */
  lemma TicksOrderIsCalendarOrder(pc: Calendar, a: Moment, b: Moment)
    requires ValidMoment(pc, a) && ValidMoment(pc, b)
    ensures Ticks(pc, a) < Ticks(pc, b) <==> Earlier(a, b)
    ensures Ticks(pc, a) == Ticks(pc, b) <==> a == b
  {
    if Earlier(a, b) {
      EarlierHasFewerTicks(pc, a, b);
    } else if Earlier(b, a) {
      EarlierHasFewerTicks(pc, b, a);
    }
  }

  /** `DateTime.AddDays(-1)`: the same time of day on the previous calendar day.  Defined for
      every DateTime of the calendar except those on its first day, which have no
      predecessor in it. */
  function PreviousDay(pc: Calendar, x: Moment): (r: Moment)
    requires ValidMoment(pc, x) && x.date != PersianDate(1, 1, 1)
    ensures ValidMoment(pc, r)
    ensures Ticks(pc, r) == Ticks(pc, x) - TicksPerDay
  {
    var p := x.date;
    if p.day > 1 then Moment(PersianDate(p.year, p.month, p.day - 1), x.time)
    else if p.month > 1 then Moment(PersianDate(p.year, p.month - 1, MonthDays(pc, p.year, p.month - 1)), x.time)
    else Moment(PersianDate(p.year - 1, 12, MonthDays(pc, p.year - 1, 12)), x.time)
  }
}
