/** The "Date Calculations and Validations" region of ToPersian.cs: month lengths of a
    DateTime, month arithmetic and the week of the month. */
module DateCalculations {
  import opened Results
  import opened CSharpInt
  import opened PersianCalendar

  /** `IsPersianLeapYear` (ToPersian.cs:94-97) and `GetPersianMonthDays` (ToPersian.cs:99-110)
      on a DateTime: the twelfth month is 30 days long exactly in a leap year, and the twelve
      months add up to the year's 365 or 366 days. */
  lemma YearLength(pc: Calendar, x: Moment)
    requires ValidMoment(pc, x)
    ensures MonthDays(pc, x.date.year, 12) == 30 <==> pc.IsLeap(x.date.year)
    ensures DaysBeforeMonth(pc, x.date.year, 12) + MonthDays(pc, x.date.year, 12)
            == if pc.IsLeap(x.date.year) then 366 else 365
    ensures 1 <= x.date.day <= MonthDays(pc, x.date.year, x.date.month)
  {
    assert DaysBeforeMonth(pc, x.date.year, 13)
        == DaysBeforeMonth(pc, x.date.year, 12) + MonthDays(pc, x.date.year, 12);
  }

  /** The month arithmetic of `AddPersianMonths` (ToPersian.cs:119-132), with C#'s truncating
      `/` and `%`: the (year, month) reached by moving `months` months from (year, month).
      The linear month count is always kept, but a sum `month + months` that is a multiple of
      12 and at least 24 lands on month 0. */
  function ShiftMonth(year: int, month: int, months: int): (r: (int, int))
    ensures 12 * r.0 + r.1 == 12 * year + month + months
    ensures 1 <= r.1 <= 12 <==> !MonthZeroCase(month, months)
    ensures 1 <= month + months <= 12 ==> r.0 == year
    ensures month + months < 1 ==> r.0 < year && 1 <= r.1 <= 12
  {
    var newMonth := month + months;
    if newMonth > 12 then
      (year + TruncDiv(newMonth, 12), TruncRem(newMonth, 12))
    else if newMonth < 1 then
      (year + TruncDiv(newMonth - 12, 12), 12 + TruncRem(newMonth, 12))
    else
      (year, newMonth)
  }

  /** The inputs on which the positive branch of `AddPersianMonths` computes month 0. */
  predicate MonthZeroCase(month: int, months: int) {
    month + months >= 24 && (month + months) % 12 == 0
  }

  /** The (year, month) `months` months after (year, month), with floored division, as the
      month count 12 * year + month - 1 determines it. */
  function FlooredShift(year: int, month: int, months: int): (r: (int, int))
    ensures 12 * r.0 + r.1 == 12 * year + month + months
    ensures 1 <= r.1 <= 12
  {
    var index := 12 * year + (month - 1) + months;
    (index / 12, index % 12 + 1)
  }

  /** A month count fixes the (year, month) with month in 1..12. */
  lemma YearMonthUnique(y1: int, m1: int, y2: int, m2: int)
    requires 1 <= m1 <= 12 && 1 <= m2 <= 12
    requires 12 * y1 + m1 == 12 * y2 + m2
    ensures y1 == y2 && m1 == m2
  {
  }

  /** Outside the month-0 case the source's truncating arithmetic is floored division. */
  lemma ShiftMonthIsFloored(year: int, month: int, months: int)
    requires !MonthZeroCase(month, months)
    ensures ShiftMonth(year, month, months) == FlooredShift(year, month, months)
  {
    var r, f := ShiftMonth(year, month, months), FlooredShift(year, month, months);
    YearMonthUnique(r.0, r.1, f.0, f.1);
  }

  /** `min(day, length)`: the day clamped to the last day of the month. */
  function ClampDay(day: int, length: int): (r: int)
    ensures r <= length && r <= day && (r == day || r == length)
  {
    if day > length then length else day
  }

  /** `AddPersianMonths` (ToPersian.cs:117-143) as written: move the Persian month, clamp the
      day to the new month's length, and return that day at midnight.  The calendar rejects
      a year outside its range and, in the month-0 case, the month. */
  function AddPersianMonths(pc: Calendar, x: Moment, months: int): (r: Result<Moment>)
    ensures r.Err? ==> r.error == ArgumentOutOfRange
    ensures MonthZeroCase(x.date.month, months) ==> r.Err?
    ensures r.Ok? ==> ValidMoment(pc, r.value) && r.value.time == 0
    ensures r.Ok? ==> 12 * r.value.date.year + r.value.date.month
                      == 12 * x.date.year + x.date.month + months
    ensures r.Ok? ==> r.value.date.day
                      == ClampDay(x.date.day, MonthDays(pc, r.value.date.year, r.value.date.month))
    ensures (&& x.date.day >= 1 && !MonthZeroCase(x.date.month, months)
             && 1 <= ShiftMonth(x.date.year, x.date.month, months).0 <= pc.maxYear) ==> r.Ok?
  {
    var (year, month) := ShiftMonth(x.date.year, x.date.month, months);
    var daysInNewMonth :- GetDaysInMonth(pc, year, month);
    var day := ClampDay(x.date.day, daysInNewMonth);
    ToDateTime(pc, year, month, day)
  }

  /** Month arithmetic as evidently intended: floored division throughout, so that every
      offset lands on a month 1..12.  It fails only when the year leaves the calendar. */
  function AddPersianMonthsFloored(pc: Calendar, x: Moment, months: int): (r: Result<Moment>)
    ensures r.Err? ==> r.error == ArgumentOutOfRange
    ensures r.Ok? ==> ValidMoment(pc, r.value) && r.value.time == 0
    ensures r.Ok? ==> 12 * r.value.date.year + r.value.date.month
                      == 12 * x.date.year + x.date.month + months
    ensures r.Ok? ==> r.value.date.day
                      == ClampDay(x.date.day, MonthDays(pc, r.value.date.year, r.value.date.month))
    ensures x.date.day >= 1 ==>
              (r.Ok? <==> 1 <= FlooredShift(x.date.year, x.date.month, months).0 <= pc.maxYear)
  {
    var (year, month) := FlooredShift(x.date.year, x.date.month, months);
    var daysInNewMonth :- GetDaysInMonth(pc, year, month);
    ToDateTime(pc, year, month, ClampDay(x.date.day, daysInNewMonth))
  }

  /** The source and the corrected arithmetic agree on every offset outside the month-0
      case, which is the one place the source fails where the calendar would not. */
  lemma AddPersianMonthsAgreesWithFloored(pc: Calendar, x: Moment, months: int)
    ensures !MonthZeroCase(x.date.month, months) ==>
              AddPersianMonths(pc, x, months) == AddPersianMonthsFloored(pc, x, months)
    ensures MonthZeroCase(x.date.month, months) ==> AddPersianMonths(pc, x, months).Err?
  {
    if !MonthZeroCase(x.date.month, months) {
      ShiftMonthIsFloored(x.date.year, x.date.month, months);
    }
  }

  /** The defect, concretely: Esfand plus twelve months fails in the source, although the
      same day a year later exists. */
  lemma EsfandPlusTwelveMonthsFails(pc: Calendar, t: int)
    requires pc.maxYear >= 1404
    ensures AddPersianMonths(pc, Moment(PersianDate(1403, 12, 1), t), 12) == Err(ArgumentOutOfRange)
    ensures AddPersianMonthsFloored(pc, Moment(PersianDate(1403, 12, 1), t), 12)
            == Ok(Moment(PersianDate(1404, 12, 1), 0))
  {
    assert ShiftMonth(1403, 12, 12) == (1405, 0);
  }

  /** Stepping back from the first month lands on the last month of the previous year,
      clamping the day: 31 Farvardin 1404 minus one month is the last day of Esfand 1403. */
  lemma FarvardinMinusOneMonth(pc: Calendar, t: int)
    requires pc.maxYear >= 1404
    ensures AddPersianMonths(pc, Moment(PersianDate(1404, 1, 31), t), -1)
            == Ok(Moment(PersianDate(1403, 12, if pc.IsLeap(1403) then 30 else 29), 0))
  {
    assert ShiftMonth(1404, 1, -1) == (1403, 12);
  }

  /** `GetPersianWeekOfMonth` (ToPersian.cs:151-154): `(day - 1) / 7 + 1` in C#.  Week `w`
      holds days 7w - 6 .. 7w, so a month of at most 31 days has weeks 1 to 5. */
  function GetPersianWeekOfMonth(x: Moment): (w: int)
    ensures x.date.day >= 1 ==> 7 * (w - 1) < x.date.day <= 7 * w
    ensures 1 <= x.date.day <= 31 ==> 1 <= w <= 5
  {
    TruncDiv(x.date.day - 1, 7) + 1
  }

  /** A later day of the month is never in an earlier week. */
  lemma WeekOfMonthMonotone(a: Moment, b: Moment)
    requires 1 <= a.date.day <= b.date.day
    ensures GetPersianWeekOfMonth(a) <= GetPersianWeekOfMonth(b)
  {
  }
}
