/** The "Persian Names and Text" region of ToPersian.cs: looking up month and weekday names
    in the constant name tables of ToPersian.cs:8-18. */
module PersianNames {
  import opened PersianCalendar

  const PersianMonthNames: seq<string> :=
    ["فروردین", "اردیبهشت", "خرداد", "تیر", "مرداد", "شهریور",
     "مهر", "آبان", "آذر", "دی", "بهمن", "اسفند"]

  /** Ordered as in the source, beginning with Sunday; `\U{200C}` is the zero-width
      non-joiner inside the two compound names. */
  const PersianDayNames: seq<string> :=
    ["یکشنبه", "دوشنبه", "سه\U{200C}شنبه", "چهارشنبه", "پنج\U{200C}شنبه", "جمعه", "شنبه"]

  const PersianMonthNamesInEnglish: seq<string> :=
    ["Farvardin", "Ordibehesht", "Khordad", "Tir", "Mordad", "Shahrivar",
     "Mehr", "Aban", "Azar", "Dey", "Bahman", "Esfand"]

  /** .NET's `DayOfWeek`. */
  datatype DayOfWeek = Sunday | Monday | Tuesday | Wednesday | Thursday | Friday | Saturday

  /** `(int)date.DayOfWeek`: .NET numbers the weekdays from Sunday = 0 to Saturday = 6. */
  function DayOfWeekValue(d: DayOfWeek): (i: int)
    ensures 0 <= i <= 6
  {
    match d
    case Sunday => 0
    case Monday => 1
    case Tuesday => 2
    case Wednesday => 3
    case Thursday => 4
    case Friday => 5
    case Saturday => 6
  }

  /** The day after `d`. */
  function NextDay(d: DayOfWeek): DayOfWeek {
    match d
    case Sunday => Monday
    case Monday => Tuesday
    case Tuesday => Wednesday
    case Wednesday => Thursday
    case Thursday => Friday
    case Friday => Saturday
    case Saturday => Sunday
  }

  /** What each weekday is called in Persian. */
  function PersianWeekdayName(d: DayOfWeek): string {
    match d
    case Sunday => "یکشنبه"
    case Monday => "دوشنبه"
    case Tuesday => "سه\U{200C}شنبه"
    case Wednesday => "چهارشنبه"
    case Thursday => "پنج\U{200C}شنبه"
    case Friday => "جمعه"
    case Saturday => "شنبه"
  }

  /** The day-name table lists the weekdays in .NET's order, Sunday first. */
  lemma DayNameTableIsSundayFirst(d: DayOfWeek)
    ensures |PersianDayNames| == 7
    ensures PersianDayNames[DayOfWeekValue(d)] == PersianWeekdayName(d)
  {
  }

  /** The month-name index of `GetPersianMonthName` (ToPersian.cs:31): `month - 1`, a valid
      index into both month tables. */
  function MonthNameIndex(x: Moment): (i: int)
    requires 1 <= x.date.month <= 12
    ensures 0 <= i < |PersianMonthNames| && i < |PersianMonthNamesInEnglish|
    ensures i + 1 == x.date.month
  {
    x.date.month - 1
  }

  /** `GetPersianMonthName` (ToPersian.cs:29-33): the month's name, in Persian or in English
      transliteration. */
  function GetPersianMonthName(x: Moment, inEnglish: bool): (r: string)
    requires 1 <= x.date.month <= 12
    ensures !inEnglish ==> r == PersianMonthNames[x.date.month - 1]
    ensures inEnglish ==> r == PersianMonthNamesInEnglish[x.date.month - 1]
    ensures x.date.month == 1 ==> r == if inEnglish then "Farvardin" else "فروردین"
    ensures x.date.month == 2 ==> r == if inEnglish then "Ordibehesht" else "اردیبهشت"
    ensures x.date.month == 12 ==> r == if inEnglish then "Esfand" else "اسفند"
  {
    if inEnglish then PersianMonthNamesInEnglish[MonthNameIndex(x)]
    else PersianMonthNames[MonthNameIndex(x)]
  }

  /** Different months have different names, in either language, so the name identifies the
      month. */
  lemma MonthNamesIdentifyMonth(x: Moment, y: Moment, inEnglish: bool)
    requires 1 <= x.date.month <= 12 && 1 <= y.date.month <= 12
    ensures GetPersianMonthName(x, inEnglish) == GetPersianMonthName(y, inEnglish)
            <==> x.date.month == y.date.month
  {
  }

  /** The day-name index of `GetPersianDayName` (ToPersian.cs:37), `((int)DayOfWeek + 1) % 7`:
      a valid index, Saturday maps to 0 and no two weekdays share an index. */
  function DayNameIndex(d: DayOfWeek): (i: int)
    ensures 0 <= i < |PersianDayNames|
    ensures i == 0 <==> d == Saturday
    ensures i == DayOfWeekValue(NextDay(d))
  {
    (DayOfWeekValue(d) + 1) % 7
  }

  /** The weekday whose name the source reads at index `i`. */
  function WeekdayAtIndex(i: int): DayOfWeek
    requires 0 <= i <= 6
  {
    match i
    case 0 => Saturday
    case 1 => Sunday
    case 2 => Monday
    case 3 => Tuesday
    case 4 => Wednesday
    case 5 => Thursday
    case _ => Friday
  }

  /** The day-name index is a bijection of the seven weekdays onto 0..6, with inverse
      `WeekdayAtIndex`. */
  lemma DayNameIndexBijective(d: DayOfWeek, i: int)
    requires 0 <= i <= 6
    ensures WeekdayAtIndex(DayNameIndex(d)) == d
    ensures DayNameIndex(WeekdayAtIndex(i)) == i
  {
  }

  /** `GetPersianDayName` (ToPersian.cs:35-39) as written.  The table is Sunday-first, like
      .NET's numbering, so the `+ 1` returns the name of the following weekday. */
  function GetPersianDayNameAsWritten(d: DayOfWeek): (r: string)
    ensures r == PersianWeekdayName(NextDay(d))
    ensures r != PersianWeekdayName(d)
  {
    PersianDayNames[DayNameIndex(d)]
  }

  /** The defect, concretely: 16 Ordibehesht 1403 (5 May 2024) is a Sunday, and the source
      names it "دوشنبه", Monday. */
  lemma SundayIsNamedMonday()
    ensures GetPersianDayNameAsWritten(Sunday) == "دوشنبه" == PersianWeekdayName(Monday)
  {
  }

  /** `GetPersianDayName` as evidently intended: the name of the date's own weekday. */
  function GetPersianDayName(d: DayOfWeek): (r: string)
    ensures r == PersianWeekdayName(d)
    ensures r in PersianDayNames
  {
    DayNameTableIsSundayFirst(d);
    PersianDayNames[DayOfWeekValue(d)]
  }
}
