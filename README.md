# Persian DateTime extensions — a verified model

`PersianDateTimeExtensions` (ToPersian.cs) is a static C# class. Its extension methods let a
`DateTime` be read and changed in the Persian (Solar Hijri) calendar. This project models
the logic the class writes out itself, as pure Dafny functions, and proves properties
about it:

- the month-length rule and how it relates to the leap years;
- the month arithmetic of `AddPersianMonths`, with C#'s truncating `/` and `%`;
- the month range, the day difference and the range test;
- the week of the month;
- the month-name and day-name lookups;
- the front end of `ParsePersianDate` (splitting, `int.Parse`, handing the date to the calendar);
- the default-pattern choice of `ToPersian` and `ToPersianWithTime`;
- the digit transliteration `ToPersianDigits` / `ToEnglishDigits`.

.NET's `PersianCalendar` (the field `_pc`) is a library object whose algorithm is not part
of this model. It becomes a value `PersianCalendar.Calendar`:

- an arbitrary set of leap years;
- a last supported year `maxYear`;
- the month lengths of ToPersian.cs:104-109, which `_pc.GetDaysInMonth` is taken to agree with;
- validation in `GetDaysInMonth` and `ToDateTime`, which fail with ArgumentOutOfRange outside
  the calendar.

A `DateTime` is a `Moment`: a Persian date and a time of day in 100 ns ticks. Its position on
the time line (`Ticks`) is built from the month and year lengths. The lemma
`TicksOrderIsCalendarOrder` shows that tick order is calendar order.

A thrown exception is a `Results.Result` error that keeps the kind of the original exception:
FormatException or ArgumentOutOfRangeException. `ToPersian` and `ParsePersianDate`
(ToPersian.cs:60-63, 86-89) wrap their failures in a plain `Exception` with a message; the
model does not. `AddPersianMonths` and `GetPersianMonthRange` have no handler, so the
calendar's ArgumentOutOfRangeException reaches their caller as it is.

Modules, one per region of ToPersian.cs:

- `Results` and `CSharpInt` are shared. `CSharpInt` holds C# integer division.
- `PersianCalendar` is the calendar and DateTime model.
- `PersianNames` covers "Persian Names and Text".
- `FormattingParsing` covers "Formatting and Parsing".
- `DateCalculations` covers "Date Calculations and Validations".
- `RangeOperations` covers "Comparison and Range Operations".
- `Digits` covers "Utility Methods".

The table at ToPersian.cs:12-14 starts with Sunday, the same order as `DayOfWeek`; the index
at ToPersian.cs:37 shifts it by one. This is the second finding below.

## Model

| member | source | states |
|---|---|---|
| `PersianCalendar.MonthDays` | ToPersian.cs:99-110 | months 1–6 have 31 days and months 7–11 have 30; month 12 has 30 exactly in a leap year and 29 otherwise; every month has 29–31 days, and only months up to 6 have 31 |
| `PersianCalendar.GetDaysInMonth` | ToPersian.cs:136 | `_pc.GetDaysInMonth` succeeds exactly for a year in 1..maxYear and a month in 1..12, and then gives the month length; otherwise ArgumentOutOfRange |
| `PersianCalendar.ToDateTime` | ToPersian.cs:142 | `_pc.ToDateTime(y, m, d, 0, 0, 0, 0)` succeeds exactly for a valid date and gives that date at midnight; otherwise ArgumentOutOfRange |
| `PersianCalendar.TicksOrderIsCalendarOrder` | ToPersian.cs:174 | DateTime comparison: fewer ticks iff earlier by (year, month, day, time of day); equal ticks iff the same moment |
| `PersianCalendar.PreviousDay` | ToPersian.cs:163 | `AddDays(-1)` gives a valid moment exactly one day of ticks earlier |
| `DateCalculations.YearLength` | ToPersian.cs:94-110 | month 12 has 30 days iff the year is leap (`IsPersianLeapYear`), and the twelve month lengths add up to 366 in a leap year and 365 otherwise |
| `CSharpInt.TruncDiv` | ToPersian.cs:125 | C# `/` by a positive divisor: the remainder left over has the sign of the dividend and is smaller than the divisor |
| `CSharpInt.TruncRem` | ToPersian.cs:126 | C# `%`: dividend = quotient * divisor + remainder, with the remainder's sign that of the dividend |
| `CSharpInt.NegativeIsFloorPlusOne` | ToPersian.cs:130-131 | for a negative dividend, C# division is the floor plus one unless exact, and the remainder is the floored remainder minus the divisor |
| `DateCalculations.ShiftMonth` | ToPersian.cs:119-132 | both branches keep the linear month index `12*year + month`; the month is in 1..12 except exactly in the month-0 case; a sum in 1..12 keeps the year; a sum below 1 moves to a month 1..12 of an earlier year |
| `DateCalculations.ShiftMonthIsFloored` | ToPersian.cs:123-132 | outside the month-0 case, the truncating arithmetic equals floored year/month arithmetic |
| `DateCalculations.ClampDay` | ToPersian.cs:135-140 | the day is clamped to the month length: not above the length, not above the day, and equal to one of them |
| `DateCalculations.AddPersianMonths` | ToPersian.cs:117-143 | every failure is ArgumentOutOfRange; it always fails in the month-0 case; a result is a valid date at midnight with the month index moved by `months` and the day clamped; it succeeds whenever the month-0 case is avoided and the new year is in the calendar |
| `DateCalculations.AddPersianMonthsFloored` | ToPersian.cs:121-142 | corrected month arithmetic: same result shape, and it succeeds exactly when the floored target year is in the calendar |
| `DateCalculations.AddPersianMonthsAgreesWithFloored` | ToPersian.cs:121-136 | the source and the corrected version agree except in the month-0 case, where the source always fails |
| `DateCalculations.EsfandPlusTwelveMonthsFails` | ToPersian.cs:123-136 | 1 Esfand 1403 plus 12 months fails with ArgumentOutOfRange; the corrected version gives 1 Esfand 1404 |
| `DateCalculations.FarvardinMinusOneMonth` | ToPersian.cs:128-142 | 31 Farvardin 1404 minus one month is the last day of Esfand 1403 (30 or 29 as 1403 is leap or not) at midnight |
| `DateCalculations.GetPersianWeekOfMonth` | ToPersian.cs:151-154 | week `w` holds days `7w-6 .. 7w`; days 1..31 fall in weeks 1..5 |
| `DateCalculations.WeekOfMonthMonotone` | ToPersian.cs:153 | a later day of the month is never in an earlier week |
| `RangeOperations.GetPersianMonthRange` | ToPersian.cs:158-165 | failures are ArgumentOutOfRange; the range runs from midnight of day 1 to midnight of the month's last day |
| `RangeOperations.NextMonthStart` | ToPersian.cs:163 | adding one month to the first of a month never meets the month-0 case: it gives the first of the next month, or 1 Farvardin of the next year after Esfand |
| `RangeOperations.MonthRangeExists` | ToPersian.cs:158-165 | for a valid DateTime the range exists exactly when the month after its month is in the calendar |
| `RangeOperations.MonthRangeContents` | ToPersian.cs:158-175 | start <= end; their difference is the month length minus one; a DateTime of the month is in the range iff it is before its last day or at midnight of it |
| `RangeOperations.GetPersianDateDifference` | ToPersian.cs:167-170 | the result is the whole number of days between the two, truncated toward zero, with the sign of the tick difference |
| `RangeOperations.DateDifferenceAntisymmetric` | ToPersian.cs:169 | swapping the arguments negates the difference; a DateTime is 0 days from itself |
| `RangeOperations.DateDifferenceOfMidnights` | ToPersian.cs:169 | between two midnights the difference is the difference of calendar day numbers |
| `RangeOperations.IsBetweenPersianDates` | ToPersian.cs:172-175 | `date >= start && date <= end` on ticks holds iff the date is neither earlier than start nor later than end in calendar order |
| `PersianNames.DayNameTableIsSundayFirst` | ToPersian.cs:12-14 | the day-name table has seven entries, in .NET's `DayOfWeek` order starting with Sunday |
| `PersianNames.MonthNameIndex` | ToPersian.cs:31 | `month - 1` is a valid index into both month tables, and one more than it is the month |
| `PersianNames.GetPersianMonthName` | ToPersian.cs:29-33 | the name at position `month - 1` of the Persian or the English table, as `inEnglish` asks; month 1 is "فروردین"/"Farvardin", month 2 "اردیبهشت"/"Ordibehesht" (Program.cs:22-23), month 12 "اسفند"/"Esfand" |
| `PersianNames.MonthNamesIdentifyMonth` | ToPersian.cs:29-33 | two months get the same name, in either language, iff they are the same month |
| `PersianNames.DayNameIndex` | ToPersian.cs:37 | `(dow + 1) % 7` is in 0..6, is 0 exactly for Saturday, and is the number of the following weekday |
| `PersianNames.DayNameIndexBijective` | ToPersian.cs:37 | the day-name index is a bijection of the weekdays onto 0..6 |
| `PersianNames.GetPersianDayNameAsWritten` | ToPersian.cs:35-39 | as written, the result is the Persian name of the following weekday and never that of the date's own weekday |
| `PersianNames.SundayIsNamedMonday` | ToPersian.cs:35-39 | a Sunday (such as 16 Ordibehesht 1403) is named "دوشنبه", Monday |
| `PersianNames.GetPersianDayName` | ToPersian.cs:35-39 | corrected: the result is the Persian name of the date's own weekday, taken from the table |
| `FormattingParsing.EffectivePattern` | ToPersian.cs:48-51 | the pattern is never empty: the caller's if non-empty, else `yyyy/MM/dd` |
| `FormattingParsing.WithTimePattern` | ToPersian.cs:66-70 | the pattern extends `yyyy/MM/dd`, is kept unchanged by `ToPersian`, and ends in seconds iff they were requested |
| `FormattingParsing.Split` | ToPersian.cs:76 | `Split('/', '-')` gives one more piece than there are separators, no piece holds a separator, and putting the input's separators back between the pieces, in order, gives the input |
| `FormattingParsing.SplitJoin` | ToPersian.cs:76 | splitting separator-free pieces joined with any separators, '/' and '-' mixed, gives the pieces back; with `Split`'s own contract this pins `Split` down |
| `FormattingParsing.IntParse` | ToPersian.cs:80-82 | a parse succeeds exactly on a non-empty string of decimal digits, with a value >= 0; otherwise FormatError |
| `FormattingParsing.IntParseDecimalString` | ToPersian.cs:80-82 | parsing the decimal digits of `n` gives `n` |
| `FormattingParsing.IntParsePadded` | ToPersian.cs:80-82 | parsing a zero-padded number gives the number |
| `FormattingParsing.ParsePersianDate` | ToPersian.cs:72-90 | fewer than three pieces, or a first, second or third piece that does not parse, is FormatError; when the first three pieces parse, the result is the calendar's `ToDateTime` of their values, a valid date at midnight |
| `FormattingParsing.ParseUsesFirstThreeParts` | ToPersian.cs:76-84 | two inputs whose first three pieces agree parse alike |
| `FormattingParsing.ParseDatePatternText` | ToPersian.cs:72-90 | parsing a valid date written as `yyyy/MM/dd` (or with '-') gives back that date at midnight |
| `FormattingParsing.ParseExample` | Program.cs:34 | "1403/02/16" and "1403-02-16" parse to 16 Ordibehesht 1403 at midnight |
| `FormattingParsing.ParseMixedSeparators` | ToPersian.cs:76-84 | "1403/2-16", with both separators and no leading zero, parses to 16 Ordibehesht 1403 |
| `FormattingParsing.ParseTwoPartsFails` | ToPersian.cs:77-78 | "1403/02" is a FormatError |
| `FormattingParsing.ParseIgnoresFourthPart` | ToPersian.cs:76-84 | "1403/02/16/x" parses to 16 Ordibehesht 1403: the fourth piece is ignored |
| `FormattingParsing.ParseMonthThirteenFails` | ToPersian.cs:84 | "1403/13/16" fails in the calendar with ArgumentOutOfRange, not in the parser |
| `Digits.ReplaceChar` | ToPersian.cs:184 | `Replace` of one character: the same length, each occurrence replaced, everything else unchanged |
| `Digits.ReplaceChain` | ToPersian.cs:183-193 | a chain of `Replace` calls acts on each character as the chain of replacements applied to that character alone |
| `Digits.TranslateShiftTable` | ToPersian.cs:183-193 | a chain that maps a run of consecutive characters onto a disjoint run moves each character of the first run to its place in the second and leaves the rest alone |
| `Digits.AsciiToPersianIsDigitMap` | ToPersian.cs:184-193 | the ten replacements of `ToPersianDigits` together map ASCII digit `k` to U+06F0+k and leave every other character |
| `Digits.PersianToAsciiIsDigitMap` | ToPersian.cs:201-210 | the ten replacements of `ToEnglishDigits` together map U+06F0+k to ASCII digit `k` and leave every other character |
| `Digits.ToPersianDigits` | ToPersian.cs:179-194 | the result has the input's length and holds, at each position, the input character with an ASCII digit turned into its Persian digit |
| `Digits.ToEnglishDigits` | ToPersian.cs:196-211 | the result has the input's length and holds, at each position, the input character with a Persian digit turned into its ASCII digit |
| `Digits.ConversionIsComplete` | ToPersian.cs:179-211 | no ASCII digit is left after `ToPersianDigits`, and no Persian digit after `ToEnglishDigits` |
| `Digits.DigitsRoundTrip` | ToPersian.cs:179-211 | `ToEnglishDigits(ToPersianDigits(s)) == s` when `s` has no Persian digit, and the converse round trip when `t` has no ASCII digit |
| `Digits.MixedDigitsDoNotRoundTrip` | ToPersian.cs:179-211 | text that already holds a Persian digit does not survive the round trip: "1۲" comes back as "12" |
| `Digits.PersianDigitsExample` | Program.cs:52 | "1234" becomes "۱۲۳۴" |
| `Digits.EnglishDigitsExample` | Program.cs:53 | "۱۲۳۴" becomes "1234" |

## Left out

- The algorithm of .NET's `PersianCalendar` (ToPersian.cs:7). The leap years are an arbitrary set and the supported years are `1 .. maxYear`. The month lengths are assumed to be those written out at ToPersian.cs:104-109. The library's real last supported date (month 10 of year 9378) is modelled as whole years.
- `GetPersianYear`, `GetPersianMonth`, `GetPersianDay`, `GetPersianDayOfWeek` and `GetPersianDayOfYear` (ToPersian.cs:21-25). These only project a field from the calendar. A `Moment` carries the Persian date directly, and the weekday is an input of the day-name functions.
- `AddPersianYears` and `AddPersianDays` (ToPersian.cs:112-115, 146-149). They call the library's `AddYears` and `AddDays` and add no logic of their own. Only the one day back at ToPersian.cs:163 is modelled, as `PreviousDay`.
- `ToPersian` and `ToPersianWithTime` rendering (ToPersian.cs:53-63), and `ToPersianDateText` (ToPersian.cs:41-44). These are .NET's culture formatting with `CultureInfo("fa-IR")`; only the choice of pattern is modelled.
- The exception wrapping and message texts (ToPersian.cs:60-63, 86-89). An error keeps only the kind of the original exception.
- `IntParse`: leading or trailing white space, a sign, and 32-bit overflow of `int.Parse` are not modelled. Only a plain string of decimal digits parses.
- `ParsePersianDate`: a null string is not modelled.
- `ToPersianDigits`, `ToEnglishDigits`: a null input is not modelled. An empty input is returned as it is.
- `AddPersianMonths`: 32-bit overflow of `currentMonth + months` and of the year is not modelled, because integers are unbounded here.
- `GetPersianDateDifference`: the value goes through the `double` `TotalDays` before the cast to `int`. The model divides the exact tick count by ticks per day, truncating toward zero; rounding of the double and overflow of the cast are not modelled.
- `Ticks` counts from 1 Farvardin of year 1, not from DateTime's own origin. The constant offset does not change any comparison or difference.
- `GetPersianDateDifference`, `IsBetweenPersianDates`: the source never consults the calendar here, so it also accepts DateTimes before 1 Farvardin of year 1 (22 March 622). A `Moment` cannot represent those, so the model covers only DateTimes inside the calendar.
- The month range comes from the source's own `AddPersianMonths`, as written. `NextMonthStart` shows that this call never meets the month-0 defect, and `AddPersianMonthsAgreesWithFloored` shows that outside that case it agrees with the corrected arithmetic.
- Program.cs, a console demonstration. It reads the clock and the console, and only its example values are used, as concrete lemmas.

## Findings

| source | as written | input that shows it | evidently intended | confidence | as-written member | corrected member |
|---|---|---|---|---|---|---|
| ToPersian.cs:123-127 | when `month + months > 12`, the year grows by `newMonth / 12` and the month becomes `newMonth % 12`, which is 0 whenever the sum is a multiple of 12 (24 or more); `_pc.GetDaysInMonth(year, 0)` at line 136 then throws | `AddPersianMonths` on 1 Esfand 1403 (month 12) with `months = 12`: `newMonth = 24` gives year 1405, month 0, and ArgumentOutOfRangeException | 1 Esfand 1404: floored arithmetic on the month index `12*year + month - 1` | high; not executed | `DateCalculations.EsfandPlusTwelveMonthsFails` | `DateCalculations.AddPersianMonthsFloored` |
| ToPersian.cs:37 | the day-name index is `((int)date.DayOfWeek + 1) % 7`, but the table at ToPersian.cs:12-14 is Sunday-first like `DayOfWeek`, so every date gets the name of the following weekday | 16 Ordibehesht 1403 (5 May 2024), a Sunday: index 1, "دوشنبه" (Monday), as the comment at Program.cs:24-25 shows | index `(int)date.DayOfWeek`, "یکشنبه" (Sunday) | high; not executed | `PersianNames.SundayIsNamedMonday` | `PersianNames.GetPersianDayName` |
