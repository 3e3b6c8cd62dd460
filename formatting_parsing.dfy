/** The "Formatting and Parsing" region of ToPersian.cs: the choice of format pattern and
    the front end of `ParsePersianDate`.  Rendering a pattern with the fa-IR culture is .NET's
    own formatting and is not modelled. */
module FormattingParsing {
  import opened Results
  import opened PersianCalendar
  import opened Digits

  /** The pattern `ToPersian` falls back to. */
  const DefaultPattern: string := "yyyy/MM/dd"

  /** The pattern `ToPersian` (ToPersian.cs:48-51) renders with: the caller's, unless it is
      empty, then the default date pattern.  Never empty. */
  function EffectivePattern(format: string): (r: string)
    ensures r != []
    ensures format != [] ==> r == format
    ensures format == [] ==> r == DefaultPattern
  {
    if format == [] then DefaultPattern else format
  }

  /** The pattern `ToPersianWithTime` (ToPersian.cs:66-70) passes on: the default date
      pattern followed by hours and minutes, and seconds on request.  `ToPersian` keeps it. */
  function WithTimePattern(includeSeconds: bool): (r: string)
    ensures |r| > |DefaultPattern| && r[..|DefaultPattern|] == DefaultPattern
    ensures EffectivePattern(r) == r
    ensures includeSeconds <==> r[|r| - 3..] == ":ss"
  {
    if includeSeconds then "yyyy/MM/dd HH:mm:ss" else "yyyy/MM/dd HH:mm"
  }

  /** The two separators `ParsePersianDate` splits on. */
  predicate IsSeparator(c: char) {
    c == '/' || c == '-'
  }

  predicate NoSeparator(s: string) {
    forall i :: 0 <= i < |s| ==> !IsSeparator(s[i])
  }

  /** The separators of `s`, in order. */
  function Separators(s: string): (seps: string)
    ensures forall i :: 0 <= i < |seps| ==> IsSeparator(seps[i])
  {
    if s == [] then [] else (if IsSeparator(s[0]) then [s[0]] else []) + Separators(s[1..])
  }

  /** The pieces with the separators between them: piece 0, separator 0, piece 1, ... */
  function Join(parts: seq<string>, seps: string): string
    requires |parts| == |seps| + 1
    decreases |seps|
  {
    if seps == [] then parts[0] else parts[0] + [seps[0]] + Join(parts[1..], seps[1..])
  }

  /** A character put in front of the first piece comes first in the joined text. */
  lemma JoinPrepend(c: char, parts: seq<string>, seps: string)
    requires |parts| == |seps| + 1
    ensures Join([[c] + parts[0]] + parts[1..], seps) == [c] + Join(parts, seps)
  {
    var moved := [[c] + parts[0]] + parts[1..];
    if seps != [] {
      assert moved[1..] == parts[1..];
      var tail := [seps[0]] + Join(parts[1..], seps[1..]);
      assert ([c] + parts[0]) + tail == [c] + (parts[0] + tail);
    }
  }

  /** An empty first piece puts the first separator first in the joined text. */
  lemma JoinEmptyFirst(c: char, parts: seq<string>, seps: string)
    requires |parts| == |seps| + 1
    ensures Join([[]] + parts, [c] + seps) == [c] + Join(parts, seps)
  {
    assert ([[]] + parts)[1..] == parts && ([c] + seps)[1..] == seps;
  }

  /** `s.Split('/', '-')` (ToPersian.cs:76): the pieces between separators, empty ones kept.
      There is one more piece than there are separators, no piece holds a separator, and
      putting the separators back between the pieces gives `s`. */
  function Split(s: string): (parts: seq<string>)
    ensures |parts| == |Separators(s)| + 1
    ensures forall i :: 0 <= i < |parts| ==> NoSeparator(parts[i])
    ensures Join(parts, Separators(s)) == s
  {
    if s == [] then [[]]
    else
      var rest := Split(s[1..]);
      assert [s[0]] + s[1..] == s;
      if IsSeparator(s[0]) then
        JoinEmptyFirst(s[0], rest, Separators(s[1..]));
        [[]] + rest
      else
        assert Separators(s) == [] + Separators(s[1..]) == Separators(s[1..]);
        JoinPrepend(s[0], rest, Separators(s[1..]));
        [[s[0]] + rest[0]] + rest[1..]
  }

  /** Text without separators stays together with whatever follows it. */
  lemma {:induction false} SplitAfterPlainText(p: string, t: string)
    requires NoSeparator(p)
    ensures Split(p + t) == [p + Split(t)[0]] + Split(t)[1..]
    decreases |p|
  {
    if p == [] {
      assert p + t == t && [] + Split(t)[0] == Split(t)[0];
      assert Split(t) == [Split(t)[0]] + Split(t)[1..];
    } else {
      assert (p + t)[0] == p[0] && (p + t)[1..] == p[1..] + t;
      SplitAfterPlainText(p[1..], t);
      var tail := Split(p[1..] + t);
      assert tail[0] == p[1..] + Split(t)[0] && tail[1..] == Split(t)[1..];
      assert [p[0]] + (p[1..] + Split(t)[0]) == p + Split(t)[0];
    }
  }

  /** Splitting undoes joining with any separators, '/' and '-' mixed, as long as the
      pieces hold none. */
  lemma {:induction false} SplitJoin(parts: seq<string>, seps: string)
    requires |parts| == |seps| + 1
    requires forall i :: 0 <= i < |seps| ==> IsSeparator(seps[i])
    requires forall i :: 0 <= i < |parts| ==> NoSeparator(parts[i])
    ensures Split(Join(parts, seps)) == parts
    decreases |seps|
  {
    if seps == [] {
      SplitAfterPlainText(parts[0], []);
      assert parts[0] + [] == parts[0];
    } else {
      var sep := seps[0];
      var rest := Join(parts[1..], seps[1..]);
      assert Join(parts, seps) == parts[0] + ([sep] + rest);
      SplitAfterPlainText(parts[0], [sep] + rest);
      assert ([sep] + rest)[0] == sep && ([sep] + rest)[1..] == rest;
      assert Split([sep] + rest) == [[]] + Split(rest);
      SplitJoin(parts[1..], seps[1..]);
      assert Split([sep] + rest)[0] == [] && Split([sep] + rest)[1..] == parts[1..];
      assert parts[0] + [] == parts[0];
      assert parts == [parts[0]] + parts[1..];
    }
  }

  predicate AllDigits(s: string) {
    forall i :: 0 <= i < |s| ==> IsAsciiDigit(s[i])
  }

  /** The number a string of decimal digits denotes. */
  function DigitsValue(s: string): nat
    requires AllDigits(s)
    decreases |s|
  {
    if s == [] then 0 else DigitsValue(s[..|s| - 1]) * 10 + (s[|s| - 1] as int - '0' as int)
  }

  /** `int.Parse` (ToPersian.cs:80-82) on a plain string of decimal digits; anything else is
      a FormatException. */
  function IntParse(s: string): (r: Result<int>)
    ensures r.Ok? <==> s != [] && AllDigits(s)
    ensures r.Err? ==> r.error == FormatError
    ensures r.Ok? ==> r.value >= 0
  {
    if s != [] && AllDigits(s) then Ok(DigitsValue(s)) else Err(FormatError)
  }

  /** The decimal digits of `n`, without leading zeros. */
  function DecimalString(n: nat): (s: string)
    ensures s != [] && AllDigits(s)
  {
    var digit := ('0' as int + n % 10) as char;
    if n < 10 then [digit] else DecimalString(n / 10) + [digit]
  }

  /** `n` written with at least `width` digits, padded with leading zeros, as the `yyyy`,
      `MM` and `dd` of the default pattern write year, month and day. */
  function Padded(n: nat, width: nat): (s: string)
    ensures s != [] && AllDigits(s)
    decreases width
  {
    var digits := DecimalString(n);
    if |digits| >= width then digits else ['0'] + Padded(n, width - 1)
  }

  /** Parsing the digits of a number gives the number back. */
  lemma {:induction false} IntParseDecimalString(n: nat)
    ensures IntParse(DecimalString(n)) == Ok(n)
  {
    var s := DecimalString(n);
    var digit := ('0' as int + n % 10) as char;
    assert s[|s| - 1] == digit && digit as int - '0' as int == n % 10;
    if n >= 10 {
      IntParseDecimalString(n / 10);
      assert s[..|s| - 1] == DecimalString(n / 10);
      assert DigitsValue(s) == (n / 10) * 10 + n % 10;
    } else {
      assert s[..|s| - 1] == [];
      assert DigitsValue(s) == n;
    }
  }

  /** A leading zero does not change the number. */
  lemma {:induction false} LeadingZero(s: string)
    requires AllDigits(s)
    ensures AllDigits(['0'] + s) && DigitsValue(['0'] + s) == DigitsValue(s)
    decreases |s|
  {
    if s != [] {
      assert (['0'] + s)[..|s|] == ['0'] + s[..|s| - 1];
      LeadingZero(s[..|s| - 1]);
    }
  }

  /** Parsing a zero-padded number gives the number back. */
  lemma {:induction false} IntParsePadded(n: nat, width: nat)
    ensures IntParse(Padded(n, width)) == Ok(n)
    decreases width
  {
    if |DecimalString(n)| >= width {
      IntParseDecimalString(n);
    } else {
      IntParsePadded(n, width - 1);
      LeadingZero(Padded(n, width - 1));
    }
  }

  /** `ParsePersianDate` (ToPersian.cs:72-90): split on '/' and '-', demand at least three
      pieces, read year, month and day from the first three (any further pieces are ignored)
      and let the calendar build that date at midnight. */
  function ParsePersianDate(pc: Calendar, s: string): (r: Result<Moment>)
    ensures |Split(s)| < 3 ==> r == Err(FormatError)
    ensures |Split(s)| >= 3 && (exists i :: 0 <= i < 3 && IntParse(Split(s)[i]).Err?) ==>
              r == Err(FormatError)
    ensures |Split(s)| >= 3 && (forall i :: 0 <= i < 3 ==> IntParse(Split(s)[i]).Ok?) ==>
              r == ToDateTime(pc, IntParse(Split(s)[0]).value, IntParse(Split(s)[1]).value,
                              IntParse(Split(s)[2]).value)
    ensures r.Ok? ==> ValidMoment(pc, r.value) && r.value.time == 0
    ensures r.Ok? ==> |Split(s)| >= 3 && forall i :: 0 <= i < 3 ==> IntParse(Split(s)[i]).Ok?
    ensures r.Ok? ==> r.value.date == PersianDate(IntParse(Split(s)[0]).value,
                                                  IntParse(Split(s)[1]).value,
                                                  IntParse(Split(s)[2]).value)
  {
    var parts := Split(s);
    if |parts| < 3 then Err(FormatError)
    else
      var year :- IntParse(parts[0]);
      var month :- IntParse(parts[1]);
      var day :- IntParse(parts[2]);
      ToDateTime(pc, year, month, day)
  }

  /** Only the first three pieces matter. */
  lemma ParseUsesFirstThreeParts(pc: Calendar, s: string, t: string)
    requires |Split(s)| >= 3 && |Split(t)| >= 3 && Split(s)[..3] == Split(t)[..3]
    ensures ParsePersianDate(pc, s) == ParsePersianDate(pc, t)
  {
    assert Split(s)[0] == Split(s)[..3][0] && Split(t)[0] == Split(t)[..3][0];
    assert Split(s)[1] == Split(s)[..3][1] && Split(t)[1] == Split(t)[..3][1];
    assert Split(s)[2] == Split(s)[..3][2] && Split(t)[2] == Split(t)[..3][2];
  }

  /** The text the default pattern `yyyy/MM/dd` gives a date (with '/' or, as the parser
      also accepts, '-'): four-digit year, two-digit month and day, zero-padded. */
  function DatePatternText(p: PersianDate, sep: char): string
    requires p.year >= 0 && p.month >= 0 && p.day >= 0
  {
    Join([Padded(p.year, 4), Padded(p.month, 2), Padded(p.day, 2)], [sep, sep])
  }

  /** Parsing the default rendering of a date gives back that date at midnight. */
  lemma ParseDatePatternText(pc: Calendar, p: PersianDate, sep: char)
    requires ValidDate(pc, p) && IsSeparator(sep)
    ensures ParsePersianDate(pc, DatePatternText(p, sep)) == Ok(Moment(p, 0))
  {
    var parts := [Padded(p.year, 4), Padded(p.month, 2), Padded(p.day, 2)];
    forall i | 0 <= i < 3 ensures NoSeparator(parts[i]) {
    }
    SplitJoin(parts, [sep, sep]);
    IntParsePadded(p.year, 4);
    IntParsePadded(p.month, 2);
    IntParsePadded(p.day, 2);
  }

  /** The pieces of the demonstration program's date, read as numbers. */
  lemma ExampleNumbers()
    ensures IntParse("1403") == Ok(1403) && IntParse("02") == Ok(2) && IntParse("16") == Ok(16)
  {
    assert "1403"[..3] == "140" && "140"[..2] == "14" && "14"[..1] == "1" && "1"[..0] == "";
    assert DigitsValue("1") == 1 && DigitsValue("14") == 14 && DigitsValue("140") == 140;
    assert "02"[..1] == "0" && "0"[..0] == "" && DigitsValue("0") == 0;
    assert "16"[..1] == "1";
  }

  /** The parse example of the demonstration program, "1403/02/16", and the same date with
      the other separator. */
  lemma ParseExample(pc: Calendar)
    requires pc.maxYear >= 1403
    ensures ParsePersianDate(pc, "1403/02/16") == Ok(Moment(PersianDate(1403, 2, 16), 0))
    ensures ParsePersianDate(pc, "1403-02-16") == Ok(Moment(PersianDate(1403, 2, 16), 0))
  {
    ExampleNumbers();
    assert "1403/02/16" == Join(["1403", "02", "16"], "//");
    SplitJoin(["1403", "02", "16"], "//");
    assert "1403-02-16" == Join(["1403", "02", "16"], "--");
    SplitJoin(["1403", "02", "16"], "--");
  }

  /** Two pieces are too few. */
  lemma ParseTwoPartsFails(pc: Calendar)
    ensures ParsePersianDate(pc, "1403/02") == Err(FormatError)
  {
    assert "1403/02" == Join(["1403", "02"], "/");
    SplitJoin(["1403", "02"], "/");
  }

  /** A fourth piece is ignored, even one that is not a number. */
  lemma ParseIgnoresFourthPart(pc: Calendar)
    requires pc.maxYear >= 1403
    ensures ParsePersianDate(pc, "1403/02/16/x") == Ok(Moment(PersianDate(1403, 2, 16), 0))
  {
    ExampleNumbers();
    assert "1403/02/16/x" == Join(["1403", "02", "16", "x"], "///");
    SplitJoin(["1403", "02", "16", "x"], "///");
  }

  /** Well-formed text naming a month the calendar lacks fails in the calendar, not in the
      parser. */
  lemma ParseMonthThirteenFails(pc: Calendar)
    requires pc.maxYear >= 1403
    ensures ParsePersianDate(pc, "1403/13/16") == Err(ArgumentOutOfRange)
  {
    ExampleNumbers();
    assert "13"[..1] == "1";
    assert IntParse("13") == Ok(13);
    assert "1403/13/16" == Join(["1403", "13", "16"], "//");
    SplitJoin(["1403", "13", "16"], "//");
  }

  /** The two separators may be mixed, and a month needs no leading zero: "1403/2-16" is
      16 Ordibehesht 1403. */
  lemma ParseMixedSeparators(pc: Calendar)
    requires pc.maxYear >= 1403
    ensures ParsePersianDate(pc, "1403/2-16") == Ok(Moment(PersianDate(1403, 2, 16), 0))
  {
    var parts := ["1403", "2", "16"];
    assert "1403/2-16" == Join(parts, "/-");
    SplitJoin(parts, "/-");
    ExampleNumbers();
    assert IntParse(parts[1]) == Ok(2);
  }
}
