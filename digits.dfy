/** The "Utility Methods" region of ToPersian.cs: transliterating digits between ASCII
    '0'..'9' and the Extended Arabic-Indic digits U+06F0..U+06F9 used in Persian text. */
module Digits {

  /** The Persian digit zero, U+06F0; digit `k` is U+06F0 + k. */
  const PersianZero: char := '\U{06F0}'

  predicate IsAsciiDigit(c: char) {
    '0' <= c <= '9'
  }

  predicate IsPersianDigit(c: char) {
    '\U{06F0}' <= c <= '\U{06F9}'
  }

  /** Reference mapping: an ASCII digit becomes the Persian digit of the same value, any
      other character stays. */
  function PersianDigitOf(c: char): char {
    if IsAsciiDigit(c) then (c as int - '0' as int + PersianZero as int) as char else c
  }

  /** Reference mapping: a Persian digit becomes the ASCII digit of the same value, any
      other character stays. */
  function AsciiDigitOf(c: char): char {
    if IsPersianDigit(c) then (c as int - PersianZero as int + '0' as int) as char else c
  }

  /** `s.Replace(a, b)` with one-character strings: every `a` becomes `b`, nothing else moves. */
  function ReplaceChar(s: string, a: char, b: char): (r: string)
    ensures |r| == |s|
    ensures forall i :: 0 <= i < |s| ==> r[i] == if s[i] == a then b else s[i]
  {
    if s == [] then [] else [if s[0] == a then b else s[0]] + ReplaceChar(s[1..], a, b)
  }

  /** What a chain of one-character replacements, applied in order, does to one character. */
  function Translate(pairs: seq<(char, char)>, c: char): char
    decreases |pairs|
  {
    if pairs == [] then c else Translate(pairs[1..], if c == pairs[0].0 then pairs[0].1 else c)
  }

  /** `s.Replace(a0, b0).Replace(a1, b1)...`: the replacements applied in turn, each to the
      whole result of the one before; character by character that is `Translate`. */
  function ReplaceChain(s: string, pairs: seq<(char, char)>): (r: string)
    ensures |r| == |s|
    ensures forall i :: 0 <= i < |s| ==> r[i] == Translate(pairs, s[i])
    decreases |pairs|
  {
    if pairs == [] then s else ReplaceChain(ReplaceChar(s, pairs[0].0, pairs[0].1), pairs[1..])
  }

  /** The replacements of `ToPersianDigits`, in the source's order. */
  const AsciiToPersian: seq<(char, char)> :=
    [('0', '\U{06F0}'), ('1', '\U{06F1}'), ('2', '\U{06F2}'), ('3', '\U{06F3}'), ('4', '\U{06F4}'),
     ('5', '\U{06F5}'), ('6', '\U{06F6}'), ('7', '\U{06F7}'), ('8', '\U{06F8}'), ('9', '\U{06F9}')]

  /** The replacements of `ToEnglishDigits`, in the source's order. */
  const PersianToAscii: seq<(char, char)> :=
    [('\U{06F0}', '0'), ('\U{06F1}', '1'), ('\U{06F2}', '2'), ('\U{06F3}', '3'), ('\U{06F4}', '4'),
     ('\U{06F5}', '5'), ('\U{06F6}', '6'), ('\U{06F7}', '7'), ('\U{06F8}', '8'), ('\U{06F9}', '9')]

  /** `pairs` replaces the `|pairs|` consecutive characters from `source` on, in order, by
      the consecutive characters from `target` on, and the two ranges do not overlap. */
  predicate ShiftTable(pairs: seq<(char, char)>, source: int, target: int) {
    && 0 <= source && 0 <= target
    && (source + |pairs| <= target || target + |pairs| <= source)
    && target + |pairs| < 0xD800
    && source + |pairs| < 0xD800
    && forall k :: 0 <= k < |pairs| ==> pairs[k] == (ShiftChar(source, k), ShiftChar(target, k))
  }

  /** The character `k` places after `base`. */
  function ShiftChar(base: int, k: int): char
    requires 0 <= base && 0 <= k && base + k < 0xD800
  {
    (base + k) as char
  }

  /** Such a chain of replacements moves each character of the source range to the same
      place in the target range and leaves every other character alone: no later
      replacement touches what an earlier one wrote. */
  lemma {:induction false} TranslateShiftTable(pairs: seq<(char, char)>, source: int, target: int, c: char)
    requires ShiftTable(pairs, source, target)
    ensures Translate(pairs, c)
            == if source <= c as int < source + |pairs| then (c as int - source + target) as char else c
    decreases |pairs|
  {
    if pairs != [] {
      assert pairs[0] == (ShiftChar(source, 0), ShiftChar(target, 0));
      var rest := pairs[1..];
      assert ShiftTable(rest, source + 1, target + 1) by {
        forall k | 0 <= k < |rest| ensures rest[k] == (ShiftChar(source + 1, k), ShiftChar(target + 1, k)) {
          assert rest[k] == pairs[k + 1];
        }
      }
      var d := if c == pairs[0].0 then pairs[0].1 else c;
      TranslateShiftTable(rest, source + 1, target + 1, d);
    }
  }

  /** The whole chain of `ToPersianDigits` is `PersianDigitOf` on every character. */
  lemma AsciiToPersianIsDigitMap(c: char)
    ensures Translate(AsciiToPersian, c) == PersianDigitOf(c)
  {
    assert ShiftTable(AsciiToPersian, '0' as int, PersianZero as int);
    TranslateShiftTable(AsciiToPersian, '0' as int, PersianZero as int, c);
  }

  /** The whole chain of `ToEnglishDigits` is `AsciiDigitOf` on every character. */
  lemma PersianToAsciiIsDigitMap(c: char)
    ensures Translate(PersianToAscii, c) == AsciiDigitOf(c)
  {
    assert ShiftTable(PersianToAscii, PersianZero as int, '0' as int);
    TranslateShiftTable(PersianToAscii, PersianZero as int, '0' as int, c);
  }

  /** `ToPersianDigits` (ToPersian.cs:179-194): empty input comes back as it is; otherwise
      the ten replacements '0' -> U+06F0, ..., '9' -> U+06F9 in turn.  The result is the input
      with every ASCII digit mapped to its Persian digit. */
  function ToPersianDigits(input: string): (r: string)
    ensures |r| == |input|
    ensures forall i :: 0 <= i < |input| ==> r[i] == PersianDigitOf(input[i])
  {
    if input == [] then input
    else
      var r := ReplaceChain(input, AsciiToPersian);
      assert forall i :: 0 <= i < |input| ==> r[i] == PersianDigitOf(input[i]) by {
        forall i | 0 <= i < |input| ensures r[i] == PersianDigitOf(input[i]) {
          AsciiToPersianIsDigitMap(input[i]);
        }
      }
      r
  }

  /** `ToEnglishDigits` (ToPersian.cs:196-211): empty input comes back as it is; otherwise
      the ten replacements U+06F0 -> '0', ..., U+06F9 -> '9' in turn.  The result is the input
      with every Persian digit mapped to its ASCII digit. */
  function ToEnglishDigits(input: string): (r: string)
    ensures |r| == |input|
    ensures forall i :: 0 <= i < |input| ==> r[i] == AsciiDigitOf(input[i])
  {
    if input == [] then input
    else
      var r := ReplaceChain(input, PersianToAscii);
      assert forall i :: 0 <= i < |input| ==> r[i] == AsciiDigitOf(input[i]) by {
        forall i | 0 <= i < |input| ensures r[i] == AsciiDigitOf(input[i]) {
          PersianToAsciiIsDigitMap(input[i]);
        }
      }
      r
  }

  predicate NoPersianDigits(s: string) {
    forall i :: 0 <= i < |s| ==> !IsPersianDigit(s[i])
  }

  predicate NoAsciiDigits(s: string) {
    forall i :: 0 <= i < |s| ==> !IsAsciiDigit(s[i])
  }

  /** A string that holds the Persian digit of each character of `s` has no ASCII digit,
      and the ASCII digits of its characters give back `s` when `s` had no Persian digit. */
  lemma PersianImage(s: string, p: string)
    requires |p| == |s| && forall i :: 0 <= i < |s| ==> p[i] == PersianDigitOf(s[i])
    ensures NoAsciiDigits(p)
    ensures NoPersianDigits(s) ==> forall i :: 0 <= i < |s| ==> AsciiDigitOf(p[i]) == s[i]
  {
  }

  /** A string that holds the ASCII digit of each character of `t` has no Persian digit,
      and the Persian digits of its characters give back `t` when `t` had no ASCII digit. */
  lemma AsciiImage(t: string, e: string)
    requires |e| == |t| && forall i :: 0 <= i < |t| ==> e[i] == AsciiDigitOf(t[i])
    ensures NoPersianDigits(e)
    ensures NoAsciiDigits(t) ==> forall i :: 0 <= i < |t| ==> PersianDigitOf(e[i]) == t[i]
  {
  }

  /** Two strings of one length that agree at every position are equal. */
  lemma SameCharacters(r: string, expected: string)
    requires |r| == |expected| && forall i :: 0 <= i < |r| ==> r[i] == expected[i]
    ensures r == expected
  {
  }

  /** After `ToPersianDigits` no ASCII digit is left, and after `ToEnglishDigits` no Persian
      digit. */
  lemma ConversionIsComplete(s: string)
    ensures NoAsciiDigits(ToPersianDigits(s))
    ensures NoPersianDigits(ToEnglishDigits(s))
  {
    PersianImage(s, ToPersianDigits(s));
    AsciiImage(s, ToEnglishDigits(s));
  }

  /** `ToEnglishDigits` undoes `ToPersianDigits` on text without Persian digits, and the
      other way round on text without ASCII digits. */
  lemma DigitsRoundTrip(s: string, t: string)
    ensures NoPersianDigits(s) ==> ToEnglishDigits(ToPersianDigits(s)) == s
    ensures NoAsciiDigits(t) ==> ToPersianDigits(ToEnglishDigits(t)) == t
  {
    var p := ToPersianDigits(s);
    PersianImage(s, p);
    if NoPersianDigits(s) {
      SameCharacters(ToEnglishDigits(p), s);
    }
    var e := ToEnglishDigits(t);
    AsciiImage(t, e);
    if NoAsciiDigits(t) {
      SameCharacters(ToPersianDigits(e), t);
    }
  }

  /** Mixed text does not survive the round trip: a Persian digit already in the input comes
      back as an ASCII digit. */
  lemma MixedDigitsDoNotRoundTrip()
    ensures ToEnglishDigits(ToPersianDigits("1\U{06F2}")) == "12"
  {
  }

  /** The example of the demonstration program: "1234" becomes "۱۲۳۴". */
  lemma PersianDigitsExample()
    ensures ToPersianDigits("1234") == "۱۲۳۴"
  {
    var s, expected := "1234", "۱۲۳۴";
    var r := ToPersianDigits(s);
    forall i | 0 <= i < 4 ensures r[i] == expected[i] {
      assert r[i] == PersianDigitOf(s[i]);
    }
    SameCharacters(r, expected);
  }

  /** The example of the demonstration program: "۱۲۳۴" becomes "1234". */
  lemma EnglishDigitsExample()
    ensures ToEnglishDigits("۱۲۳۴") == "1234"
  {
    var s, expected := "۱۲۳۴", "1234";
    var r := ToEnglishDigits(s);
    forall i | 0 <= i < 4 ensures r[i] == expected[i] {
      assert r[i] == AsciiDigitOf(s[i]);
    }
    SameCharacters(r, expected);
  }
}
