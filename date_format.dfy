/** The strict date check of appointment validation: .NET's
    `DateTime.TryParseExact(s, "yyyy-dd-MM", en-US, DateTimeStyles.None)`.
    With `DateTimeStyles.None` no white space is skipped; `yyyy`, `dd` and `MM`
    each consume exactly that many ASCII digits; `-` is a literal; and the
    resulting year, month and day must name a day of the Gregorian calendar
    between the years 1 and 9999. `Format` is the inverse rendering, and the
    lemmas show that the accepted strings are exactly the renderings of real
    calendar days, one string per day. */
module DateFormat {
  import opened Models

  /** A calendar day as the parse yields it. */
  datatype Date = Date(year: int, month: int, day: int)

  predicate IsDigit(c: char) { '0' <= c <= '9' }

  predicate AllDigits(s: string) { forall i :: 0 <= i < |s| ==> IsDigit(s[i]) }

  function DigitValue(c: char): nat
    requires IsDigit(c)
  {
    c as int - '0' as int
  }

  function DigitChar(n: nat): (c: char)
    requires n < 10
    ensures IsDigit(c) && DigitValue(c) == n
  {
    ('0' as int + n) as char
  }

  /** The decimal value of a run of digits, most significant first. */
  function Value(s: string): nat
    requires AllDigits(s)
  {
    if s == [] then 0 else 10 * Value(s[..|s| - 1]) + DigitValue(s[|s| - 1])
  }

  function Pow10(n: nat): nat
  {
    if n == 0 then 1 else 10 * Pow10(n - 1)
  }

  /** `n` written with exactly `width` digits, zero-padded on the left
      (the last `width` digits when `n` is wider). */
  function Digits(n: nat, width: nat): (s: string)
    ensures |s| == width && AllDigits(s)
  {
    if width == 0 then [] else Digits(n / 10, width - 1) + [DigitChar(n % 10)]
  }

  predicate IsLeapYear(year: int)
  {
    year % 4 == 0 && (year % 100 != 0 || year % 400 == 0)
  }

  function DaysInMonth(year: int, month: int): int
    requires 1 <= month <= 12
  {
    if month == 2 then (if IsLeapYear(year) then 29 else 28)
    else if month == 4 || month == 6 || month == 9 || month == 11 then 30
    else 31
  }

  /** A day that exists in the Gregorian calendar within DateTime's year range. */
  predicate IsCalendarDate(d: Date)
  {
    && 1 <= d.year <= 9999
    && 1 <= d.month <= 12
    && 1 <= d.day <= DaysInMonth(d.year, d.month)
  }

  /** Four digits, a dash, two digits, a dash, two digits, and nothing else. */
  predicate HasShape(s: string)
  {
    && |s| == 10
    && AllDigits(s[0..4]) && s[4] == '-'
    && AllDigits(s[5..7]) && s[7] == '-'
    && AllDigits(s[8..10])
  }

  /** The parse with the custom format "yyyy-dd-MM": year, then day, then month. */
  function TryParseExact(s: string): (r: Option<Date>)
  {
    if !HasShape(s) then None
    else
      var d := Date(Value(s[0..4]), Value(s[8..10]), Value(s[5..7]));
      if IsCalendarDate(d) then Some(d) else None
  }

  /** The rendering of a calendar day in the format "yyyy-dd-MM". */
  function Format(d: Date): (s: string)
    requires IsCalendarDate(d)
  {
    Digits(d.year, 4) + "-" + Digits(d.day, 2) + "-" + Digits(d.month, 2)
  }

  lemma {:induction false} ValueOfDigits(n: nat, width: nat)
    requires n < Pow10(width)
    ensures Value(Digits(n, width)) == n
  {
    if width > 0 {
      var s := Digits(n, width);
      assert s[..|s| - 1] == Digits(n / 10, width - 1);
      ValueOfDigits(n / 10, width - 1);
    }
  }

  lemma {:induction false} DigitsOfValue(s: string)
    requires AllDigits(s)
    ensures Value(s) < Pow10(|s|)
    ensures Digits(Value(s), |s|) == s
  {
    if s != [] {
      var p := s[..|s| - 1];
      assert AllDigits(p) by {
        forall i | 0 <= i < |p| ensures IsDigit(p[i]) { assert p[i] == s[i]; }
      }
      DigitsOfValue(p);
      var v := Value(s);
      assert v / 10 == Value(p) && v % 10 == DigitValue(s[|s| - 1]);
      assert DigitChar(v % 10) == s[|s| - 1];
      assert p + [s[|s| - 1]] == s;
    }
  }

  /** Every calendar day is accepted in its own rendering, and parses back to itself. */
  lemma ParseOfFormat(d: Date)
    requires IsCalendarDate(d)
    ensures TryParseExact(Format(d)) == Some(d)
  {
    var s := Format(d);
    assert s[0..4] == Digits(d.year, 4);
    assert s[5..7] == Digits(d.day, 2);
    assert s[8..10] == Digits(d.month, 2);
    ValueOfDigits(d.year, 4);
    ValueOfDigits(d.day, 2);
    ValueOfDigits(d.month, 2);
  }

  /** Strictness: an accepted string is exactly the rendering of the day it
      denotes; no padding, sign or alternative spelling gets through. */
  lemma FormatOfParse(s: string)
    requires TryParseExact(s).Some?
    ensures IsCalendarDate(TryParseExact(s).value)
    ensures Format(TryParseExact(s).value) == s
  {
    var d := TryParseExact(s).value;
    DigitsOfValue(s[0..4]);
    DigitsOfValue(s[5..7]);
    DigitsOfValue(s[8..10]);
    assert s == s[0..4] + "-" + s[5..7] + "-" + s[8..10];
  }

  /** The date check accepts exactly the "yyyy-dd-MM" renderings of calendar days. */
  lemma ParseAcceptsIff(s: string)
    ensures TryParseExact(s).Some? <==> exists d :: IsCalendarDate(d) && Format(d) == s
  {
    if TryParseExact(s).Some? {
      FormatOfParse(s);
    }
    if exists d :: IsCalendarDate(d) && Format(d) == s {
      var d :| IsCalendarDate(d) && Format(d) == s;
      ParseOfFormat(d);
    }
  }

  /** Two accepted strings denote the same day only if they are the same
      string: for accepted dates, comparing raw strings and comparing parsed
      days agree. */
  lemma SameDayIsSameString(s1: string, s2: string)
    requires TryParseExact(s1).Some?
    requires TryParseExact(s1) == TryParseExact(s2)
    ensures s1 == s2
  {
    FormatOfParse(s1);
    FormatOfParse(s2);
  }

  /** Day in the second field, month in the third: "2024-13-01" is 13 January 2024. */
  lemma AcceptsDayBeforeMonth()
    ensures TryParseExact("2024-13-01") == Some(Date(2024, 1, 13))
  {
    var s := "2024-13-01";
    assert s[0..4] == "2024" && "2024"[..3] == "202" && "202"[..2] == "20" && "20"[..1] == "2" && "2"[..0] == "";
    assert s[5..7] == "13" && "13"[..1] == "1" && "1"[..0] == "";
    assert s[8..10] == "01" && "01"[..1] == "0" && "0"[..0] == "";
    assert Value(s[0..4]) == 2024 && Value(s[5..7]) == 13 && Value(s[8..10]) == 1;
  }

  /** "2024-31-13" names a thirteenth month and is rejected. */
  lemma RejectsMonthThirteen()
    ensures TryParseExact("2024-31-13") == None
  {
    var s := "2024-31-13";
    assert s[8..10] == "13" && "13"[..1] == "1" && "1"[..0] == "";
    assert Value(s[8..10]) == 13;
  }

  /** 29 February exists in a leap year such as 2024. */
  lemma LeapDay()
    ensures TryParseExact("2024-29-02") == Some(Date(2024, 2, 29))
  {
    var s := "2024-29-02";
    assert s[0..4] == "2024" && "2024"[..3] == "202" && "202"[..2] == "20" && "20"[..1] == "2" && "2"[..0] == "";
    assert s[5..7] == "29" && "29"[..1] == "2" && "2"[..0] == "";
    assert s[8..10] == "02" && "02"[..1] == "0" && "0"[..0] == "";
    assert Value(s[0..4]) == 2024 && Value(s[5..7]) == 29 && Value(s[8..10]) == 2;
  }

  /** 29 February does not exist in 1900 (divisible by 100, not by 400). */
  lemma CenturyNotLeap()
    ensures TryParseExact("1900-29-02") == None
  {
    var s := "1900-29-02";
    assert s[0..4] == "1900" && "1900"[..3] == "190" && "190"[..2] == "19" && "19"[..1] == "1" && "1"[..0] == "";
    assert s[5..7] == "29" && "29"[..1] == "2" && "2"[..0] == "";
    assert s[8..10] == "02" && "02"[..1] == "0" && "0"[..0] == "";
    assert Value(s[0..4]) == 1900 && Value(s[5..7]) == 29 && Value(s[8..10]) == 2;
  }

  /** Year 0, a leading blank and a one-digit day are all rejected. */
  lemma RejectsOutOfFormat()
    ensures TryParseExact("0000-01-01") == None
    ensures TryParseExact(" 2024-13-01") == None
    ensures TryParseExact("2024-1-01") == None
  {
    var s := "0000-01-01";
    assert s[0..4] == "0000" && "0000"[..3] == "000" && "000"[..2] == "00" && "00"[..1] == "0" && "0"[..0] == "";
    assert Value(s[0..4]) == 0;
    assert " 2024-13-01"[0..4][0] == ' ';
    assert "2024-1-01"[5..7][1] == '-';
  }
}
