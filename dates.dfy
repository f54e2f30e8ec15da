/**
 * `QueryUtils.formatDate`: the publication timestamp of the feed, written in
 * the pattern yyyy-MM-dd'T'HH:mm:ss'Z', becomes the display text of the
 * pattern "MMM d, yyy": abbreviated month name, the day without a leading
 * zero, a comma and a space, and the year with at least three digits.
 * Text that does not parse becomes the empty string.
 */
module DateFormat {
  import opened Optional

  /** The locale's twelve abbreviated month names, January first. */
  type MonthNames = s: seq<string> | |s| == 12
    witness ["", "", "", "", "", "", "", "", "", "", "", ""]

  /** English abbreviated month names, for worked examples. */
  const EnglishShortMonths: MonthNames :=
    ["Jan", "Feb", "Mar", "Apr", "May", "Jun", "Jul", "Aug", "Sep", "Oct", "Nov", "Dec"]

  /** The fields of one timestamp, as read from the input pattern. */
  datatype Stamp = Stamp(year: nat, month: nat, day: nat, hour: nat, minute: nat, second: nat)

  predicate IsLeapYear(year: nat)
  {
    year % 4 == 0 && (year % 100 != 0 || year % 400 == 0)
  }

  function DaysInMonth(year: nat, month: nat): (d: nat)
    requires 1 <= month <= 12
    ensures 28 <= d <= 31
    ensures d == 29 <==> month == 2 && IsLeapYear(year)
  {
    if month == 2 then (if IsLeapYear(year) then 29 else 28)
    else if month == 4 || month == 6 || month == 9 || month == 11 then 30
    else 31
  }

  /** A four-digit year and fields that name a real calendar date and time of day. */
  predicate ValidStamp(t: Stamp)
  {
    && 1 <= t.year <= 9999
    && 1 <= t.month <= 12
    && 1 <= t.day <= DaysInMonth(t.year, t.month)
    && t.hour < 24 && t.minute < 60 && t.second < 60
  }

  // ---------------------------------------------------------------- digits

  predicate IsDigit(c: char) { '0' <= c <= '9' }

  predicate AllDigits(s: string)
  {
    forall i :: 0 <= i < |s| ==> IsDigit(s[i])
  }

  function DigitChar(d: nat): (c: char)
    requires d < 10
    ensures IsDigit(c) && DigitValue(c) == d
  {
    ('0' as int + d) as char
  }

  function DigitValue(c: char): nat
    requires IsDigit(c)
  {
    c as int - '0' as int
  }

  function Pow10(w: nat): (p: nat)
    ensures p >= 1
  {
    if w == 0 then 1 else 10 * Pow10(w - 1)
  }

  /** The number a string of decimal digits denotes, most significant digit first. */
  function Value(s: string): (v: nat)
    requires AllDigits(s)
  {
    if s == [] then 0 else Value(s[..|s| - 1]) * 10 + DigitValue(s[|s| - 1])
  }

  /** `n` written with exactly `w` digits, zero-padded on the left. */
  function Padded(n: nat, w: nat): (r: string)
    requires n < Pow10(w)
    ensures |r| == w && AllDigits(r)
  {
    if w == 0 then [] else Padded(n / 10, w - 1) + [DigitChar(n % 10)]
  }

  /** `n` written with as few digits as possible: no leading zero. */
  function Decimal(n: nat): (r: string)
    ensures |r| >= 1 && AllDigits(r)
    ensures n > 0 ==> r[0] != '0'
    ensures Value(r) == n
  {
    if n < 10 then [DigitChar(n)]
    else
      var front := Decimal(n / 10);
      assert (front + [DigitChar(n % 10)])[..|front|] == front;
      front + [DigitChar(n % 10)]
  }

  /** The year as the pattern letters "yyy" print it: at least three digits. */
  function YearText(year: nat): (r: string)
    ensures |r| >= 3 && AllDigits(r) && Value(r) == year
    ensures year >= 100 ==> r[0] != '0'
    ensures year < 100 ==> |r| == 3
  {
    if year < 100 then ValuePadded(year, 3); Padded(year, 3)
    else DecimalLength(year, 2); Decimal(year)
  }

  lemma {:induction false} DecimalLength(n: nat, k: nat)
    requires n >= Pow10(k)
    ensures |Decimal(n)| >= k + 1
  {
    if k > 0 {
      DecimalLength(n / 10, k - 1);
    }
  }

  /** A number with exactly `w` digits is written the same padded to `w` or without padding. */
  lemma {:induction false} DecimalIsPadded(n: nat, w: nat)
    requires w >= 1 && Pow10(w - 1) <= n < Pow10(w)
    ensures Decimal(n) == Padded(n, w)
  {
    if w > 1 {
      assert Pow10(w - 1) == 10 * Pow10(w - 2);
      DecimalIsPadded(n / 10, w - 1);
    }
  }

  lemma {:induction false} ValuePadded(n: nat, w: nat)
    requires n < Pow10(w)
    ensures Value(Padded(n, w)) == n
  {
    if w > 0 {
      var p := Padded(n, w);
      assert p[..w - 1] == Padded(n / 10, w - 1);
      ValuePadded(n / 10, w - 1);
    }
  }

  lemma {:induction false} PaddedValue(s: string)
    requires AllDigits(s)
    ensures Value(s) < Pow10(|s|)
    ensures Padded(Value(s), |s|) == s
  {
    if s != [] {
      var front := s[..|s| - 1];
      PaddedValue(front);
      var v := Value(s);
      assert v / 10 == Value(front) && v % 10 == DigitValue(s[|s| - 1]);
      assert DigitChar(v % 10) == s[|s| - 1];
      assert s == front + [s[|s| - 1]];
    }
  }

  lemma ValueOfTwo(s: string)
    requires |s| == 2 && AllDigits(s)
    ensures Value(s) == 10 * DigitValue(s[0]) + DigitValue(s[1])
  {
    assert s[..1][..0] == [];
    assert Value(s[..1]) == DigitValue(s[0]);
  }

  lemma ValueOfFour(s: string)
    requires |s| == 4 && AllDigits(s)
    ensures Value(s) == 1000 * DigitValue(s[0]) + 100 * DigitValue(s[1]) + 10 * DigitValue(s[2]) + DigitValue(s[3])
  {
    ValueOfTwo(s[..2]);
    assert s[..3][..2] == s[..2];
  }

  // ---------------------------------------------------------------- parsing

  /** `s` starts with the 20 characters of the pattern yyyy-MM-dd'T'HH:mm:ss'Z'. */
  predicate MatchesLayout(s: string)
  {
    && |s| >= 20
    && IsDigit(s[0]) && IsDigit(s[1]) && IsDigit(s[2]) && IsDigit(s[3]) && s[4] == '-'
    && IsDigit(s[5]) && IsDigit(s[6]) && s[7] == '-'
    && IsDigit(s[8]) && IsDigit(s[9]) && s[10] == 'T'
    && IsDigit(s[11]) && IsDigit(s[12]) && s[13] == ':'
    && IsDigit(s[14]) && IsDigit(s[15]) && s[16] == ':'
    && IsDigit(s[17]) && IsDigit(s[18]) && s[19] == 'Z'
  }

  /** The two-digit field at position `i`. */
  function FieldAt(s: string, i: nat): nat
    requires i + 1 < |s| && IsDigit(s[i]) && IsDigit(s[i + 1])
  {
    10 * DigitValue(s[i]) + DigitValue(s[i + 1])
  }

  /** The six fields of a string in the layout, read from their fixed positions. */
  function Fields(s: string): Stamp
    requires MatchesLayout(s)
  {
    Stamp(100 * FieldAt(s, 0) + FieldAt(s, 2), FieldAt(s, 5), FieldAt(s, 8),
          FieldAt(s, 11), FieldAt(s, 14), FieldAt(s, 17))
  }

  /**
   * `SimpleDateFormat.parse` with the input pattern: reads a timestamp from the
   * start of `s`; text after the 20 characters of the pattern is not examined.
   */
  function ParseStamp(s: string): (r: Option<Stamp>)
    ensures r.Some? ==> |s| >= 20 && ValidStamp(r.value)
  {
    if MatchesLayout(s) && ValidStamp(Fields(s)) then Some(Fields(s)) else None
  }

  /** The timestamp written in the input pattern, the inverse of ParseStamp. */
  function Render(t: Stamp): (r: string)
    requires ValidStamp(t)
    ensures |r| == 20
  {
    Padded(t.year, 4) + "-" + Padded(t.month, 2) + "-" + Padded(t.day, 2) + "T" +
    Padded(t.hour, 2) + ":" + Padded(t.minute, 2) + ":" + Padded(t.second, 2) + "Z"
  }

  /** Each field of a string in the layout is the number its digit slice denotes. */
  lemma FieldsAreValues(s: string)
    requires MatchesLayout(s)
    ensures AllDigits(s[0..4]) && Value(s[0..4]) == Fields(s).year
    ensures AllDigits(s[5..7]) && Value(s[5..7]) == Fields(s).month
    ensures AllDigits(s[8..10]) && Value(s[8..10]) == Fields(s).day
    ensures AllDigits(s[11..13]) && Value(s[11..13]) == Fields(s).hour
    ensures AllDigits(s[14..16]) && Value(s[14..16]) == Fields(s).minute
    ensures AllDigits(s[17..19]) && Value(s[17..19]) == Fields(s).second
  {
    ValueOfFour(s[0..4]);
    ValueOfTwo(s[5..7]);
    ValueOfTwo(s[8..10]);
    ValueOfTwo(s[11..13]);
    ValueOfTwo(s[14..16]);
    ValueOfTwo(s[17..19]);
  }

  // ---------------------------------------------------------------- formatting

  /** The output pattern "MMM d, yyy" applied to a parsed timestamp. */
  function Display(t: Stamp, months: MonthNames): (r: string)
    requires 1 <= t.month <= 12
    ensures |r| >= |months[t.month - 1]| + 7
    ensures r[..|months[t.month - 1]|] == months[t.month - 1]
  {
    months[t.month - 1] + " " + Decimal(t.day) + ", " + YearText(t.year)
  }

  /** `formatDate(receivedDate)`: the empty string exactly for text that does not parse. */
  function FormatDate(receivedDate: string, months: MonthNames): (r: string)
    ensures r == "" <==> ParseStamp(receivedDate).None?
  {
    match ParseStamp(receivedDate)
    case None => ""
    case Some(t) => Display(t, months)
  }

  // ---------------------------------------------------------------- properties

  /** Rendering a valid timestamp and parsing it back, whatever follows, gives the timestamp. */
  lemma ParseRender(t: Stamp, rest: string)
    requires ValidStamp(t)
    ensures ParseStamp(Render(t) + rest) == Some(t)
  {
    var s := Render(t) + rest;
    assert s[0..4] == Padded(t.year, 4);
    assert s[5..7] == Padded(t.month, 2);
    assert s[8..10] == Padded(t.day, 2);
    assert s[11..13] == Padded(t.hour, 2);
    assert s[14..16] == Padded(t.minute, 2);
    assert s[17..19] == Padded(t.second, 2);
    assert MatchesLayout(s);
    FieldsAreValues(s);
    ValuePadded(t.year, 4);
    ValuePadded(t.month, 2);
    ValuePadded(t.day, 2);
    ValuePadded(t.hour, 2);
    ValuePadded(t.minute, 2);
    ValuePadded(t.second, 2);
  }

  /** Where each field and separator sits in a rendered timestamp. */
  lemma RenderSlices(t: Stamp)
    requires ValidStamp(t)
    ensures Render(t)[0..4] == Padded(t.year, 4) && Render(t)[4] == '-'
    ensures Render(t)[5..7] == Padded(t.month, 2) && Render(t)[7] == '-'
    ensures Render(t)[8..10] == Padded(t.day, 2) && Render(t)[10] == 'T'
    ensures Render(t)[11..13] == Padded(t.hour, 2) && Render(t)[13] == ':'
    ensures Render(t)[14..16] == Padded(t.minute, 2) && Render(t)[16] == ':'
    ensures Render(t)[17..19] == Padded(t.second, 2) && Render(t)[19] == 'Z'
  {
  }

  /** Two strings that agree on a slice agree at each position of it. */
  lemma SliceAgrees(s: string, r: string, lo: nat, hi: nat)
    requires lo <= hi <= |s| && hi <= |r| && s[lo..hi] == r[lo..hi]
    ensures forall i :: lo <= i < hi ==> s[i] == r[i]
  {
    forall i | lo <= i < hi ensures s[i] == r[i] {
      assert s[i] == s[lo..hi][i - lo] && r[i] == r[lo..hi][i - lo];
    }
  }

  /** A string whose field slices are the padded fields of `t` starts with Render(t). */
  lemma RenderedPrefix(s: string, t: Stamp)
    requires ValidStamp(t) && MatchesLayout(s)
    requires s[0..4] == Padded(t.year, 4) && s[5..7] == Padded(t.month, 2)
    requires s[8..10] == Padded(t.day, 2) && s[11..13] == Padded(t.hour, 2)
    requires s[14..16] == Padded(t.minute, 2) && s[17..19] == Padded(t.second, 2)
    ensures s[..20] == Render(t)
  {
    var r := Render(t);
    RenderSlices(t);
    SliceAgrees(s, r, 0, 4);
    SliceAgrees(s, r, 5, 7);
    SliceAgrees(s, r, 8, 10);
    SliceAgrees(s, r, 11, 13);
    SliceAgrees(s, r, 14, 16);
    SliceAgrees(s, r, 17, 19);
    forall i | 0 <= i < 20 ensures s[..20][i] == r[i] {
      if i == 4 || i == 7 || i == 10 || i == 13 || i == 16 || i == 19 {
        assert s[i] == r[i];
      }
    }
  }

  /** Whatever ParseStamp accepts is a valid timestamp written in the input pattern. */
  lemma ParseSound(s: string)
    requires ParseStamp(s).Some?
    ensures ValidStamp(ParseStamp(s).value)
    ensures s[..20] == Render(ParseStamp(s).value)
  {
    FieldsAreValues(s);
    PaddedValue(s[0..4]);
    PaddedValue(s[5..7]);
    PaddedValue(s[8..10]);
    PaddedValue(s[11..13]);
    PaddedValue(s[14..16]);
    PaddedValue(s[17..19]);
    RenderedPrefix(s, Fields(s));
  }

  /** The display text of a rendered timestamp is its month name, day and year; trailing text is ignored. */
  lemma FormatDateOfStamp(t: Stamp, rest: string, months: MonthNames)
    requires ValidStamp(t)
    ensures FormatDate(Render(t) + rest, months) ==
            months[t.month - 1] + " " + Decimal(t.day) + ", " + YearText(t.year)
  {
    ParseRender(t, rest);
  }

  /** Hours, minutes and seconds have no effect: two timestamps on the same date display alike. */
  lemma FormatDateIgnoresTime(s: string, s': string, months: MonthNames)
    requires ParseStamp(s).Some? && ParseStamp(s').Some?
    requires s[..10] == s'[..10]
    ensures FormatDate(s, months) == FormatDate(s', months)
  {
    SameDate(s, s');
  }

  /** Two strings in the layout that agree on their first ten characters have the same date fields. */
  lemma SameDate(s: string, s': string)
    requires MatchesLayout(s) && MatchesLayout(s') && s[..10] == s'[..10]
    ensures Fields(s).year == Fields(s').year
    ensures Fields(s).month == Fields(s').month
    ensures Fields(s).day == Fields(s').day
  {
    SliceAgrees(s, s', 0, 10);
  }

  lemma {:induction false} ValueLeadingZero(s: string)
    requires AllDigits(s) && |s| >= 1 && s[0] == '0'
    ensures Value(s) == Value(s[1..])
  {
    if |s| > 1 {
      ValueLeadingZero(s[..|s| - 1]);
      assert s[..|s| - 1][1..] == s[1..][..|s| - 2];
    }
  }

  lemma {:induction false} ValueLeadingNonZero(s: string)
    requires AllDigits(s) && |s| >= 1 && s[0] != '0'
    ensures Value(s) >= Pow10(|s| - 1)
  {
    if |s| > 1 {
      ValueLeadingNonZero(s[..|s| - 1]);
    }
  }

  /** Digits with a leading zero denote a number with fewer digits. */
  lemma ValueBelowLeadingZero(s: string)
    requires AllDigits(s) && |s| >= 1
    ensures s[0] == '0' ==> Value(s) < Pow10(|s| - 1)
  {
    if s[0] == '0' {
      ValueLeadingZero(s);
      PaddedValue(s[1..]);
    }
  }

  /** Digits with no leading zero are exactly how Decimal writes their value. */
  lemma DecimalOfDigits(s: string)
    requires AllDigits(s) && |s| >= 1 && s[0] != '0'
    ensures Decimal(Value(s)) == s
  {
    ValueLeadingNonZero(s);
    PaddedValue(s);
    DecimalIsPadded(Value(s), |s|);
  }

  /**
   * The display text in terms of the input characters: the month name of the
   * month digits, the two day digits with a leading zero dropped, ", " and the
   * four year digits with a leading zero dropped.
   */
  lemma FormatDateText(s: string, months: MonthNames)
    requires ParseStamp(s).Some?
    ensures FormatDate(s, months) ==
            months[ParseStamp(s).value.month - 1] + " " +
            (if s[8] == '0' then s[9..10] else s[8..10]) + ", " +
            (if s[0] == '0' then s[1..4] else s[0..4])
  {
    FieldsAreValues(s);
    var dd, yy := s[8..10], s[0..4];
    DayText(dd);
    YearDigits(yy);
    assert dd[1..] == s[9..10] && yy[1..] == s[1..4];
  }

  /** Two day digits print without their leading zero. */
  lemma DayText(dd: string)
    requires |dd| == 2 && AllDigits(dd) && Value(dd) >= 1
    ensures Decimal(Value(dd)) == if dd[0] == '0' then dd[1..] else dd
  {
    if dd[0] == '0' {
      ValueLeadingZero(dd);
      DecimalOfDigits(dd[1..]);
    } else {
      DecimalOfDigits(dd);
    }
  }

  /** Four year digits print as "yyy": one leading zero dropped, at least three digits kept. */
  lemma YearDigits(yy: string)
    requires |yy| == 4 && AllDigits(yy) && Value(yy) >= 1
    ensures YearText(Value(yy)) == if yy[0] == '0' then yy[1..] else yy
  {
    var y := Value(yy);
    if yy[0] == '0' {
      ValueLeadingZero(yy);
      var rest := yy[1..];
      if y < 100 {
        PaddedValue(rest);
      } else {
        ValueBelowLeadingZero(rest);
        DecimalOfDigits(rest);
      }
    } else {
      ValueLeadingNonZero(yy);
      DecimalOfDigits(yy);
    }
  }

  lemma ParseExampleMarch1984()
    ensures ParseStamp("1984-03-03T10:00:00Z") == Some(Stamp(1984, 3, 3, 10, 0, 0))
  {
  }

  lemma ParseExampleEarlyYear()
    ensures ParseStamp("0042-12-31T23:59:59Z") == Some(Stamp(42, 12, 31, 23, 59, 59))
  {
  }

  lemma YearTextExamples()
    ensures YearText(1984) == "1984"
    ensures YearText(42) == "042"
  {
    assert Decimal(19) == "19";
    assert Decimal(198) == "198";
    assert Padded(4, 2) == "04";
  }

  /** The example in the source's own comment: the 3rd of March 1984. */
  lemma FormatDateExampleMarch1984()
    ensures FormatDate("1984-03-03T10:00:00Z", EnglishShortMonths) == "Mar 3, 1984"
  {
    ParseExampleMarch1984();
    YearTextExamples();
  }

  /** A year below 1000 keeps three digits. */
  lemma FormatDateExampleEarlyYear()
    ensures FormatDate("0042-12-31T23:59:59Z", EnglishShortMonths) == "Dec 31, 042"
  {
    ParseExampleEarlyYear();
    YearTextExamples();
    assert Decimal(31) == "31";
  }

  /** Text outside the pattern, and a timestamp without its closing 'Z', give the empty string. */
  lemma FormatDateExamplesRejected()
    ensures FormatDate("not-a-date", EnglishShortMonths) == ""
    ensures FormatDate("2023-02-28T10:00:00", EnglishShortMonths) == ""
  {
  }
}
