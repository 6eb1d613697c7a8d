/**
 * Calendar dates as the service reads and writes them. Reading is
 * `datetime.strptime(text, "%Y-%m-%d")`: its pattern is four digits for the
 * year, then `-`, then a month matching `1[0-2]|0[1-9]|[1-9]`, then `-`, then a
 * day matching `3[01]|[12]\d|0[1-9]|[1-9]| [1-9]`; text left over after the day
 * is an error, and so is a year 0 or a day past the end of its month.
 * Writing is `strftime("%d.%m.%Y")`.
 */
module Dates {
  import opened Wrappers
  import opened Models

  predicate IsDigit(c: char) {
    '0' <= c <= '9'
  }

  function DigitValue(c: char): (n: int)
    requires IsDigit(c)
    ensures 0 <= n <= 9
  {
    c as int - '0' as int
  }

  function DigitChar(n: int): (c: char)
    requires 0 <= n <= 9
    ensures IsDigit(c) && DigitValue(c) == n
  {
    ('0' as int + n) as char
  }

  /** Gregorian leap years. */
  predicate IsLeapYear(y: int) {
    y % 4 == 0 && (y % 100 != 0 || y % 400 == 0)
  }

  function DaysInMonth(y: int, m: int): (n: int)
    requires 1 <= m <= 12
    ensures 28 <= n <= 31
    ensures n == 28 <==> m == 2 && !IsLeapYear(y)
    ensures n == 29 <==> m == 2 && IsLeapYear(y)
    ensures n == 30 <==> m in {4, 6, 9, 11}
  {
    if m == 2 then (if IsLeapYear(y) then 29 else 28)
    else if m in {4, 6, 9, 11} then 30
    else 31
  }

  /** A date Python's `datetime` can represent. */
  predicate Valid(d: Date) {
    && 1 <= d.year <= 9999
    && 1 <= d.month <= 12
    && 1 <= d.day <= DaysInMonth(d.year, d.month)
  }

  /** The value of a `%Y` field: exactly four digits. */
  function YearField(t: string): (r: Option<int>)
    ensures r.Some? <==> |t| == 4 && forall i | 0 <= i < 4 :: IsDigit(t[i])
    ensures r.Some? ==> 0 <= r.value <= 9999
  {
    if |t| == 4 && IsDigit(t[0]) && IsDigit(t[1]) && IsDigit(t[2]) && IsDigit(t[3]) then
      Some(1000 * DigitValue(t[0]) + 100 * DigitValue(t[1]) + 10 * DigitValue(t[2]) + DigitValue(t[3]))
    else
      None
  }

  /** The value of a `%m` field whose whole text is `t`: `1[0-2]|0[1-9]|[1-9]`. */
  function MonthField(t: string): (r: Option<int>)
    ensures r.Some? ==> 1 <= r.value <= 12
  {
    if |t| == 2 && t[0] == '1' && '0' <= t[1] <= '2' then Some(10 + DigitValue(t[1]))
    else if |t| == 2 && t[0] == '0' && '1' <= t[1] <= '9' then Some(DigitValue(t[1]))
    else if |t| == 1 && '1' <= t[0] <= '9' then Some(DigitValue(t[0]))
    else None
  }

  /** The value of a `%d` field whose whole text is `t`: `3[01]|[12]\d|0[1-9]|[1-9]| [1-9]`. */
  function DayField(t: string): (r: Option<int>)
    ensures r.Some? ==> 1 <= r.value <= 31
  {
    if |t| == 2 && t[0] == '3' && '0' <= t[1] <= '1' then Some(30 + DigitValue(t[1]))
    else if |t| == 2 && '1' <= t[0] <= '2' && IsDigit(t[1]) then Some(10 * DigitValue(t[0]) + DigitValue(t[1]))
    else if |t| == 2 && (t[0] == '0' || t[0] == ' ') && '1' <= t[1] <= '9' then Some(DigitValue(t[1]))
    else if |t| == 1 && '1' <= t[0] <= '9' then Some(DigitValue(t[0]))
    else None
  }

  /**
   * `datetime.strptime(s, "%Y-%m-%d")`: the date `s` denotes, or `None` where
   * Python raises `ValueError`. The month field ends at the first `-` after the
   * year; the day field is everything after the second `-`.
   */
  function Parse(s: string): (r: Option<Date>)
    ensures r.Some? ==> Valid(r.value)
  {
    if |s| < 5 || s[4] != '-' then None
    else
      var rest := s[5..];
      var monthLength := if |rest| >= 2 && rest[1] == '-' then 1 else 2;
      if |rest| <= monthLength || rest[monthLength] != '-' then None
      else
        match (YearField(s[..4]), MonthField(rest[..monthLength]), DayField(rest[monthLength + 1..]))
        case (Some(y), Some(m), Some(d)) =>
          var date := Date(y, m, d);
          if Valid(date) then Some(date) else None
        case _ => None
  }

  /** Two digits, zero padded. */
  function Pad2(n: int): (t: string)
    requires 0 <= n <= 99
    ensures |t| == 2 && IsDigit(t[0]) && IsDigit(t[1])
    ensures 10 * DigitValue(t[0]) + DigitValue(t[1]) == n
  {
    [DigitChar(n / 10), DigitChar(n % 10)]
  }

  /** Four digits, zero padded. */
  function Pad4(n: int): (t: string)
    requires 0 <= n <= 9999
    ensures |t| == 4 && forall i | 0 <= i < 4 :: IsDigit(t[i])
    ensures YearField(t) == Some(n)
  {
    Pad2(n / 100) + Pad2(n % 100)
  }

  /** The canonical `YYYY-MM-DD` text of a date, as the API exchanges it. */
  function IsoText(d: Date): (t: string)
    requires Valid(d)
    ensures |t| == 10 && t[4] == '-' && t[7] == '-'
  {
    Pad4(d.year) + "-" + Pad2(d.month) + "-" + Pad2(d.day)
  }

  /**
   * `strftime("%d.%m.%Y")`: day, month and year, each zero padded, separated by
   * dots. Its fields put back in `%Y-%m-%d` order read as the same date.
   */
  function DottedText(d: Date): (t: string)
    requires Valid(d)
    ensures |t| == 10 && t[2] == '.' && t[5] == '.'
    ensures forall i | 0 <= i < |t| && i != 2 && i != 5 :: IsDigit(t[i])
    ensures Parse(t[6..10] + "-" + t[3..5] + "-" + t[0..2]) == Some(d)
  {
    var t := Pad2(d.day) + "." + Pad2(d.month) + "." + Pad4(d.year);
    assert t[6..10] + "-" + t[3..5] + "-" + t[0..2] == IsoText(d) by {
      assert t[6..10] == Pad4(d.year) && t[3..5] == Pad2(d.month) && t[0..2] == Pad2(d.day);
    }
    ParseIsoText(d);
    t
  }

  /** Zero-padded `YYYY-MM-DD` text: the form `IsoText` writes. */
  predicate IsPadded(s: string) {
    && |s| == 10 && s[4] == '-' && s[7] == '-'
    && forall i | 0 <= i < 10 && i != 4 && i != 7 :: IsDigit(s[i])
  }

  /** Pad2 inverts the two-digit reading of a field. */
  lemma Pad2OfDigits(t: string)
    requires |t| == 2 && IsDigit(t[0]) && IsDigit(t[1])
    ensures Pad2(10 * DigitValue(t[0]) + DigitValue(t[1])) == t
  {
  }

  /** Reading back the canonical text of any representable date yields that date. */
  lemma ParseIsoText(d: Date)
    requires Valid(d)
    ensures Parse(IsoText(d)) == Some(d)
  {
    var s := IsoText(d);
    var rest := s[5..];
    assert s[..4] == Pad4(d.year);
    assert rest[..2] == Pad2(d.month);
    assert rest[3..] == Pad2(d.day);
  }

  /** Pad4 inverts the four-digit reading of a year field. */
  lemma Pad4OfDigits(t: string)
    requires YearField(t).Some?
    ensures Pad4(YearField(t).value) == t
  {
    var hi := 10 * DigitValue(t[0]) + DigitValue(t[1]);
    var lo := 10 * DigitValue(t[2]) + DigitValue(t[3]);
    var n := YearField(t).value;
    assert n == 100 * hi + lo;
    assert n / 100 == hi && n % 100 == lo;
    Pad2OfDigits(t[..2]);
    Pad2OfDigits(t[2..]);
    assert t == t[..2] + t[2..];
  }

  /** The fields a zero-padded text parses to. */
  lemma PaddedFields(s: string)
    requires IsPadded(s) && Parse(s).Some?
    ensures Parse(s).value.year == YearField(s[..4]).value
    ensures Parse(s).value.month == 10 * DigitValue(s[5]) + DigitValue(s[6])
    ensures Parse(s).value.day == 10 * DigitValue(s[8]) + DigitValue(s[9])
  {
    var rest := s[5..];
    assert rest[1] == s[6] && rest[1] != '-';
    assert rest[..2] == s[5..7] && rest[3..] == s[8..];
  }

  /** A zero-padded text that parses is exactly the canonical text of its date. */
  lemma IsoTextOfParse(s: string)
    requires IsPadded(s) && Parse(s).Some?
    ensures IsoText(Parse(s).value) == s
  {
    var d := Parse(s).value;
    PaddedFields(s);
    Pad4OfDigits(s[..4]);
    Pad2OfDigits(s[5..7]);
    Pad2OfDigits(s[8..]);
    assert s == s[..4] + "-" + s[5..7] + "-" + s[8..];
  }

  /** The dotted text is the canonical text's fields in the order day, month, year. */
  lemma DottedRearrangesIso(d: Date)
    requires Valid(d)
    ensures var iso := IsoText(d);
      DottedText(d) == iso[8..10] + "." + iso[5..7] + "." + iso[..4]
  {
    var iso := IsoText(d);
    assert iso[8..10] == Pad2(d.day);
    assert iso[5..7] == Pad2(d.month);
    assert iso[..4] == Pad4(d.year);
  }

  /** A valid zero-padded `YYYY-MM-DD` is written back as `DD.MM.YYYY` with the same digits. */
  lemma ReformatPadded(s: string)
    requires IsPadded(s) && Parse(s).Some?
    ensures DottedText(Parse(s).value) == s[8..10] + "." + s[5..7] + "." + s[..4]
  {
    IsoTextOfParse(s);
    DottedRearrangesIso(Parse(s).value);
  }

  /** Text after the canonical zero-padded `YYYY-MM-DD` of a date is left over, which `strptime` rejects. */
  lemma TrailingTextRejected(d: Date, extra: string)
    requires Valid(d) && extra != []
    ensures Parse(IsoText(d) + extra) == None
  {
    var s := IsoText(d) + extra;
    assert s[4] == '-' && s[5..][2] == '-' && s[5..][1] != '-';
    assert |s[5..][3..]| > 2;
  }

  /** Leap days and month ends are checked against the calendar. */
  lemma CalendarExamples()
    ensures Parse("2024-02-29") == Some(Date(2024, 2, 29))
    ensures Parse("2023-02-29") == None
    ensures Parse("1900-02-29") == None
    ensures Parse("2000-02-29") == Some(Date(2000, 2, 29))
    ensures Parse("2024-04-31") == None
  {
    assert "2024-02-29"[5..][..2] == "02";
  }

  /** Fields out of range and text that is no date are refused. */
  lemma FieldExamples()
    ensures Parse("2024-13-01") == None
    ensures Parse("0000-01-01") == None
    ensures Parse("not-a-date") == None
  {
  }

  /** Unpadded fields are read as `strptime` reads them, and written back padded. */
  lemma UnpaddedExample()
    ensures Parse("2024-3-1") == Some(Date(2024, 3, 1))
    ensures DottedText(Date(2024, 3, 1)) == "01.03.2024"
  {
  }

  /** A day padded with a space is read as `strptime` reads it. */
  lemma SpacePaddedExample()
    ensures Parse("2024-03- 1") == Some(Date(2024, 3, 1))
  {
  }
}
