/**
 * The scalar values a match carries besides strings and enums: the odd (a
 * Java Double), the calendar date (java.time.LocalDate) and the time of day
 * to the minute (java.time.LocalTime), with the "yyyy-MM-dd" and "HH:mm"
 * texts the service parses and the toString forms it prints.
 */
module Values {

  /** A Double odd, kept as its IEEE 754 bit pattern: it is only ever copied. */
  datatype Odd = Odd(bits: bv64)

  datatype Date = Date(year: int, month: int, day: int)

  datatype Time = Time(hour: int, minute: int)

  predicate IsDigit(c: char) {
    '0' <= c <= '9'
  }

  predicate AllDigits(s: string) {
    forall i :: 0 <= i < |s| ==> IsDigit(s[i])
  }

  function DigitChar(d: int): (c: char)
    requires 0 <= d <= 9
    ensures IsDigit(c)
  {
    (d + '0' as int) as char
  }

  function Pow10(n: nat): (p: nat)
    ensures p >= 1
  {
    if n == 0 then 1 else 10 * Pow10(n - 1)
  }

  /** The number a string of decimal digits spells, most significant first. */
  function Number(s: string): (n: nat)
    requires AllDigits(s)
    ensures n < Pow10(|s|)
  {
    if s == [] then 0 else 10 * Number(s[..|s| - 1]) + (s[|s| - 1] as int - '0' as int)
  }

  /** n written with exactly `width` decimal digits, zero-padded on the left. */
  function Digits(n: nat, width: nat): (s: string)
    ensures |s| == width && AllDigits(s)
  {
    if width == 0 then [] else Digits(n / 10, width - 1) + [DigitChar(n % 10)]
  }

  /** Reading back a zero-padded number gives the number, when it fits. */
  lemma {:induction false} NumberOfDigits(n: nat, width: nat)
    requires n < Pow10(width)
    ensures Number(Digits(n, width)) == n
  {
    if width > 0 {
      NumberOfDigits(n / 10, width - 1);
      var s := Digits(n, width);
      assert s[..|s| - 1] == Digits(n / 10, width - 1);
    }
  }

  /** Writing back the number a digit string spells gives that string. */
  lemma {:induction false} DigitsOfNumber(s: string)
    requires AllDigits(s)
    ensures Digits(Number(s), |s|) == s
  {
    if s != [] {
      var init := s[..|s| - 1];
      DigitsOfNumber(init);
      var n := Number(s);
      assert n / 10 == Number(init) && n % 10 == s[|s| - 1] as int - '0' as int;
      assert s == init + [s[|s| - 1]];
    }
  }

  /** Long.toString of a non-negative number: its decimal digits, no padding. */
  function NaturalString(n: nat): (s: string)
    ensures |s| >= 1 && AllDigits(s) && Number(s) == n
  {
    if n < 10 then [DigitChar(n)]
    else
      var s := NaturalString(n / 10) + [DigitChar(n % 10)];
      assert s[..|s| - 1] == NaturalString(n / 10);
      s
  }

  /** Long.toString: a minus sign before the digits of a negative number. */
  function DecimalString(n: int): (s: string)
    ensures n >= 0 ==> AllDigits(s) && Number(s) == n
    ensures n < 0 ==> |s| >= 2 && s[0] == '-' && AllDigits(s[1..]) && Number(s[1..]) == -n
  {
    if n >= 0 then NaturalString(n) else "-" + NaturalString(-n)
  }

  predicate IsLeapYear(year: int) {
    year % 4 == 0 && (year % 100 != 0 || year % 400 == 0)
  }

  function DaysInMonth(year: int, month: int): int
    requires 1 <= month <= 12
  {
    if month == 2 then (if IsLeapYear(year) then 29 else 28)
    else if month == 4 || month == 6 || month == 9 || month == 11 then 30
    else 31
  }

  /** A date the "yyyy-MM-dd" pattern can both read and print back. */
  predicate IsCalendarDate(d: Date) {
    1 <= d.year <= 9999 && 1 <= d.month <= 12 && 1 <= d.day <= DaysInMonth(d.year, d.month)
  }

  predicate IsClockTime(t: Time) {
    0 <= t.hour <= 23 && 0 <= t.minute <= 59
  }

  /** Digits and dashes in the "yyyy-MM-dd" layout. */
  predicate IsDateShape(s: string) {
    |s| == 10 && s[4] == '-' && s[7] == '-'
    && AllDigits(s[..4]) && AllDigits(s[5..7]) && AllDigits(s[8..])
  }

  function DateFields(s: string): Date
    requires IsDateShape(s)
  {
    Date(Number(s[..4]), Number(s[5..7]), Number(s[8..]))
  }

  /**
   * Text that LocalDate.parse(s, "yyyy-MM-dd") reads exactly: the layout and
   * a real calendar day (a day past the month's end, which java.time's
   * default resolver would quietly clamp, is excluded).
   */
  predicate IsDateText(s: string) {
    IsDateShape(s) && IsCalendarDate(DateFields(s))
  }

  /** Digits and a colon in the "HH:mm" layout. */
  predicate IsTimeShape(s: string) {
    |s| == 5 && s[2] == ':' && AllDigits(s[..2]) && AllDigits(s[3..])
  }

  function TimeFields(s: string): Time
    requires IsTimeShape(s)
  {
    Time(Number(s[..2]), Number(s[3..]))
  }

  /**
   * Hour 24 with minute 0: java.time's default (smart) resolver reads it as
   * the midnight that ends the day, and LocalTime drops the extra day.
   */
  predicate IsEndOfDay(t: Time) {
    t.hour == 24 && t.minute == 0
  }

  /**
   * Text that LocalTime.parse(s, "HH:mm") reads: the layout and a real time
   * of day, or the end-of-day "24:00".
   */
  predicate IsTimeText(s: string) {
    IsTimeShape(s) && (IsClockTime(TimeFields(s)) || IsEndOfDay(TimeFields(s)))
  }

  /** LocalDate.parse(s, ofPattern("yyyy-MM-dd")) on text it accepts. */
  function ParseDate(s: string): (d: Date)
    requires IsDateText(s)
    ensures IsCalendarDate(d)
  {
    DateFields(s)
  }

  /** LocalTime.parse(s, ofPattern("HH:mm")) on text it accepts. */
  function ParseTime(s: string): (t: Time)
    requires IsTimeText(s)
    ensures IsClockTime(t)
  {
    var fields := TimeFields(s);
    if IsEndOfDay(fields) then Time(0, 0) else fields
  }

  /** LocalDate.toString for a four-digit year. */
  function FormatDate(d: Date): (s: string)
    requires IsCalendarDate(d)
    ensures |s| == 10
  {
    Digits(d.year, 4) + "-" + Digits(d.month, 2) + "-" + Digits(d.day, 2)
  }

  /** LocalTime.toString for a time with no seconds. */
  function FormatTime(t: Time): (s: string)
    requires IsClockTime(t)
    ensures |s| == 5
  {
    Digits(t.hour, 2) + ":" + Digits(t.minute, 2)
  }

  /** Printing a parsed date gives back the text it was parsed from. */
  lemma FormatParseDate(s: string)
    requires IsDateText(s)
    ensures FormatDate(ParseDate(s)) == s
  {
    DigitsOfNumber(s[..4]);
    DigitsOfNumber(s[5..7]);
    DigitsOfNumber(s[8..]);
    assert s == s[..4] + "-" + s[5..7] + "-" + s[8..];
  }

  /** Parsing a printed date gives back the date. */
  lemma ParseFormatDate(d: Date)
    requires IsCalendarDate(d)
    ensures IsDateText(FormatDate(d)) && ParseDate(FormatDate(d)) == d
  {
    var s := FormatDate(d);
    NumberOfDigits(d.year, 4);
    NumberOfDigits(d.month, 2);
    NumberOfDigits(d.day, 2);
    assert s[..4] == Digits(d.year, 4);
    assert s[5..7] == Digits(d.month, 2);
    assert s[8..] == Digits(d.day, 2);
  }

  /** The only "HH:mm" text with hour 24 and minute 0 is "24:00". */
  lemma EndOfDayText(s: string)
    requires IsTimeShape(s)
    ensures IsEndOfDay(TimeFields(s)) <==> s == "24:00"
  {
    if IsEndOfDay(TimeFields(s)) {
      DigitsOfNumber(s[..2]);
      DigitsOfNumber(s[3..]);
      assert s[..2] == Digits(24, 2) == "24";
      assert s[3..] == Digits(0, 2) == "00";
      assert s == s[..2] + ":" + s[3..];
    }
    if s == "24:00" {
      assert s[..2] == "24" && s[3..] == "00";
      assert Number("2") == 2 && Number("0") == 0;
      assert "24"[..1] == "2" && "00"[..1] == "0";
    }
  }

  lemma MidnightText()
    ensures FormatTime(Time(0, 0)) == "00:00"
  {
    assert Digits(0, 2) == "00";
  }

  /**
   * Printing a parsed time gives back the text it was parsed from, except
   * "24:00", which is read as midnight and prints as "00:00".
   */
  lemma FormatParseTime(s: string)
    requires IsTimeText(s)
    ensures s == "24:00" ==> FormatTime(ParseTime(s)) == "00:00"
    ensures s != "24:00" ==> FormatTime(ParseTime(s)) == s
  {
    EndOfDayText(s);
    if s == "24:00" {
      MidnightText();
    } else {
      DigitsOfNumber(s[..2]);
      DigitsOfNumber(s[3..]);
      assert s == s[..2] + ":" + s[3..];
    }
  }

  /** Parsing a printed time gives back the time. */
  lemma ParseFormatTime(t: Time)
    requires IsClockTime(t)
    ensures IsTimeText(FormatTime(t)) && ParseTime(FormatTime(t)) == t
  {
    var s := FormatTime(t);
    NumberOfDigits(t.hour, 2);
    NumberOfDigits(t.minute, 2);
    assert s[..2] == Digits(t.hour, 2);
    assert s[3..] == Digits(t.minute, 2);
  }

  /**
   * Two accepted date texts parse to the same date only if they are the same
   * text, so comparing parsed dates is comparing the request's strings.
   */
  lemma ParseDateInjective(s: string, t: string)
    requires IsDateText(s) && IsDateText(t)
    ensures ParseDate(s) == ParseDate(t) <==> s == t
  {
    FormatParseDate(s);
    FormatParseDate(t);
  }

  /** "24:00" is midnight; no other hour past 23 is read. */
  lemma EndOfDayExamples()
    ensures IsTimeText("24:00") && ParseTime("24:00") == Time(0, 0)
    ensures !IsTimeText("24:01") && !IsTimeText("25:00")
  {
    EndOfDayText("24:00");
    assert Number("24") == 24 by {
      assert "24"[..1] == "2" && Number("2") == 2;
    }
    assert Number("25") == 25 by {
      assert "25"[..1] == "2" && Number("2") == 2;
    }
    assert Number("01") == 1 by {
      assert "01"[..1] == "0" && Number("0") == 0;
    }
    assert "24:00"[..2] == "24" && "24:00"[3..] == "00";
    assert "24:01"[..2] == "24" && "24:01"[3..] == "01";
    assert "25:00"[..2] == "25" && "25:00"[3..] == "00";
  }

  /** Two time texts name the same time: equal, or "24:00" against "00:00". */
  predicate SameTimeText(s: string, t: string) {
    s == t || (s == "24:00" && t == "00:00") || (s == "00:00" && t == "24:00")
  }

  /**
   * Two accepted time texts parse to the same time exactly when they are
   * the same text or are "24:00" and "00:00", both of which are midnight.
   */
  lemma ParseTimeInjective(s: string, t: string)
    requires IsTimeText(s) && IsTimeText(t)
    ensures ParseTime(s) == ParseTime(t) <==> SameTimeText(s, t)
  {
    FormatParseTime(s);
    FormatParseTime(t);
    if s == "24:00" || t == "24:00" {
      MidnightText();
      ParseFormatTime(Time(0, 0));
    }
  }
}
