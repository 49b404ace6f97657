/** Calendar dates as Go's time.Parse reads them with the layout "2006-01-02"
    (the only layout the event service accepts for an event date), and their
    formatting back to text. */
module Dates {
  import opened Base

  datatype CivilDate = CivilDate(year: int, month: int, day: int)

  /** Gregorian leap years, as Go's calendar computes them. */
  predicate IsLeapYear(y: int)
  {
    y % 4 == 0 && (y % 100 != 0 || y % 400 == 0)
  }

  function DaysIn(month: int, year: int): int
  {
    if month == 2 then (if IsLeapYear(year) then 29 else 28)
    else if month == 4 || month == 6 || month == 9 || month == 11 then 30
    else 31
  }

  /** A date the layout can denote: a four-digit year, a month 1..12 and a
      day that exists in that month. */
  predicate ValidDate(d: CivilDate)
  {
    0 <= d.year <= 9999 && 1 <= d.month <= 12 && 1 <= d.day <= DaysIn(d.month, d.year)
  }

  predicate IsDigit(c: char)
  {
    '0' <= c <= '9'
  }

  predicate AllDigits(s: string)
  {
    forall i :: 0 <= i < |s| ==> IsDigit(s[i])
  }

  function Pow10(n: nat): nat
  {
    if n == 0 then 1 else 10 * Pow10(n - 1)
  }

  /** The value of a string of decimal digits. */
  function DigitsValue(s: string): (v: nat)
    requires AllDigits(s)
    ensures v < Pow10(|s|)
  {
    if s == [] then 0 else 10 * DigitsValue(s[..|s| - 1]) + (s[|s| - 1] as int - '0' as int)
  }

  /** The last `width` decimal digits of n, with leading zeros. */
  function ZeroPadded(n: nat, width: nat): (s: string)
    ensures |s| == width && AllDigits(s)
  {
    if width == 0 then "" else ZeroPadded(n / 10, width - 1) + [('0' as int + n % 10) as char]
  }

  lemma {:induction false} DigitsOfZeroPadded(n: nat, width: nat)
    requires n < Pow10(width)
    ensures DigitsValue(ZeroPadded(n, width)) == n
  {
    if width > 0 {
      var s := ZeroPadded(n, width);
      assert s[..|s| - 1] == ZeroPadded(n / 10, width - 1);
      DigitsOfZeroPadded(n / 10, width - 1);
    }
  }

  lemma {:induction false} ZeroPaddedOfDigits(s: string)
    requires AllDigits(s)
    ensures ZeroPadded(DigitsValue(s), |s|) == s
  {
    if s != [] {
      var init := s[..|s| - 1];
      ZeroPaddedOfDigits(init);
      var v := DigitsValue(s);
      assert v / 10 == DigitsValue(init);
      assert s == init + [s[|s| - 1]];
    }
  }

  /** time.Parse("2006-01-02", s): exactly four digits, '-', two digits,
      '-', two digits and nothing after; the month must lie in 1..12 and the
      day must exist in that month of that year. */
  function ParseDate(s: string): (r: Option<CivilDate>)
    ensures r.Some? ==> ValidDate(r.value)
    ensures r.Some? ==> |s| == 10 && s[4] == '-' && s[7] == '-'
  {
    if |s| == 10 && s[4] == '-' && s[7] == '-'
       && AllDigits(s[..4]) && AllDigits(s[5..7]) && AllDigits(s[8..])
    then
      var d := CivilDate(DigitsValue(s[..4]), DigitsValue(s[5..7]), DigitsValue(s[8..]));
      if ValidDate(d) then Some(d) else None
    else
      None
  }

  /** Formatting with the layout "2006-01-02". */
  function FormatDate(d: CivilDate): (s: string)
    requires ValidDate(d)
    ensures |s| == 10
  {
    ZeroPadded(d.year, 4) + "-" + ZeroPadded(d.month, 2) + "-" + ZeroPadded(d.day, 2)
  }

  /** Formatting with the layout "2006-01-02 15:04:05" of the midnight that
      time.Parse("2006-01-02", ...) yields. */
  function FormatDateTime(d: CivilDate): (s: string)
    requires ValidDate(d)
    ensures |s| == 19 && s[..10] == FormatDate(d)
  {
    FormatDate(d) + " 00:00:00"
  }

  /** Parsing inverts formatting on every date the layout can denote. */
  lemma ParseFormat(d: CivilDate)
    requires ValidDate(d)
    ensures ParseDate(FormatDate(d)) == Some(d)
  {
    var s := FormatDate(d);
    assert s[..4] == ZeroPadded(d.year, 4);
    assert s[5..7] == ZeroPadded(d.month, 2);
    assert s[8..] == ZeroPadded(d.day, 2);
    DigitsOfZeroPadded(d.year, 4);
    DigitsOfZeroPadded(d.month, 2);
    DigitsOfZeroPadded(d.day, 2);
  }

  /** Formatting inverts parsing: a text the parser accepts is exactly the
      canonical text of the date it denotes. */
  lemma FormatParse(s: string)
    requires ParseDate(s).Some?
    ensures FormatDate(ParseDate(s).value) == s
  {
    ZeroPaddedOfDigits(s[..4]);
    ZeroPaddedOfDigits(s[5..7]);
    ZeroPaddedOfDigits(s[8..]);
    assert s == s[..4] + "-" + s[5..7] + "-" + s[8..];
  }
}
