/**
 * The check that `datetime.strptime(fragment, '%d/%b/%Y:%H')` makes of a
 * date fragment found by the date pattern, and the hour it yields. Python
 * builds a regular expression from the format (one group per directive),
 * requires the whole fragment to be consumed, and then constructs the date,
 * which rejects year 0 and days past the end of the month.
 */
module Timestamps {
  import opened Options
  import opened Text
  import opened Scanners

  /** The English month abbreviations that `%b` accepts, in lower case; month m is entry m - 1. */
  const MonthAbbreviations: seq<string> :=
    ["jan", "feb", "mar", "apr", "may", "jun", "jul", "aug", "sep", "oct", "nov", "dec"]

  function DigitValue(c: char): nat
    requires IsDigit(c)
  {
    c as int - '0' as int
  }

  /** The decimal value of a string of digits. */
  function Decimal(t: string): nat
    requires forall j :: 0 <= j < |t| ==> IsDigit(t[j])
  {
    if t == [] then 0 else 10 * Decimal(t[..|t| - 1]) + DigitValue(t[|t| - 1])
  }

  function LowerChar(c: char): char {
    if 'A' <= c <= 'Z' then (c as int - 'A' as int + 'a' as int) as char else c
  }

  /** ASCII lower-casing: the `%b` group is compiled with IGNORECASE and looked up in lower case. */
  function Lower(t: string): (r: string)
    ensures |r| == |t|
    ensures forall j :: 0 <= j < |t| ==> r[j] == LowerChar(t[j])
  {
    if t == [] then [] else [LowerChar(t[0])] + Lower(t[1..])
  }

  /** The first index at or after k where x occurs in xs. */
  function IndexFrom(xs: seq<string>, x: string, k: nat): (r: Option<nat>)
    ensures r.Some? ==> k <= r.value < |xs| && xs[r.value] == x
    ensures r.None? <==> forall j :: k <= j < |xs| ==> xs[j] != x
    decreases |xs| - k
  {
    if k >= |xs| then None else if xs[k] == x then Some(k) else IndexFrom(xs, x, k + 1)
  }

  /** `%b`: the month number of a three-letter name, matched case-insensitively. */
  function MonthNumber(name: string): (r: Option<nat>)
    ensures r.Some? <==> Lower(name) in MonthAbbreviations
    ensures r.Some? ==> 1 <= r.value <= 12 && MonthAbbreviations[r.value - 1] == Lower(name)
  {
    match IndexFrom(MonthAbbreviations, Lower(name), 0)
    case None => None
    case Some(k) => Some(k + 1)
  }

  /**
   * `%d`, the group `3[01]|[12]\d|0[1-9]|[1-9]| [1-9]`, on the two digits of the
   * fragment. The one-character alternative `[1-9]` would leave the second
   * digit where the format expects `/`, so only the two-character ones succeed.
   */
  function DayField(c0: char, c1: char): Option<nat>
    requires IsDigit(c0) && IsDigit(c1)
  {
    if c0 == '3' && (c1 == '0' || c1 == '1') then Some(30 + DigitValue(c1))
    else if c0 == '1' || c0 == '2' then Some(10 * DigitValue(c0) + DigitValue(c1))
    else if c0 == '0' && c1 != '0' then Some(DigitValue(c1))
    else None
  }

  /**
   * `%H`, the group `2[0-3]|[0-1]\d|\d`, on the last two characters. The
   * one-digit alternative leaves the second digit unconsumed, which strptime
   * rejects ("unconverted data remains").
   */
  function HourField(c0: char, c1: char): Option<nat>
    requires IsDigit(c0) && IsDigit(c1)
  {
    if c0 == '2' && '0' <= c1 <= '3' then Some(20 + DigitValue(c1))
    else if c0 == '0' || c0 == '1' then Some(10 * DigitValue(c0) + DigitValue(c1))
    else None
  }

  /** Gregorian leap years, as Python's calendar defines them. */
  predicate IsLeapYear(year: nat) {
    year % 4 == 0 && (year % 100 != 0 || year % 400 == 0)
  }

  function DaysInMonth(month: nat, year: nat): nat
    requires 1 <= month <= 12
  {
    if month == 2 then (if IsLeapYear(year) then 29 else 28)
    else if month == 4 || month == 6 || month == 9 || month == 11 then 30
    else 31
  }

  /**
   * `datetime.strptime(stamp, '%d/%b/%Y:%H').hour`, or None where the call
   * raises ValueError.
   */
  function ParseHour(stamp: string): (r: Option<nat>)
    ensures r.Some? ==> r.value <= 23
  {
    if !IsStampShape(stamp) then None
    else
      var day :- DayField(stamp[0], stamp[1]);
      var month :- MonthNumber(stamp[3..6]);
      var hour :- HourField(stamp[12], stamp[13]);
      StampDigits(stamp);
      var year := Decimal(stamp[7..11]);
      if year >= 1 && day <= DaysInMonth(month, year) then Some(hour) else None
  }

  /**
   * The hour a fragment of the date shape denotes, read off its fields: its
   * `HH` when `DD`, `Mon`, `YYYY` and `HH` form a valid date and hour, and
   * None otherwise.
   */
  function StampHour(stamp: string): Option<nat>
    requires IsStampShape(stamp)
  {
    StampDigits(stamp);
    var day, year, hour := Decimal(stamp[0..2]), Decimal(stamp[7..11]), Decimal(stamp[12..14]);
    var month := MonthNumber(stamp[3..6]);
    if month.Some? && IsValidHourStamp(day, month.value, year, hour) then Some(hour) else None
  }

  /** The day, year and hour fields of a date-shaped fragment are all digits. */
  lemma StampDigits(stamp: string)
    requires IsStampShape(stamp)
    ensures forall j :: 0 <= j < 2 ==> IsDigit(stamp[0..2][j]) && IsDigit(stamp[12..14][j])
    ensures forall j :: 0 <= j < 4 ==> IsDigit(stamp[7..11][j])
  {
    assert stamp[0..2] == [stamp[0], stamp[1]];
    assert stamp[12..14] == [stamp[12], stamp[13]];
    assert stamp[7..11] == [stamp[7], stamp[8], stamp[9], stamp[10]];
  }

  /** A day/month/year/hour that the datetime constructor accepts. */
  predicate IsValidHourStamp(day: int, month: int, year: int, hour: int) {
    && 1 <= month <= 12
    && year >= 1
    && 1 <= day <= DaysInMonth(month, year)
    && 0 <= hour <= 23
  }

  lemma DecimalOfTwo(c0: char, c1: char)
    requires IsDigit(c0) && IsDigit(c1)
    ensures Decimal([c0, c1]) == 10 * DigitValue(c0) + DigitValue(c1)
    ensures c0 == '0' <==> DigitValue(c0) == 0
    ensures c0 == '1' <==> DigitValue(c0) == 1
    ensures c0 == '2' <==> DigitValue(c0) == 2
    ensures c0 == '3' <==> DigitValue(c0) == 3
    ensures c1 == '0' <==> DigitValue(c1) == 0
    ensures c1 == '1' <==> DigitValue(c1) == 1
    ensures '0' <= c1 <= '3' <==> DigitValue(c1) <= 3
  {
    var t := [c0, c1];
    assert t[..|t| - 1] == [c0];
    assert [c0][..0] == [];
    assert Decimal([c0]) == DigitValue(c0);
  }

  lemma DayFieldValue(c0: char, c1: char)
    requires IsDigit(c0) && IsDigit(c1)
    ensures var v := Decimal([c0, c1]);
      DayField(c0, c1) == if 1 <= v <= 31 then Some(v) else None
  {
    DecimalOfTwo(c0, c1);
  }

  lemma HourFieldValue(c0: char, c1: char)
    requires IsDigit(c0) && IsDigit(c1)
    ensures var v := Decimal([c0, c1]);
      HourField(c0, c1) == if v <= 23 then Some(v) else None
  {
    DecimalOfTwo(c0, c1);
  }

  /**
   * A fragment of the date pattern's shape parses exactly when its month name
   * is an English abbreviation and its numbers form a valid Gregorian date
   * and hour; the result is then the hour.
   */
  lemma ParseHourIsValidity(stamp: string)
    requires IsStampShape(stamp)
    ensures
      var day, year, hour := Decimal(stamp[0..2]), Decimal(stamp[7..11]), Decimal(stamp[12..14]);
      var month := MonthNumber(stamp[3..6]);
      ParseHour(stamp) ==
        if month.Some? && IsValidHourStamp(day, month.value, year, hour) then Some(hour) else None
    ensures ParseHour(stamp) == StampHour(stamp)
  {
    assert stamp[0..2] == [stamp[0], stamp[1]];
    assert stamp[12..14] == [stamp[12], stamp[13]];
    DayFieldValue(stamp[0], stamp[1]);
    HourFieldValue(stamp[12], stamp[13]);
  }
}
