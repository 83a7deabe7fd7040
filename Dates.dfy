/** The parts of Python's `datetime` module the parser uses: `date(year, month,
    day)` with its range checks, `time.min`, `datetime.combine`, and the text
    `str()` gives for a date and a date-time. */
module Dates {
  import opened Wrappers
  import Strings

  /** `datetime.MINYEAR` and `datetime.MAXYEAR`. */
  const MinYear: nat := 1
  const MaxYear: nat := 9999

  datatype Date = Date(year: nat, month: nat, day: nat)

  /** Gregorian leap years. */
  predicate IsLeapYear(year: nat)
  {
    year % 4 == 0 && (year % 100 != 0 || year % 400 == 0)
  }

  function DaysInMonth(year: nat, month: nat): nat
    requires 1 <= month <= 12
  {
    if month == 2 then (if IsLeapYear(year) then 29 else 28)
    else if month == 4 || month == 6 || month == 9 || month == 11 then 30
    else 31
  }

  /** The arguments `date(year, month, day)` accepts without raising ValueError. */
  predicate IsValidDate(year: nat, month: nat, day: nat)
  {
    && MinYear <= year <= MaxYear
    && 1 <= month <= 12
    && 1 <= day <= DaysInMonth(year, month)
  }

  predicate Valid(d: Date)
  {
    IsValidDate(d.year, d.month, d.day)
  }

  /** `date(year=year, month=month, day=day)`; `None` where it raises ValueError. */
  function MakeDate(year: nat, month: nat, day: nat): Option<Date>
  {
    if IsValidDate(year, month, day) then Some(Date(year, month, day)) else None
  }

  datatype Time = Time(hour: nat, minute: nat, second: nat, microsecond: nat)

  /** `time.min`: midnight. */
  const TimeMin: Time := Time(0, 0, 0, 0)

  datatype DateTime = DateTime(date: Date, time: Time)

  /** `datetime.combine(d, t)`. */
  function Combine(d: Date, t: Time): DateTime
  {
    DateTime(d, t)
  }

  /** `str(d)` for a date: `YYYY-MM-DD`. */
  function IsoFormat(d: Date): string
  {
    Strings.ZeroPad(d.year, 4) + "-" + Strings.ZeroPad(d.month, 2) + "-" + Strings.ZeroPad(d.day, 2)
  }

  /** `str(dt)` for a date-time: `YYYY-MM-DD HH:MM:SS`, with `.ffffff` only
      when there are microseconds. */
  function DateTimeFormat(dt: DateTime): string
  {
    var t := dt.time;
    IsoFormat(dt.date) + " "
      + Strings.ZeroPad(t.hour, 2) + ":" + Strings.ZeroPad(t.minute, 2) + ":" + Strings.ZeroPad(t.second, 2)
      + (if t.microsecond == 0 then "" else "." + Strings.ZeroPad(t.microsecond, 6))
  }

  /** The text of a valid date is ten characters, `-` at positions 4 and 7,
      and its three digit groups read back as the year, month and day. */
  lemma IsoFormatReadsBack(d: Date)
    requires Valid(d)
    ensures var s := IsoFormat(d);
      && |s| == 10 && s[4] == '-' && s[7] == '-'
      && Strings.ParseDecimal(s[..4]) == Some(d.year)
      && Strings.ParseDecimal(s[5..7]) == Some(d.month)
      && Strings.ParseDecimal(s[8..]) == Some(d.day)
  {
    assert Strings.Pow10(2) == 100 && Strings.Pow10(4) == 10000;
    Strings.ZeroPadReadsBack(d.year, 4);
    Strings.ZeroPadReadsBack(d.month, 2);
    Strings.ZeroPadReadsBack(d.day, 2);
    var y, m, dd := Strings.ZeroPad(d.year, 4), Strings.ZeroPad(d.month, 2), Strings.ZeroPad(d.day, 2);
    var s := IsoFormat(d);
    assert s == y + "-" + m + "-" + dd;
    assert s[..4] == y && s[5..7] == m && s[8..] == dd;
  }

  /** A date combined with `time.min` prints as the date followed by ` 00:00:00`. */
  lemma MidnightFormat(d: Date)
    ensures DateTimeFormat(Combine(d, TimeMin)) == IsoFormat(d) + " 00:00:00"
  {
    assert Strings.NatToDecimal(0) == "0";
    assert Strings.Zeros(1) == "0";
    assert Strings.ZeroPad(0, 2) == "00";
  }
}
