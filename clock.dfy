/** The `%I:%M %p` rendering of a wall-clock time used by the time reply:
    the hour on a 12-hour clock as two digits 01-12, a colon, the minute as
    two digits 00-59, a space and "AM" or "PM" (the `strftime` conversions
    of section 7.27.3.5 of ISO/IEC 9899:2011, in the "C" locale). */
module Clock {
  import opened Wrappers

  predicate IsDigit(c: char) {
    '0' <= c <= '9'
  }

  function Digit(d: nat): (c: char)
    requires d < 10
    ensures IsDigit(c)
  {
    ('0' as int + d) as char
  }

  function DigitValue(c: char): (d: nat)
    requires IsDigit(c)
    ensures d < 10 && Digit(d) == c
  {
    c as int - '0' as int
  }

  /** A number below 100 as exactly two decimal digits, zero-padded. */
  function TwoDigits(n: nat): (r: string)
    requires n < 100
    ensures |r| == 2 && IsDigit(r[0]) && IsDigit(r[1])
    ensures 10 * DigitValue(r[0]) + DigitValue(r[1]) == n
  {
    [Digit(n / 10), Digit(n % 10)]
  }

  /** `%I`: the hour of a 24-hour clock on a 12-hour clock, so that
      midnight and noon are 12 and every other hour keeps its value mod 12. */
  function Hour12(hour: nat): (h: nat)
    requires hour < 24
    ensures 1 <= h <= 12 && h % 12 == hour % 12
  {
    if hour % 12 == 0 then 12 else hour % 12
  }

  /** `%p`: "AM" before noon, "PM" from noon on. */
  function Meridiem(hour: nat): (p: string)
    requires hour < 24
    ensures p == "AM" <==> hour < 12
    ensures p == "AM" || p == "PM"
  {
    if hour < 12 then "AM" else "PM"
  }

  /** `strftime('%I:%M %p')` of the time `hour:minute`. */
  function FormatTime(hour: nat, minute: nat): (r: string)
    requires hour < 24 && minute < 60
    ensures |r| == 8 && r[2] == ':' && r[5] == ' '
    ensures IsDigit(r[0]) && IsDigit(r[1]) && IsDigit(r[3]) && IsDigit(r[4])
    ensures r[6..] == "AM" <==> hour < 12
    ensures r[6..] == "AM" || r[6..] == "PM"
  {
    TwoDigits(Hour12(hour)) + ":" + TwoDigits(minute) + " " + Meridiem(hour)
  }

  /** Reads a `%I:%M %p` string back as a time of day on the 24-hour clock;
      `None` for anything that is not such a string. */
  function ParseTime(s: string): (r: Option<(nat, nat)>)
    ensures r.Some? ==> r.value.0 < 24 && r.value.1 < 60
  {
    if |s| == 8 && s[2] == ':' && s[5] == ' '
       && IsDigit(s[0]) && IsDigit(s[1]) && IsDigit(s[3]) && IsDigit(s[4])
       && (s[6..] == "AM" || s[6..] == "PM")
    then
      var h := 10 * DigitValue(s[0]) + DigitValue(s[1]);
      var m := 10 * DigitValue(s[3]) + DigitValue(s[4]);
      if 1 <= h <= 12 && m < 60 then
        Some((h % 12 + (if s[6..] == "PM" then 12 else 0), m))
      else None
    else None
  }

  /** The rendering loses nothing: the time can be read back from it. */
  lemma {:induction false} ParseFormat(hour: nat, minute: nat)
    requires hour < 24 && minute < 60
    ensures ParseTime(FormatTime(hour, minute)) == Some((hour, minute))
  {
    var r := FormatTime(hour, minute);
    assert r[..2] == TwoDigits(Hour12(hour));
    assert r[3..5] == TwoDigits(minute);
    assert r[6..] == Meridiem(hour);
  }

  /** Hence two different times never render alike. */
  lemma FormatInjective(h1: nat, m1: nat, h2: nat, m2: nat)
    requires h1 < 24 && m1 < 60 && h2 < 24 && m2 < 60
    requires FormatTime(h1, m1) == FormatTime(h2, m2)
    ensures h1 == h2 && m1 == m2
  {
    ParseFormat(h1, m1);
    ParseFormat(h2, m2);
  }

  /** Midnight reads 12 AM and noon 12 PM. */
  lemma FormatMidnightNoon()
    ensures FormatTime(0, 5) == "12:05 AM"
    ensures FormatTime(12, 0) == "12:00 PM"
  {
  }

  /** Morning hours keep their number, zero-padded. */
  lemma FormatMorning()
    ensures FormatTime(9, 30) == "09:30 AM"
  {
  }

  /** The afternoon counts from 01 again. */
  lemma FormatAfternoon()
    ensures FormatTime(13, 7) == "01:07 PM"
    ensures FormatTime(23, 59) == "11:59 PM"
  {
  }
}
