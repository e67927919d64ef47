/**
 * The text forms that java.time's ISO_LOCAL_DATE, ISO_LOCAL_TIME and
 * ISO_LOCAL_DATE_TIME parse and print, restricted to
 *   YYYY-MM-DD        (ISO 8601:2004 section 4.1.2.2, extended calendar date),
 *   HH:MM             (section 4.2.2.3, reduced-accuracy local time),
 *   YYYY-MM-DDTHH:MM  (section 4.3.2, combined date and time).
 * Parsing is strict: a month outside 1-12, a day the month does not have,
 * an hour outside 0-23 or a minute outside 0-59 is rejected.
 */
module IsoFormat {
  import opened Wrappers
  import opened Calendar

  predicate IsDigit(c: char) {
    '0' <= c <= '9'
  }

  function DigitValue(c: char): nat
    requires IsDigit(c)
  {
    c as int - '0' as int
  }

  function DigitChar(k: nat): (c: char)
    requires k < 10
    ensures IsDigit(c) && DigitValue(c) == k
  {
    ('0' as int + k) as char
  }

  predicate AllDigits(s: string) {
    forall i :: 0 <= i < |s| ==> IsDigit(s[i])
  }

  function ParseTwo(s: string): nat
    requires |s| == 2 && AllDigits(s)
  {
    10 * DigitValue(s[0]) + DigitValue(s[1])
  }

  function FormatTwo(v: nat): (s: string)
    requires v < 100
    ensures |s| == 2 && AllDigits(s)
  {
    [DigitChar(v / 10), DigitChar(v % 10)]
  }

  function ParseFour(s: string): nat
    requires |s| == 4 && AllDigits(s)
  {
    100 * ParseTwo(s[..2]) + ParseTwo(s[2..])
  }

  function FormatFour(v: nat): (s: string)
    requires v < 10000
    ensures |s| == 4 && AllDigits(s)
  {
    FormatTwo(v / 100) + FormatTwo(v % 100)
  }

  lemma TwoRoundTrip(v: nat)
    requires v < 100
    ensures ParseTwo(FormatTwo(v)) == v
  {
  }

  lemma TwoCanonical(s: string)
    requires |s| == 2 && AllDigits(s)
    ensures ParseTwo(s) < 100 && FormatTwo(ParseTwo(s)) == s
  {
    var a, b := DigitValue(s[0]), DigitValue(s[1]);
    assert (10 * a + b) / 10 == a && (10 * a + b) % 10 == b;
    assert s[0] == DigitChar(a) && s[1] == DigitChar(b);
  }

  lemma FourRoundTrip(v: nat)
    requires v < 10000
    ensures ParseFour(FormatFour(v)) == v
  {
    var s := FormatFour(v);
    assert s[..2] == FormatTwo(v / 100) && s[2..] == FormatTwo(v % 100);
    TwoRoundTrip(v / 100);
    TwoRoundTrip(v % 100);
  }

  lemma FourCanonical(s: string)
    requires |s| == 4 && AllDigits(s)
    ensures ParseFour(s) < 10000 && FormatFour(ParseFour(s)) == s
  {
    var hi, lo := ParseTwo(s[..2]), ParseTwo(s[2..]);
    TwoCanonical(s[..2]);
    TwoCanonical(s[2..]);
    assert (100 * hi + lo) / 100 == hi && (100 * hi + lo) % 100 == lo;
    assert s == s[..2] + s[2..];
  }

  // ---------------------------------------------------------------------------
  // Dates

  /** The fields of a YYYY-MM-DD text, whether or not they name a real date. */
  function DateFields(s: string): Option<CivilDate> {
    if |s| == 10 && s[4] == '-' && s[7] == '-'
       && AllDigits(s[..4]) && AllDigits(s[5..7]) && AllDigits(s[8..])
    then Some(CivilDate(ParseFour(s[..4]), ParseTwo(s[5..7]), ParseTwo(s[8..])))
    else None
  }

  /**
   * LocalDate.parse: the day number of a YYYY-MM-DD text naming a real date.
   * A text that parses is exactly the printed form of the day it denotes.
   */
  function ParseLocalDate(s: string): (r: Option<int>)
    ensures r.Some? ==> InFourDigitYears(r.value) && FormatLocalDate(r.value) == s
  {
    match DateFields(s)
    case Some(c) =>
      if ValidDate(c) then
        CivilFromDayNumber(c);
        FourCanonical(s[..4]);
        TwoCanonical(s[5..7]);
        TwoCanonical(s[8..]);
        assert s == s[..4] + "-" + s[5..7] + "-" + s[8..];
        Some(DayNumber(c))
      else None
    case None => None
  }

  /** LocalDate.toString for a day in the years 0000-9999. */
  function FormatLocalDate(n: int): (s: string)
    requires InFourDigitYears(n)
    ensures |s| == 10
  {
    var c := CivilFromDay(n);
    DayNumberOfCivil(n);
    FormatFour(c.year) + "-" + FormatTwo(c.month) + "-" + FormatTwo(c.day)
  }

  /** Printing a day and parsing the text gives the day back. */
  lemma LocalDateRoundTrip(n: int)
    requires InFourDigitYears(n)
    ensures ParseLocalDate(FormatLocalDate(n)) == Some(n)
  {
    var c := CivilFromDay(n);
    DayNumberOfCivil(n);
    var s := FormatLocalDate(n);
    assert s[..4] == FormatFour(c.year);
    assert s[5..7] == FormatTwo(c.month);
    assert s[8..] == FormatTwo(c.day);
    FourRoundTrip(c.year);
    TwoRoundTrip(c.month);
    TwoRoundTrip(c.day);
  }

  // ---------------------------------------------------------------------------
  // Times of day (minutes since midnight)

  /** LocalTime.parse of an HH:MM text; a text that parses is exactly the printed form of a time 00:00-23:59. */
  function ParseLocalTime(s: string): (r: Option<int>)
    ensures r.Some? ==> 0 <= r.value < 1440 && FormatLocalTime(r.value) == s
  {
    if |s| == 5 && s[2] == ':' && AllDigits(s[..2]) && AllDigits(s[3..]) then
      var h, m := ParseTwo(s[..2]), ParseTwo(s[3..]);
      if h < 24 && m < 60 then
        TwoCanonical(s[..2]);
        TwoCanonical(s[3..]);
        assert (h * 60 + m) / 60 == h && (h * 60 + m) % 60 == m;
        assert s == s[..2] + ":" + s[3..];
        Some(h * 60 + m)
      else None
    else None
  }

  /** LocalTime.toString for a time with zero seconds. */
  function FormatLocalTime(t: int): (s: string)
    requires 0 <= t < 1440
    ensures |s| == 5
  {
    FormatTwo(t / 60) + ":" + FormatTwo(t % 60)
  }

  lemma LocalTimeRoundTrip(t: int)
    requires 0 <= t < 1440
    ensures ParseLocalTime(FormatLocalTime(t)) == Some(t)
  {
    var s := FormatLocalTime(t);
    assert s[..2] == FormatTwo(t / 60) && s[3..] == FormatTwo(t % 60);
    TwoRoundTrip(t / 60);
    TwoRoundTrip(t % 60);
  }

  // ---------------------------------------------------------------------------
  // Combined date and time

  /**
   * LocalDateTime.parse: a date, the designator T (matched case-insensitively)
   * and a time. The text around the designator is the printed date and time.
   */
  function ParseLocalDateTime(s: string): (r: Option<(int, int)>)
    ensures r.Some? ==> |s| == 16 && s[10] in {'T', 't'}
                        && InFourDigitYears(r.value.0) && FormatLocalDate(r.value.0) == s[..10]
                        && 0 <= r.value.1 < 1440 && FormatLocalTime(r.value.1) == s[11..]
  {
    if |s| == 16 && (s[10] == 'T' || s[10] == 't') then
      match (ParseLocalDate(s[..10]), ParseLocalTime(s[11..]))
      case (Some(d), Some(t)) => Some((d, t))
      case _ => None
    else None
  }

  function FormatLocalDateTime(n: int, t: int): (s: string)
    requires InFourDigitYears(n) && 0 <= t < 1440
  {
    FormatLocalDate(n) + "T" + FormatLocalTime(t)
  }

  lemma LocalDateTimeRoundTrip(n: int, t: int)
    requires InFourDigitYears(n) && 0 <= t < 1440
    ensures ParseLocalDateTime(FormatLocalDateTime(n, t)) == Some((n, t))
  {
    var s := FormatLocalDateTime(n, t);
    assert s[..10] == FormatLocalDate(n) && s[11..] == FormatLocalTime(t);
    LocalDateRoundTrip(n);
    LocalTimeRoundTrip(t);
  }

  /**
   * A combined text that parses is the printed form of what it denotes, except
   * that a lower-case t prints back as T.
   */
  lemma LocalDateTimeCanonical(s: string)
    requires ParseLocalDateTime(s).Some?
    ensures FormatLocalDateTime(ParseLocalDateTime(s).value.0, ParseLocalDateTime(s).value.1) == s[..10] + "T" + s[11..]
    ensures s[10] == 'T' ==> FormatLocalDateTime(ParseLocalDateTime(s).value.0, ParseLocalDateTime(s).value.1) == s
  {
    assert s == s[..10] + [s[10]] + s[11..];
  }
}
