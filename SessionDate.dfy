/**
 * The date and time-of-day of a tuition session: a LocalDateTime reduced to a
 * day number and a minute of the day. A SessionDate is built from a YYYY-MM-DD
 * date text and an HH:MM time text, or from one combined YYYY-MM-DDTHH:MM text,
 * and building it fails with a SessionException carrying the offending text.
 */
module SessionDates {
  import opened Wrappers
  import opened Calendar
  import opened IsoFormat

  type MinuteOfDay = m: int | 0 <= m < 1440

  /** java.time.LocalDateTime at minute precision. */
  datatype LocalDateTime = LocalDateTime(date: int, time: MinuteOfDay)

  /** "Format of date or time is incorrect: " followed by the text that did not parse. */
  datatype SessionException = IncorrectDateTimeFormat(input: string)

  datatype SessionDate = SessionDate(dateTime: LocalDateTime) {

    /** The whole state: a SessionDate is determined by the LocalDateTime it hands out. */
    function GetDateTime(): (r: LocalDateTime)
      ensures SessionDate(r) == this
    {
      dateTime
    }

    /** The LocalDate part, as a day number; with the time it makes up the LocalDateTime. */
    function GetDate(): (r: int)
      ensures LocalDateTime(r, GetTime()) == GetDateTime()
    {
      dateTime.date
    }

    /** The LocalTime part, as a minute of the day. */
    function GetTime(): MinuteOfDay {
      dateTime.time
    }

    /**
     * The same time of day, n days later: within the four-digit years the
     * calendar date is the one reached by stepping n days through months,
     * year ends and leap days.
     */
    function AddDays(n: int): (r: SessionDate)
      ensures r.GetDate() - GetDate() == n && r.GetTime() == GetTime()
      ensures 0 <= GetDate() && 0 <= n && InFourDigitYears(GetDate()) && InFourDigitYears(r.GetDate()) ==>
                CivilFromDay(r.GetDate()) == DaysLater(CivilFromDay(GetDate()), n)
    {
      var r := SessionDate(LocalDateTime(dateTime.date + n, dateTime.time));
      if 0 <= dateTime.date && 0 <= n && InFourDigitYears(dateTime.date) && InFourDigitYears(dateTime.date + n) then
        DaysLaterOfDayNumber(dateTime.date, n);
        r
      else r
    }

    /** The same time of day, n days earlier, stepping back through the calendar. */
    function MinusDays(n: int): (r: SessionDate)
      ensures GetDate() - r.GetDate() == n && r.GetTime() == GetTime()
      ensures 0 <= n <= GetDate() && InFourDigitYears(GetDate()) ==>
                CivilFromDay(r.GetDate()) == DaysEarlier(CivilFromDay(GetDate()), n)
    {
      var r := SessionDate(LocalDateTime(dateTime.date - n, dateTime.time));
      if 0 <= n <= dateTime.date && InFourDigitYears(dateTime.date) then
        DaysEarlierOfDayNumber(dateTime.date, n);
        r
      else r
    }

    /** SessionDate.equals: same LocalDate and same LocalTime; nothing but a SessionDate is equal to one. */
    predicate Equals(other: AnyObject)
      ensures Equals(other) <==> other == OfSessionDate(this)
    {
      match other
      case OfSessionDate(o) =>
        dateTime.date == o.dateTime.date && dateTime.time == o.dateTime.time
      case OfOtherClass => false
    }
  }

  /** The operand of equals(Object): a SessionDate, or an object of any other class. */
  datatype AnyObject = OfSessionDate(sd: SessionDate) | OfOtherClass

  /** new SessionDate(dateValue, timeValue): the date text is parsed first, then the time text. */
  function FromDateAndTime(dateValue: string, timeValue: string): (r: Result<SessionDate, SessionException>)
    ensures r.Success? ==> InFourDigitYears(r.value.GetDate())
                           && FormatLocalDate(r.value.GetDate()) == dateValue
                           && FormatLocalTime(r.value.GetTime()) == timeValue
    ensures r.Failure? <==> ParseLocalDate(dateValue).None? || ParseLocalTime(timeValue).None?
    ensures r.Failure? && ParseLocalDate(dateValue).None? ==> r.error.input == dateValue
    ensures r.Failure? && ParseLocalDate(dateValue).Some? ==> r.error.input == timeValue
  {
    match ParseLocalDate(dateValue)
    case None => Failure(IncorrectDateTimeFormat(dateValue))
    case Some(d) =>
      match ParseLocalTime(timeValue)
      case None => Failure(IncorrectDateTimeFormat(timeValue))
      case Some(t) =>
        Success(SessionDate(LocalDateTime(d, t)))
  }

  /** new SessionDate(dateTime): one combined text. */
  function FromDateTime(dateTime: string): (r: Result<SessionDate, SessionException>)
    ensures r.Success? ==> InFourDigitYears(r.value.GetDate())
                           && |dateTime| == 16 && dateTime[10] in {'T', 't'}
                           && dateTime[..10] == FormatLocalDate(r.value.GetDate())
                           && dateTime[11..] == FormatLocalTime(r.value.GetTime())
    ensures r.Failure? <==> ParseLocalDateTime(dateTime).None?
    ensures r.Failure? ==> r.error.input == dateTime
  {
    match ParseLocalDateTime(dateTime)
    case None => Failure(IncorrectDateTimeFormat(dateTime))
    case Some((d, t)) =>
      Success(SessionDate(LocalDateTime(d, t)))
  }

  // ---------------------------------------------------------------------------
  // Properties

  /**
   * Building a SessionDate from the printed forms of a date and a time gives
   * exactly that date at that time; together with FromDateAndTime's contract,
   * construction succeeds precisely on printed forms.
   */
  lemma FromDateAndTimeOfPrinted(sd: SessionDate)
    requires InFourDigitYears(sd.GetDate())
    ensures FromDateAndTime(FormatLocalDate(sd.GetDate()), FormatLocalTime(sd.GetTime())) == Success(sd)
  {
    LocalDateRoundTrip(sd.GetDate());
    LocalTimeRoundTrip(sd.GetTime());
  }

  lemma FromDateTimeOfPrinted(sd: SessionDate)
    requires InFourDigitYears(sd.GetDate())
    ensures FromDateTime(FormatLocalDateTime(sd.GetDate(), sd.GetTime())) == Success(sd)
  {
    LocalDateTimeRoundTrip(sd.GetDate(), sd.GetTime());
  }

  /** The two constructors agree: the combined text is the date text, T, and the time text. */
  lemma ConstructorsAgree(dateValue: string, timeValue: string)
    requires |dateValue| == 10 && |timeValue| == 5
    ensures FromDateTime(dateValue + "T" + timeValue).Success? <==> FromDateAndTime(dateValue, timeValue).Success?
    ensures FromDateTime(dateValue + "T" + timeValue).Success? ==>
              FromDateTime(dateValue + "T" + timeValue).value == FromDateAndTime(dateValue, timeValue).value
  {
    var s := dateValue + "T" + timeValue;
    assert s[..10] == dateValue && s[11..] == timeValue;
  }

  lemma EqualsIsEquivalence(a: SessionDate, b: SessionDate, c: SessionDate)
    ensures a.Equals(OfSessionDate(a))
    ensures a.Equals(OfSessionDate(b)) ==> b.Equals(OfSessionDate(a))
    ensures a.Equals(OfSessionDate(b)) && b.Equals(OfSessionDate(c)) ==> a.Equals(OfSessionDate(c))
    ensures !a.Equals(OfOtherClass)
  {
  }

  lemma MinusDaysUndoesAddDays(sd: SessionDate, n: int)
    ensures sd.AddDays(n).MinusDays(n) == sd
    ensures sd.MinusDays(n).AddDays(n) == sd
  {
  }

  lemma AddDaysCompose(sd: SessionDate, m: int, n: int)
    ensures sd.AddDays(m).AddDays(n) == sd.AddDays(m + n)
  {
  }
}
