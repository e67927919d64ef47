/**
 * The proleptic Gregorian calendar underneath java.time's LocalDate, restricted
 * to the four-digit years 0000-9999 that ISO 8601 extended dates (YYYY-MM-DD)
 * write without a sign. A date is a day number: the count of days since
 * 0000-01-01.
 */
module Calendar {

  predicate IsLeapYear(y: int) {
    y % 4 == 0 && (y % 100 != 0 || y % 400 == 0)
  }

  function YearLength(y: int): nat {
    if IsLeapYear(y) then 366 else 365
  }

  function MonthLength(y: int, m: int): nat
    requires 1 <= m <= 12
  {
    if m == 2 then (if IsLeapYear(y) then 29 else 28)
    else if m == 4 || m == 6 || m == 9 || m == 11 then 30
    else 31
  }

  /** Days of year y that precede the first of month m. */
  function DaysBeforeMonth(y: int, m: int): nat
    requires 1 <= m <= 12
  {
    var common :=
      if m == 1 then 0 else if m == 2 then 31 else if m == 3 then 59
      else if m == 4 then 90 else if m == 5 then 120 else if m == 6 then 151
      else if m == 7 then 181 else if m == 8 then 212 else if m == 9 then 243
      else if m == 10 then 273 else if m == 11 then 304 else 334;
    common + (if m > 2 && IsLeapYear(y) then 1 else 0)
  }

  /** Days in the years lo (inclusive) up to hi (exclusive). */
  function YearsSpan(lo: int, hi: int): nat
    requires lo <= hi
    decreases hi - lo
  {
    if lo == hi then 0 else YearLength(lo) + YearsSpan(lo + 1, hi)
  }

  datatype CivilDate = CivilDate(year: int, month: int, day: int)

  /** A calendar date with a four-digit year, a month 1-12 and a day that the month has. */
  predicate ValidDate(c: CivilDate) {
    0 <= c.year <= 9999 && 1 <= c.month <= 12 && 1 <= c.day <= MonthLength(c.year, c.month)
  }

  function DayNumber(c: CivilDate): int
    requires ValidDate(c)
  {
    YearsSpan(0, c.year) + DaysBeforeMonth(c.year, c.month) + c.day - 1
  }

  /** Walks whole years forward from year y; yields the year holding day n and the day's offset in it. */
  function YearOf(n: nat, y: nat): (nat, nat)
    decreases n
  {
    if n < YearLength(y) then (y, n) else YearOf(n - YearLength(y), y + 1)
  }

  /** The last month, at or before m, that starts no later than day-of-year doy. */
  function MonthOf(y: int, doy: nat, m: int): int
    requires 1 <= m <= 12
    decreases m
  {
    if m == 1 || DaysBeforeMonth(y, m) <= doy then m else MonthOf(y, doy, m - 1)
  }

  function CivilFromDay(n: nat): CivilDate {
    var (y, doy) := YearOf(n, 0);
    var m := MonthOf(y, doy, 12);
    CivilDate(y, m, doy - DaysBeforeMonth(y, m) + 1)
  }

  /** Day numbers that fall in the years 0000-9999. */
  predicate InFourDigitYears(n: int) {
    n >= 0 && CivilFromDay(n).year <= 9999
  }

  // ---------------------------------------------------------------------------
  // Month arithmetic

  lemma MonthsAccumulate(y: int, k: int, m: int)
    requires 1 <= k < m <= 12
    ensures DaysBeforeMonth(y, k) + MonthLength(y, k) <= DaysBeforeMonth(y, m)
  {
  }

  lemma MonthsFillYear(y: int)
    ensures DaysBeforeMonth(y, 12) + MonthLength(y, 12) == YearLength(y)
  {
  }

  /** MonthOf finds the month whose days contain doy. */
  lemma {:induction false} MonthOfFinds(y: int, doy: nat, k: int, m: int)
    requires 1 <= k <= m <= 12
    requires DaysBeforeMonth(y, k) <= doy < DaysBeforeMonth(y, k) + MonthLength(y, k)
    ensures MonthOf(y, doy, m) == k
    decreases m
  {
    if m > k {
      MonthsAccumulate(y, k, m);
      MonthOfFinds(y, doy, k, m - 1);
    }
  }

  /** Whatever MonthOf returns is a month that contains doy. */
  lemma {:induction false} MonthOfBounds(y: int, doy: nat, m: int)
    requires 1 <= m <= 12
    requires doy < DaysBeforeMonth(y, m) + MonthLength(y, m)
    ensures 1 <= MonthOf(y, doy, m) <= m
    ensures DaysBeforeMonth(y, MonthOf(y, doy, m)) <= doy
    ensures doy < DaysBeforeMonth(y, MonthOf(y, doy, m)) + MonthLength(y, MonthOf(y, doy, m))
    decreases m
  {
    if m > 1 && doy < DaysBeforeMonth(y, m) {
      MonthsAccumulate(y, m - 1, m);
      assert DaysBeforeMonth(y, m - 1) + MonthLength(y, m - 1) == DaysBeforeMonth(y, m);
      MonthOfBounds(y, doy, m - 1);
    }
  }

  // ---------------------------------------------------------------------------
  // Year arithmetic

  /** YearOf, started at y0, finds year y for a day r days into y. */
  lemma {:induction false} YearOfFinds(y0: nat, y: nat, r: nat)
    requires y0 <= y
    requires r < YearLength(y)
    ensures YearOf(YearsSpan(y0, y) + r, y0) == (y, r)
    decreases y - y0
  {
    if y0 < y {
      YearOfFinds(y0 + 1, y, r);
    }
  }

  /** What YearOf returns is a year at or after y0 and an offset inside it that add back up to n. */
  lemma {:induction false} YearOfBounds(n: nat, y0: nat)
    ensures y0 <= YearOf(n, y0).0
    ensures YearOf(n, y0).1 < YearLength(YearOf(n, y0).0)
    ensures YearsSpan(y0, YearOf(n, y0).0) + YearOf(n, y0).1 == n
    decreases n
  {
    if n >= YearLength(y0) {
      YearOfBounds(n - YearLength(y0), y0 + 1);
    }
  }

  // ---------------------------------------------------------------------------
  // The two conversions are inverse to each other

  lemma DayNumberNonNegative(c: CivilDate)
    requires ValidDate(c)
    ensures DayNumber(c) >= 0
  {
  }

  /** A valid calendar date survives the trip to a day number and back. */
  lemma CivilFromDayNumber(c: CivilDate)
    requires ValidDate(c)
    ensures InFourDigitYears(DayNumber(c))
    ensures CivilFromDay(DayNumber(c)) == c
  {
    var doy := DaysBeforeMonth(c.year, c.month) + c.day - 1;
    MonthsFillYear(c.year);
    if c.month < 12 {
      MonthsAccumulate(c.year, c.month, 12);
    }
    assert doy < YearLength(c.year);
    YearOfFinds(0, c.year, doy);
    MonthOfFinds(c.year, doy, c.month, 12);
  }

  /** Every day number in the four-digit years is the number of a valid calendar date. */
  lemma DayNumberOfCivil(n: int)
    requires InFourDigitYears(n)
    ensures ValidDate(CivilFromDay(n))
    ensures DayNumber(CivilFromDay(n)) == n
  {
    var (y, doy) := YearOf(n, 0);
    YearOfBounds(n, 0);
    MonthsFillYear(y);
    MonthOfBounds(y, doy, 12);
  }

  /** Distinct valid dates have distinct day numbers. */
  lemma DayNumberInjective(c: CivilDate, d: CivilDate)
    requires ValidDate(c) && ValidDate(d)
    requires DayNumber(c) == DayNumber(d)
    ensures c == d
  {
    CivilFromDayNumber(c);
    CivilFromDayNumber(d);
  }

  // ---------------------------------------------------------------------------
  // Stepping through the calendar one day at a time

  /** The date after c: the next day of the month, else the 1st of the next month, else 1 January of the next year. */
  function NextDay(c: CivilDate): (r: CivilDate)
    requires 1 <= c.month <= 12
    ensures 1 <= r.month <= 12
  {
    if c.day < MonthLength(c.year, c.month) then CivilDate(c.year, c.month, c.day + 1)
    else if c.month < 12 then CivilDate(c.year, c.month + 1, 1)
    else CivilDate(c.year + 1, 1, 1)
  }

  /** The date before c: the previous day of the month, else the last day of the previous month, else 31 December of the previous year. */
  function PreviousDay(c: CivilDate): (r: CivilDate)
    requires 1 <= c.month <= 12
    ensures 1 <= r.month <= 12
  {
    if c.day > 1 then CivilDate(c.year, c.month, c.day - 1)
    else if c.month > 1 then CivilDate(c.year, c.month - 1, MonthLength(c.year, c.month - 1))
    else CivilDate(c.year - 1, 12, 31)
  }

  /** The date n days after c, counted day by day. */
  function DaysLater(c: CivilDate, n: nat): (r: CivilDate)
    requires 1 <= c.month <= 12
    ensures 1 <= r.month <= 12
    decreases n
  {
    if n == 0 then c else NextDay(DaysLater(c, n - 1))
  }

  /** The date n days before c, counted day by day. */
  function DaysEarlier(c: CivilDate, n: nat): (r: CivilDate)
    requires 1 <= c.month <= 12
    ensures 1 <= r.month <= 12
    decreases n
  {
    if n == 0 then c else PreviousDay(DaysEarlier(c, n - 1))
  }

  /** Stepping forward then back, or back then forward, returns to the same valid date. */
  lemma StepsUndoEachOther(c: CivilDate)
    requires ValidDate(c)
    ensures PreviousDay(NextDay(c)) == c
    ensures NextDay(PreviousDay(c)) == c
  {
  }

  lemma MonthFollows(y: int, m: int)
    requires 1 <= m < 12
    ensures DaysBeforeMonth(y, m + 1) == DaysBeforeMonth(y, m) + MonthLength(y, m)
  {
  }

  lemma {:induction false} YearsSpanStep(lo: int, hi: int)
    requires lo <= hi
    ensures YearsSpan(lo, hi + 1) == YearsSpan(lo, hi) + YearLength(hi)
    decreases hi - lo
  {
    if lo < hi {
      YearsSpanStep(lo + 1, hi);
    }
  }

  lemma {:induction false} YearsSpanSplit(lo: int, mid: int, hi: int)
    requires lo <= mid <= hi
    ensures YearsSpan(lo, hi) == YearsSpan(lo, mid) + YearsSpan(mid, hi)
    decreases mid - lo
  {
    if lo < mid {
      YearsSpanSplit(lo + 1, mid, hi);
    }
  }

  /** A later day never falls in an earlier year. */
  lemma YearOfMonotone(j: nat, k: nat)
    requires j <= k
    ensures YearOf(j, 0).0 <= YearOf(k, 0).0
  {
    YearOfBounds(j, 0);
    YearOfBounds(k, 0);
    var yj, yk := YearOf(j, 0).0, YearOf(k, 0).0;
    if yj > yk {
      YearsSpanStep(0, yk);
      YearsSpanSplit(0, yk + 1, yj);
      assert false;
    }
  }

  /** The four-digit years are an initial stretch of day numbers. */
  lemma FourDigitYearsDownward(j: int, k: int)
    requires InFourDigitYears(k) && 0 <= j <= k
    ensures InFourDigitYears(j)
  {
    YearOfMonotone(j, k);
  }

  /** Inside a year, the next date has the next day number. */
  lemma NextDayWithinYear(c: CivilDate)
    requires ValidDate(c) && !(c.month == 12 && c.day == 31)
    ensures ValidDate(NextDay(c)) && DayNumber(NextDay(c)) == DayNumber(c) + 1
  {
    if c.day == MonthLength(c.year, c.month) {
      MonthFollows(c.year, c.month);
    }
  }

  /** The day after 31 December of year y is 1 January of year y + 1. */
  lemma NextDayAtYearEnd(y: int)
    requires 0 <= y <= 9999
    ensures CivilFromDay(DayNumber(CivilDate(y, 12, 31)) + 1) == CivilDate(y + 1, 1, 1)
  {
    MonthsFillYear(y);
    YearsSpanStep(0, y);
    YearOfFinds(0, y + 1, 0);
    MonthOfFinds(y + 1, 0, 1, 12);
  }

  /** The day numbered k + 1 is the calendar date after the day numbered k, across month and year ends and leap days. */
  lemma NextDayOfDayNumber(k: nat)
    requires InFourDigitYears(k)
    ensures CivilFromDay(k + 1) == NextDay(CivilFromDay(k))
  {
    var c := CivilFromDay(k);
    DayNumberOfCivil(k);
    if c.month == 12 && c.day == 31 {
      NextDayAtYearEnd(c.year);
    } else {
      NextDayWithinYear(c);
      CivilFromDayNumber(NextDay(c));
    }
  }

  /** The day numbered k - 1 is the calendar date before the day numbered k. */
  lemma PreviousDayOfDayNumber(k: nat)
    requires k >= 1 && InFourDigitYears(k)
    ensures CivilFromDay(k - 1) == PreviousDay(CivilFromDay(k))
  {
    FourDigitYearsDownward(k - 1, k);
    NextDayOfDayNumber(k - 1);
    DayNumberOfCivil(k - 1);
    StepsUndoEachOther(CivilFromDay(k - 1));
  }

  /** Adding n to a day number moves the calendar date n days forward. */
  lemma {:induction false} DaysLaterOfDayNumber(k: nat, n: nat)
    requires InFourDigitYears(k) && InFourDigitYears(k + n)
    ensures CivilFromDay(k + n) == DaysLater(CivilFromDay(k), n)
    decreases n
  {
    if n > 0 {
      FourDigitYearsDownward(k + n - 1, k + n);
      DaysLaterOfDayNumber(k, n - 1);
      NextDayOfDayNumber(k + n - 1);
    }
  }

  /** Subtracting n from a day number moves the calendar date n days back. */
  lemma {:induction false} DaysEarlierOfDayNumber(k: nat, n: nat)
    requires n <= k && InFourDigitYears(k)
    ensures CivilFromDay(k - n) == DaysEarlier(CivilFromDay(k), n)
    decreases n
  {
    if n > 0 {
      DaysEarlierOfDayNumber(k, n - 1);
      FourDigitYearsDownward(k - n + 1, k);
      PreviousDayOfDayNumber(k - n + 1);
    }
  }

  /** One week either side of 2021-04-22, the date the middle-deletion test removes. */
  lemma WeekEitherSide()
    ensures DaysEarlier(CivilDate(2021, 4, 22), 7) == CivilDate(2021, 4, 15)
    ensures DaysLater(CivilDate(2021, 4, 22), 7) == CivilDate(2021, 4, 29)
  {
    assert DaysEarlier(CivilDate(2021, 4, 22), 4) == CivilDate(2021, 4, 18);
    assert DaysLater(CivilDate(2021, 4, 22), 4) == CivilDate(2021, 4, 26);
  }

  /** A week step crosses a leap day and a year end. */
  lemma WeekAcrossLeapDayAndYearEnd()
    ensures DaysLater(CivilDate(2024, 2, 26), 7) == CivilDate(2024, 3, 4)
    ensures DaysEarlier(CivilDate(2021, 1, 3), 7) == CivilDate(2020, 12, 27)
  {
    assert DaysLater(CivilDate(2024, 2, 26), 4) == CivilDate(2024, 3, 1);
    assert DaysEarlier(CivilDate(2021, 1, 3), 4) == CivilDate(2020, 12, 30);
  }
}
