/** Calendar dates as the day numbers the model compares: the number of days
    since 1970-01-01 in the proleptic Gregorian calendar, which is how a
    `pd.Timestamp` orders dates at day resolution. */
module Calendar {
  datatype Date = Date(year: int, month: int, day: int)

  predicate IsLeapYear(y: int) {
    y % 4 == 0 && (y % 100 != 0 || y % 400 == 0)
  }

  function DaysInYear(y: int): int {
    if IsLeapYear(y) then 366 else 365
  }

  function DaysInMonth(y: int, m: int): int {
    if m == 2 then (if IsLeapYear(y) then 29 else 28)
    else if m == 4 || m == 6 || m == 9 || m == 11 then 30
    else 31
  }

  predicate ValidDate(dt: Date) {
    1 <= dt.month <= 12 && 1 <= dt.day <= DaysInMonth(dt.year, dt.month)
  }

  /** Leap years among 1..x, by the Gregorian rule (extended to x < 1 by floor division). */
  function LeapsThrough(x: int): int {
    x / 4 - x / 100 + x / 400
  }

  /** Days from 1970-01-01 to January 1st of year `y`. */
  function DaysBeforeYear(y: int): int {
    365 * (y - 1970) + LeapsThrough(y - 1) - LeapsThrough(1969)
  }

  /** Days from January 1st to the first day of month `m` of year `y`. */
  function DaysBeforeMonth(y: int, m: int): int
    decreases m
  {
    if m <= 1 then 0 else DaysBeforeMonth(y, m - 1) + DaysInMonth(y, m - 1)
  }

  /** The day number of a date: 1970-01-01 is day 0. */
  function DayNumber(dt: Date): int {
    DaysBeforeYear(dt.year) + DaysBeforeMonth(dt.year, dt.month) + dt.day - 1
  }

  /** The calendar day after `dt`. */
  function NextDay(dt: Date): Date {
    if dt.day < DaysInMonth(dt.year, dt.month) then Date(dt.year, dt.month, dt.day + 1)
    else if dt.month < 12 then Date(dt.year, dt.month + 1, 1)
    else Date(dt.year + 1, 1, 1)
  }

  /** `a` is an earlier calendar date than `b`. */
  predicate Before(a: Date, b: Date) {
    a.year < b.year ||
    (a.year == b.year && (a.month < b.month || (a.month == b.month && a.day < b.day)))
  }

  /** A year has one more leap day exactly when it is a leap year. */
  lemma LeapStep(y: int)
    ensures LeapsThrough(y) - LeapsThrough(y - 1) == if IsLeapYear(y) then 1 else 0
  {
    StepBy4(y);
    StepBy100(y);
    StepBy400(y);
  }

  // Floor division by 4, 100 and 400 steps up exactly at the multiples.

  lemma StepBy4(y: int)
    ensures y / 4 - (y - 1) / 4 == if y % 4 == 0 then 1 else 0
  {
  }

  lemma StepBy100(y: int)
    ensures y / 100 - (y - 1) / 100 == if y % 100 == 0 then 1 else 0
  {
  }

  lemma StepBy400(y: int)
    ensures y / 400 - (y - 1) / 400 == if y % 400 == 0 then 1 else 0
  {
  }

  /** January 1st of the next year follows the last day of this one. */
  lemma YearStep(y: int)
    ensures DaysBeforeYear(y + 1) == DaysBeforeYear(y) + DaysInYear(y)
  {
    LeapStep(y);
  }

  /** The twelve months fill the year. */
  lemma MonthsFillYear(y: int)
    ensures DaysBeforeMonth(y, 13) == DaysInYear(y)
  {
  }

  /** Consecutive calendar days get consecutive day numbers, and the day
      after a valid date is valid. */
  lemma NextDayNumber(dt: Date)
    requires ValidDate(dt)
    ensures ValidDate(NextDay(dt))
    ensures DayNumber(NextDay(dt)) == DayNumber(dt) + 1
  {
    if dt.day == DaysInMonth(dt.year, dt.month) && dt.month == 12 {
      YearStep(dt.year);
      MonthsFillYear(dt.year);
    }
  }

  /** A whole month lies before every later month of the same year. */
  lemma {:induction false} MonthOrder(y: int, m1: int, m2: int)
    requires 1 <= m1 < m2
    ensures DaysBeforeMonth(y, m1) + DaysInMonth(y, m1) <= DaysBeforeMonth(y, m2)
    decreases m2
  {
    if m1 + 1 < m2 {
      MonthOrder(y, m1, m2 - 1);
    }
  }

  /** A whole year lies before every later year. */
  lemma {:induction false} YearOrder(y1: int, y2: int)
    requires y1 < y2
    ensures DaysBeforeYear(y1) + DaysInYear(y1) <= DaysBeforeYear(y2)
    decreases y2 - y1
  {
    YearStep(y1);
    if y1 + 1 < y2 {
      YearOrder(y1 + 1, y2);
    }
  }

  /** A valid date's number lies inside its year. */
  lemma WithinYear(dt: Date)
    requires ValidDate(dt)
    ensures DaysBeforeYear(dt.year) <= DayNumber(dt) < DaysBeforeYear(dt.year) + DaysInYear(dt.year)
  {
    MonthsFillYear(dt.year);
    if dt.month < 12 {
      MonthOrder(dt.year, dt.month, 13);
    }
    DaysBeforeMonthNonNegative(dt.year, dt.month);
  }

  lemma {:induction false} DaysBeforeMonthNonNegative(y: int, m: int)
    ensures DaysBeforeMonth(y, m) >= 0
    decreases m
  {
    if m > 1 {
      DaysBeforeMonthNonNegative(y, m - 1);
    }
  }

  /** An earlier date has a smaller day number. */
  lemma EarlierSmaller(a: Date, b: Date)
    requires ValidDate(a) && ValidDate(b) && Before(a, b)
    ensures DayNumber(a) < DayNumber(b)
  {
    if a.year < b.year {
      WithinYear(a);
      WithinYear(b);
      YearOrder(a.year, b.year);
    } else if a.month < b.month {
      MonthOrder(a.year, a.month, b.month);
    }
  }

  /** Day numbers order valid dates exactly as the calendar does. */
  lemma DayNumberOrder(a: Date, b: Date)
    requires ValidDate(a) && ValidDate(b)
    ensures Before(a, b) <==> DayNumber(a) < DayNumber(b)
  {
    if Before(a, b) {
      EarlierSmaller(a, b);
    } else if Before(b, a) {
      EarlierSmaller(b, a);
    }
  }
}
