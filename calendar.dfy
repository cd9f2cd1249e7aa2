/**
 * Dates and instants on the fixed UTC+8 wall clock. An instant is a whole
 * number of milliseconds; a day is the day number counted from 1970-01-01, so
 * the instant `DayStart(d) + ms` is `ms` milliseconds after midnight of day `d`.
 */
module Calendar {

  const MsPerSecond: int := 1000
  const MsPerMinute: int := 60000
  const MsPerHour: int := 3600000
  const MsPerDay: int := 86400000

  /** A `full-date` (`yyyy-MM-dd`, section 5.6 of RFC 3339) as its three fields. */
  datatype CivilDate = CivilDate(year: int, month: int, day: int)

  /** Leap years of the proleptic Gregorian calendar. */
  predicate IsLeapYear(year: int) {
    year % 4 == 0 && (year % 100 != 0 || year % 400 == 0)
  }

  function DaysInMonth(year: int, month: int): int {
    if month == 2 then (if IsLeapYear(year) then 29 else 28)
    else if month == 4 || month == 6 || month == 9 || month == 11 then 30
    else 31
  }

  /** A date the date picker can produce: a month 1..12 and a day of that month. */
  predicate IsValidDate(d: CivilDate) {
    1 <= d.month <= 12 && 1 <= d.day <= DaysInMonth(d.year, d.month)
  }

  /** The calendar date after `d`. */
  function NextDay(d: CivilDate): CivilDate {
    if d.day < DaysInMonth(d.year, d.month) then CivilDate(d.year, d.month, d.day + 1)
    else if d.month == 12 then CivilDate(d.year + 1, 1, 1)
    else CivilDate(d.year, d.month + 1, 1)
  }

  /**
   * Days from 0000-03-01 to March 1st of `year`: years are counted from March,
   * so that the leap day is the last day of its year, in eras of 400 years.
   */
  function MarchYearStart(year: int): int {
    var era := year / 400;
    var yearOfEra := year - era * 400;
    era * 146097 + yearOfEra * 365 + yearOfEra / 4 - yearOfEra / 100
  }

  /** Days from March 1st to the first day of the month `monthFromMarch` (0 = March). */
  function DaysBeforeMonth(monthFromMarch: int): int {
    (153 * monthFromMarch + 2) / 5
  }

  /**
   * Days from 1970-01-01 to the given proleptic Gregorian date: the day count
   * that `new Date('yyyy-MM-dd').getTime() / 86400000` yields.
   */
  function DayNumber(d: CivilDate): int {
    var y := if d.month <= 2 then d.year - 1 else d.year;
    var monthFromMarch := if d.month > 2 then d.month - 3 else d.month + 9;
    MarchYearStart(y) + DaysBeforeMonth(monthFromMarch) + d.day - 1 - 719468
  }

  /** Midnight (00:00:00.000) of day `day`. */
  function DayStart(day: int): int {
    day * MsPerDay
  }

  /** The day an instant falls on. */
  function Today(now: int): int {
    now / MsPerDay
  }

  /** Milliseconds since midnight of the instant's own day. */
  function MsOfDay(now: int): (ms: int)
    ensures 0 <= ms < MsPerDay
    ensures now == DayStart(Today(now)) + ms
  {
    now % MsPerDay
  }

  /** An instant is strictly later than `off` milliseconds into day `day` exactly when it
      falls on a later day, or on that day with more than `off` milliseconds gone. */
  lemma AfterWallClock(now: int, day: int, off: int)
    requires 0 <= off < MsPerDay
    ensures now > DayStart(day) + off <==> Today(now) > day || (Today(now) == day && MsOfDay(now) > off)
  {
    var t, ms := Today(now), MsOfDay(now);
    if t > day {
      assert DayStart(t) >= DayStart(day) + MsPerDay;
    } else if t < day {
      assert DayStart(t) + MsPerDay <= DayStart(day);
    }
  }

  /** Day numbers of two fixed dates, as JavaScript's `Date` counts them. */
  lemma DayNumberAnchors()
    ensures DayNumber(CivilDate(1970, 1, 1)) == 0
    ensures DayNumber(CivilDate(2000, 3, 1)) == 11017
    ensures DayNumber(CivilDate(2025, 8, 31)) == 20331
  {
    // 1970-01-01 is day 306 of year 369 of era 4 (years counted from March).
    assert 1969 / 400 == 4 && 369 / 4 == 92 && 369 / 100 == 3 && (153 * 10 + 2) / 5 == 306;
    // 2000-03-01 starts year 0 of era 5.
    assert 2000 / 400 == 5 && (153 * 0 + 2) / 5 == 0;
    // 2025-08-31 is day 183 of year 25 of era 5.
    assert 2025 / 400 == 5 && 25 / 4 == 6 && 25 / 100 == 0 && (153 * 5 + 2) / 5 == 153;
  }

  /** The next year is the next year of the same era, or the first year of the next era. */
  lemma EraStep(year: int)
    ensures year % 400 != 399 ==> (year + 1) / 400 == year / 400 && (year + 1) % 400 == year % 400 + 1
    ensures year % 400 == 399 ==> (year + 1) / 400 == year / 400 + 1 && (year + 1) % 400 == 0
  {
  }

  /** Whole eras do not change a year's remainders by 4 and 100. */
  lemma LeapByYearOfEra(year: int)
    ensures IsLeapYear(year) <==> (year % 400) % 4 == 0 && ((year % 400) % 100 != 0 || year % 400 == 0)
  {
    var era, r := year / 400, year % 400;
    assert year == 4 * (100 * era + r / 4) + r % 4;
    assert year % 4 == r % 4;
    assert year == 100 * (4 * era + r / 100) + r % 100;
    assert year % 100 == r % 100;
  }

  /** Going from `r` to `r + 1` steps the quotient by 4 and by 100 exactly at a multiple. */
  lemma QuotientStep(r: int)
    ensures (r + 1) / 4 - r / 4 == (if (r + 1) % 4 == 0 then 1 else 0)
    ensures (r + 1) / 100 - r / 100 == (if (r + 1) % 100 == 0 then 1 else 0)
  {
  }

  /** A year counted from March has 365 days, plus the leap day of the February it ends with. */
  lemma MarchYearLength(year: int)
    ensures MarchYearStart(year + 1) - MarchYearStart(year) == 365 + (if IsLeapYear(year + 1) then 1 else 0)
  {
    EraStep(year);
    LeapByYearOfEra(year + 1);
    var era, r := year / 400, year % 400;
    var start := era * 146097 + r * 365 + r / 4 - r / 100;
    assert MarchYearStart(year) == start;
    if r == 399 {
      assert MarchYearStart(year + 1) == era * 146097 + 146097;
      assert start == era * 146097 + 145731;
    } else {
      QuotientStep(r);
      var next := r + 1;
      assert MarchYearStart(year + 1) == era * 146097 + next * 365 + next / 4 - next / 100;
    }
  }

  /** The month offsets step by the length of each month from March to the next February. */
  lemma DaysBeforeMonthValues()
    ensures DaysBeforeMonth(0) == 0 && DaysBeforeMonth(1) == 31 && DaysBeforeMonth(2) == 61
    ensures DaysBeforeMonth(3) == 92 && DaysBeforeMonth(4) == 122 && DaysBeforeMonth(5) == 153
    ensures DaysBeforeMonth(6) == 184 && DaysBeforeMonth(7) == 214 && DaysBeforeMonth(8) == 245
    ensures DaysBeforeMonth(9) == 275 && DaysBeforeMonth(10) == 306 && DaysBeforeMonth(11) == 337
  {
  }

  /**
   * `DayNumber` counts days: the date after any valid date is valid and has the
   * next day number, across month and year ends and the leap days of the
   * Gregorian rule. With 1970-01-01 as day 0, every valid date gets its day count.
   */
  lemma DayNumberNextDay(d: CivilDate)
    requires IsValidDate(d)
    ensures IsValidDate(NextDay(d))
    ensures DayNumber(NextDay(d)) == DayNumber(d) + 1
  {
    DaysBeforeMonthValues();
    if d.day == DaysInMonth(d.year, d.month) && d.month == 2 {
      MarchYearLength(d.year - 1);
    }
  }
}
