/** Civil (proleptic Gregorian) calendar arithmetic in UTC: the number that
    Go's `time.Time.Unix()` returns for a date and time given without a time
    zone, as `time.Parse` produces. */
module Calendar {

  /** A civil date and time of day, as the fields of a parsed timestamp. */
  datatype DateTime = DateTime(year: int, month: int, day: int, hour: int, minute: int, second: int) {

    /** An existing calendar date in year 0 or later, and a time of day
        between 00:00:00 and 23:59:59. */
    predicate Valid() {
      && 0 <= year
      && 1 <= month <= 12
      && 1 <= day <= DaysIn(month, year)
      && 0 <= hour < 24
      && 0 <= minute < 60
      && 0 <= second < 60
    }
  }

  /** Gregorian leap years, as Go's `isLeap`. */
  predicate IsLeap(year: int) {
    year % 4 == 0 && (year % 100 != 0 || year % 400 == 0)
  }

  function DaysInYear(year: int): int {
    if IsLeap(year) then 366 else 365
  }

  /** The length of a month, as Go's `daysIn`. */
  function DaysIn(month: int, year: int): int
    requires 1 <= month <= 12
  {
    if month == 2 then (if IsLeap(year) then 29 else 28)
    else if month == 4 || month == 6 || month == 9 || month == 11 then 30
    else 31
  }

  /** Days of `year` that come before the first of `month`. */
  function DaysBeforeMonth(month: int, year: int): int
    requires 1 <= month <= 12
  {
    [0, 31, 59, 90, 120, 151, 181, 212, 243, 273, 304, 334][month - 1]
    + (if month > 2 && IsLeap(year) then 1 else 0)
  }

  /** The number of leap years among 0, 1, ..., year - 1. */
  function LeapYearsBefore(year: nat): int {
    Multiples(year, 4) - Multiples(year, 100) + Multiples(year, 400)
  }

  /** The number of multiples of `d` among 0, 1, ..., year - 1. */
  function Multiples(year: nat, d: nat): int
    requires d > 0
  {
    (year + d - 1) / d
  }

  /** Days from 0000-01-01 to the first day of `year`. */
  function DaysBeforeYear(year: nat): int {
    365 * year + LeapYearsBefore(year)
  }

  /** Days from 0000-01-01 to 1970-01-01. */
  const UnixEpochDay: int := 719528

  /** Days from 1970-01-01 to the given date (negative before it). */
  function DaysSinceEpoch(year: nat, month: int, day: int): int
    requires 1 <= month <= 12
  {
    DaysBeforeYear(year) + DaysBeforeMonth(month, year) + day - 1 - UnixEpochDay
  }

  /** Seconds from 1970-01-01 00:00:00 UTC to `t`: Go's
      `time.Date(...).Unix()` for a UTC date. Every day is 86400 seconds
      long (Unix time has no leap seconds), so the instant lies within the
      86400 seconds of its day. */
  function UnixSeconds(t: DateTime): (r: int)
    requires t.Valid()
    ensures DaysSinceEpoch(t.year, t.month, t.day) * 86400 <= r < DaysSinceEpoch(t.year, t.month, t.day) * 86400 + 86400
  {
    DaysSinceEpoch(t.year, t.month, t.day) * 86400 + t.hour * 3600 + t.minute * 60 + t.second
  }

  /** Reference definition: the days before `year`, summed year by year. */
  function DaysBeforeYearSum(year: nat): int {
    if year == 0 then 0 else DaysBeforeYearSum(year - 1) + DaysInYear(year - 1)
  }

  /** Moving from `year` to `year + 1` adds one multiple of `d` exactly
      when `year` is one. */
  lemma MultiplesStep(year: nat, d: int)
    requires d == 4 || d == 100 || d == 400
    ensures Multiples(year + 1, d) == Multiples(year, d) + (if year % d == 0 then 1 else 0)
  {
    if d == 4 {
      assert (year + 4) / 4 == (year + 3) / 4 + (if year % 4 == 0 then 1 else 0);
    } else if d == 100 {
      assert (year + 100) / 100 == (year + 99) / 100 + (if year % 100 == 0 then 1 else 0);
    } else {
      assert (year + 400) / 400 == (year + 399) / 400 + (if year % 400 == 0 then 1 else 0);
    }
  }

  /** A multiple of 400 is one of 100, and a multiple of 100 one of 4. */
  lemma MultipleChain(year: nat)
    ensures year % 400 == 0 ==> year % 100 == 0
    ensures year % 100 == 0 ==> year % 4 == 0
  {
    if year % 400 == 0 {
      assert year == 100 * (4 * (year / 400));
    }
    if year % 100 == 0 {
      assert year == 4 * (25 * (year / 100));
    }
  }

  lemma LeapYearsStep(year: nat)
    ensures LeapYearsBefore(year + 1) == LeapYearsBefore(year) + (if IsLeap(year) then 1 else 0)
  {
    MultiplesStep(year, 4);
    MultiplesStep(year, 100);
    MultiplesStep(year, 400);
    MultipleChain(year);
  }

  /** The closed form for the days before a year agrees with counting the
      days of each earlier year. */
  lemma {:induction false} DaysBeforeYearIsSum(year: nat)
    ensures DaysBeforeYear(year) == DaysBeforeYearSum(year)
  {
    if year > 0 {
      DaysBeforeYearIsSum(year - 1);
      LeapYearsStep(year - 1);
    }
  }

  /** The Unix epoch is second zero. */
  lemma EpochIsZero()
    ensures UnixSeconds(DateTime(1970, 1, 1, 0, 0, 0)) == 0
  {
  }

  /** 2024-03-15 08:30:00 UTC is second 1710491400: day 19797 since the
      epoch, 60 days into a leap year. */
  lemma UnixSecondsExample()
    ensures UnixSeconds(DateTime(2024, 3, 15, 8, 30, 0)) == 1710491400
  {
    assert LeapYearsBefore(2024) == 491 && DaysBeforeMonth(3, 2024) == 60;
  }

  /** Every valid instant of years 0 to 9999 lies between the first second
      of year 0 and the last second of year 9999. */
  lemma FourDigitYearRange(t: DateTime)
    requires t.Valid() && t.year <= 9999
    ensures -62167219200 <= UnixSeconds(t) <= 253402300799
  {
    FourDigitYearDays(t);
  }

  /** The days of years 0 to 9999 run from 0000-01-01, day -719528 of the
      epoch, to 9999-12-31, day 2932896. */
  lemma FourDigitYearDays(t: DateTime)
    requires t.Valid() && t.year <= 9999
    ensures -UnixEpochDay <= DaysSinceEpoch(t.year, t.month, t.day) <= 2932896
  {
    DayOfYearBound(t.month, t.day, t.year);
    DaysBeforeYearGrows(0, t.year);
    assert DaysBeforeYear(0) == 0;
    LastYearStart();
    if t.year < 9999 {
      EndsBeforeLastYear(t.year);
    }
  }

  /** Year 9999 starts 3652060 days after year 0. */
  lemma LastYearStart()
    ensures DaysBeforeYear(9999) == 3652060
  {
    assert Multiples(9999, 4) == 2500 && Multiples(9999, 100) == 100 && Multiples(9999, 400) == 25;
  }

  /** A year before 9999 ends before year 9999 starts. */
  lemma EndsBeforeLastYear(year: nat)
    requires year < 9999
    ensures DaysBeforeYear(year) + DaysInYear(year) <= DaysBeforeYear(9999)
  {
    DaysBeforeYearGrows(year + 1, 9999);
    LeapYearsStep(year);
  }

  /** The instant one second after `t`, with the carries of a clock and a
      calendar: seconds into minutes, hours, days, months and years. */
  function NextSecond(t: DateTime): DateTime
    requires t.Valid()
  {
    if t.second < 59 then t.(second := t.second + 1)
    else if t.minute < 59 then t.(minute := t.minute + 1, second := 0)
    else if t.hour < 23 then t.(hour := t.hour + 1, minute := 0, second := 0)
    else if t.day < DaysIn(t.month, t.year) then DateTime(t.year, t.month, t.day + 1, 0, 0, 0)
    else if t.month < 12 then DateTime(t.year, t.month + 1, 1, 0, 0, 0)
    else DateTime(t.year + 1, 1, 1, 0, 0, 0)
  }

  /** Unix seconds count the ticks of the civil clock: the next second of
      the calendar is the next number. With `EpochIsZero` this fixes the
      value of every valid date and time. */
  lemma NextSecondAddsOne(t: DateTime)
    requires t.Valid()
    ensures NextSecond(t).Valid()
    ensures UnixSeconds(NextSecond(t)) == UnixSeconds(t) + 1
  {
    if t.second == 59 && t.minute == 59 && t.hour == 23 {
      NextDay(t);
    }
  }

  /** After the last second of a day comes the first second of the next
      day: its day number is one more. */
  lemma NextDay(t: DateTime)
    requires t.Valid() && t.second == 59 && t.minute == 59 && t.hour == 23
    ensures NextSecond(t).Valid()
    ensures DaysSinceEpoch(NextSecond(t).year, NextSecond(t).month, NextSecond(t).day)
      == DaysSinceEpoch(t.year, t.month, t.day) + 1
  {
    var days := DaysSinceEpoch(t.year, t.month, t.day);
    var next := NextSecond(t);
    if t.day < DaysIn(t.month, t.year) {
    } else if t.month < 12 {
      MonthStep(t.month, t.year);
    } else {
      LeapYearsStep(t.year);
      assert DaysBeforeMonth(12, t.year) + 31 == DaysInYear(t.year);
    }
  }

  /** The next month starts right after the last day of this one. */
  lemma MonthStep(month: int, year: int)
    requires 1 <= month < 12
    ensures DaysBeforeMonth(month + 1, year) == DaysBeforeMonth(month, year) + DaysIn(month, year)
  {
  }

  /** A later month of the same year starts after this one has ended. */
  lemma {:induction false} MonthsGrow(m1: int, m2: int, year: int)
    requires 1 <= m1 < m2 <= 12
    ensures DaysBeforeMonth(m1, year) + DaysIn(m1, year) <= DaysBeforeMonth(m2, year)
    decreases m2 - m1
  {
    MonthStep(m1, year);
    if m1 + 1 < m2 {
      MonthsGrow(m1 + 1, m2, year);
    }
  }

  /** A valid date is one of the days of its year. */
  lemma DayOfYearBound(month: int, day: int, year: int)
    requires 1 <= month <= 12 && 1 <= day <= DaysIn(month, year)
    ensures 0 <= DaysBeforeMonth(month, year) + day - 1 < DaysInYear(year)
  {
    if month < 12 {
      MonthsGrow(month, 12, year);
    }
  }

  /** `t1` comes strictly before `t2` in calendar order. */
  predicate Before(t1: DateTime, t2: DateTime) {
    if t1.year != t2.year then t1.year < t2.year
    else if t1.month != t2.month then t1.month < t2.month
    else if t1.day != t2.day then t1.day < t2.day
    else if t1.hour != t2.hour then t1.hour < t2.hour
    else if t1.minute != t2.minute then t1.minute < t2.minute
    else t1.second < t2.second
  }

  lemma {:induction false} DaysBeforeYearGrows(a: nat, b: nat)
    requires a <= b
    ensures DaysBeforeYear(b) - DaysBeforeYear(a) >= 365 * (b - a)
    decreases b - a
  {
    if a < b {
      DaysBeforeYearGrows(a + 1, b);
      LeapYearsStep(a);
    }
  }

  /** A later date of a valid pair has a larger day count. */
  lemma DaysSinceEpochMonotone(t1: DateTime, t2: DateTime)
    requires t1.Valid() && t2.Valid()
    requires (t1.year, t1.month, t1.day) != (t2.year, t2.month, t2.day)
    requires Before(t1, t2)
    ensures DaysSinceEpoch(t1.year, t1.month, t1.day) < DaysSinceEpoch(t2.year, t2.month, t2.day)
  {
    if t1.year < t2.year {
      DayOfYearBound(t1.month, t1.day, t1.year);
      DayOfYearBound(t2.month, t2.day, t2.year);
      DaysBeforeYearGrows(t1.year + 1, t2.year);
      LeapYearsStep(t1.year);
    } else if t1.month < t2.month {
      MonthsGrow(t1.month, t2.month, t1.year);
    }
  }

  /** Unix seconds preserve calendar order, so comparing two timestamps
      compares the instants they stand for; in particular distinct valid
      instants never share a timestamp. */
  lemma {:induction false} UnixSecondsMonotone(t1: DateTime, t2: DateTime)
    requires t1.Valid() && t2.Valid()
    requires Before(t1, t2)
    ensures UnixSeconds(t1) < UnixSeconds(t2)
  {
    var d1 := DaysSinceEpoch(t1.year, t1.month, t1.day);
    var d2 := DaysSinceEpoch(t2.year, t2.month, t2.day);
    if (t1.year, t1.month, t1.day) != (t2.year, t2.month, t2.day) {
      DaysSinceEpochMonotone(t1, t2);
      assert d2 * 86400 >= d1 * 86400 + 86400;
    }
  }
}
