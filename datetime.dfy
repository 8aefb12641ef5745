/** The calendar value `AxDateTime` and its decoder `FromTimestamp`, which
    turns a Unix timestamp and a whole-hour UTC offset into year, month,
    day, hour, minute and second. */
module DateTime {
  import opened Calendar

  const SECONDS_PER_HOUR: u64 := 3600

  /** The decoded calendar value; every field is a Rust `u64`. */
  datatype AxDateTime = AxDateTime(year: u64, month: u64, day: u64, hour: u64, minute: u64, second: u64)

  /** A point of the proleptic Gregorian calendar at or after the epoch. */
  predicate Valid(dt: AxDateTime) {
    && EPOCH_YEAR <= dt.year
    && 1 <= dt.month <= 12
    && 1 <= dt.day <= DaysInMonth(dt.month, dt.year).value
    && dt.hour < 24
    && dt.minute < 60
    && dt.second < 60
  }

  /** The zero-based day of the year (POSIX `tm_yday`). */
  function DayOfYear(dt: AxDateTime): nat
    requires Valid(dt)
  {
    DaysBeforeMonth(dt.month, dt.year) + dt.day - 1
  }

  /** Whole days from 1 January 1970 to the date of `dt`. */
  function DaysSinceEpoch(dt: AxDateTime): nat
    requires Valid(dt)
  {
    DaysBeforeYear(dt.year) + DayOfYear(dt)
  }

  /** The seconds since the epoch that `dt` names, with days of 86400
      seconds and no leap seconds. */
  function ToSeconds(dt: AxDateTime): nat
    requires Valid(dt)
  {
    ((DaysSinceEpoch(dt) * 24 + dt.hour) * 60 + dt.minute) * 60 + dt.second
  }

  /** The natural calendar order: year, then month, day, hour, minute and
      second, lexicographically. */
  predicate Before(a: AxDateTime, b: AxDateTime) {
    || a.year < b.year
    || (a.year == b.year && a.month < b.month)
    || (a.year == b.year && a.month == b.month && a.day < b.day)
    || (a.year == b.year && a.month == b.month && a.day == b.day && a.hour < b.hour)
    || (a.year == b.year && a.month == b.month && a.day == b.day && a.hour == b.hour
        && a.minute < b.minute)
    || (a.year == b.year && a.month == b.month && a.day == b.day && a.hour == b.hour
        && a.minute == b.minute && a.second < b.second)
  }

  /** Decodes `timestamp`, shifted by `utcOffsetHours` hours, into a calendar
      value. A shifted timestamp before the epoch is an `InvalidTimestamp`
      error; otherwise the result is a valid calendar value that recomposes
      exactly to the shifted timestamp. The month loop, `MonthAndDay`,
      fails with `InvalidMonth` only for a day count past the end of the
      year, and the year loop never hands it one; so that error is never
      returned. */
  method FromTimestamp(timestamp: u64, utcOffsetHours: i64) returns (r: Result<AxDateTime>)
    requires InI64(timestamp)
    requires InI64(utcOffsetHours * SECONDS_PER_HOUR)
    requires InI64(timestamp + utcOffsetHours * SECONDS_PER_HOUR)
    ensures r.Err? <==> timestamp + utcOffsetHours * SECONDS_PER_HOUR < 0
    ensures r.Err? ==> r.error == InvalidTimestamp
    ensures r.Ok? ==> Valid(r.value) && ToSeconds(r.value) == timestamp + utcOffsetHours * SECONDS_PER_HOUR
  {
    var secondsOffset: i64 := utcOffsetHours * SECONDS_PER_HOUR;
    var adjustedTimestamp: i64 := timestamp + secondsOffset;

    if adjustedTimestamp < 0 {
      return Err(InvalidTimestamp);
    }

    var remainingSeconds: u64 := adjustedTimestamp;

    var second: u64 := remainingSeconds % 60;
    remainingSeconds := remainingSeconds / 60;

    var minute: u64 := remainingSeconds % 60;
    remainingSeconds := remainingSeconds / 60;

    var hour: u64 := remainingSeconds % 24;
    remainingSeconds := remainingSeconds / 24;

    var totalDays: u64 := remainingSeconds;
    SplitSeconds(adjustedTimestamp);

    var year: u64 := EPOCH_YEAR;
    var daysPassed: u64 := 0;

    while daysPassed <= totalDays
      invariant EPOCH_YEAR <= year && year - EPOCH_YEAR <= daysPassed <= totalDays
      invariant daysPassed == DaysBeforeYear(year)
      decreases totalDays - daysPassed
    {
      var daysInCurrentYear: u64 := if IsLeapYear(year) then 366 else 365;
      var nextYearStart: u64 := daysPassed + daysInCurrentYear;
      if nextYearStart > totalDays {
        break;
      }
      daysPassed := nextYearStart;
      year := year + 1;
    }
    assert totalDays < daysPassed + YearLength(year);

    var remainingDaysInYear: u64 := totalDays - daysPassed;

    var monthDay := MonthAndDay(remainingDaysInYear, year);
    match monthDay {
      case Err(e) => return Err(e);
      case Ok((month, day)) =>
        r := Ok(AxDateTime(year, month, day, hour, minute, second));
        Recompose(r.value, totalDays);
    }
  }

  /** The month loop of `from_timestamp`: walks the months of `year`,
      taking each month's length off the day count, until the count falls
      inside a month. A count past the end of the year runs the walk into
      month 13, where `days_in_month` fails with `InvalidMonth`. */
  method MonthAndDay(remainingDaysInYear: u64, year: u64) returns (r: Result<(u64, u64)>)
    ensures r.Err? <==> YearLength(year) <= remainingDaysInYear
    ensures r.Err? ==> r.error == InvalidMonth
    ensures r.Ok? ==> var (month, day) := r.value;
                      && 1 <= month <= 12
                      && 1 <= day <= DaysInMonth(month, year).value
                      && DaysBeforeMonth(month, year) + day - 1 == remainingDaysInYear
  {
    var month: u64 := 1;
    var daysLeft: u64 := remainingDaysInYear;

    // `from_timestamp`'s month loop evaluates `days_in_month` in its
    // condition and again in its body; the call is pure, so it is made once.
    while true
      invariant 1 <= month <= 13
      invariant DaysBeforeMonth(month, year) + daysLeft == remainingDaysInYear
      decreases daysLeft
    {
      var monthLength: u64;
      match DaysInMonth(month, year) {
        case Err(e) =>
          assert YearLength(year) <= remainingDaysInYear by {
            MonthsFillYear(year);
          }
          return Err(e);
        case Ok(n) => monthLength := n;
      }
      if daysLeft < monthLength {
        break;
      }
      daysLeft := daysLeft - monthLength;
      month := month + 1;
    }

    var day: u64 := daysLeft + 1;
    assert remainingDaysInYear < YearLength(year) by {
      DaysBeforeMonthGrows(month, 13, year);
      MonthsFillYear(year);
    }
    r := Ok((month, day));
  }

  /** A date whose fields are in range and whose day count is `totalDays`
      is valid and recomposes to the seconds the decoder split up. */
  lemma Recompose(dt: AxDateTime, totalDays: nat)
    requires EPOCH_YEAR <= dt.year && 1 <= dt.month <= 12
    requires 1 <= dt.day <= DaysInMonth(dt.month, dt.year).value
    requires dt.hour < 24 && dt.minute < 60 && dt.second < 60
    requires DaysBeforeYear(dt.year) + DaysBeforeMonth(dt.month, dt.year) + dt.day - 1 == totalDays
    ensures Valid(dt)
    ensures ToSeconds(dt) == ((totalDays * 24 + dt.hour) * 60 + dt.minute) * 60 + dt.second
  {
  }

  /** The decoder's chain of remainders and quotients loses nothing: the
      second, minute, hour and whole days it peels off recompose to `t`. */
  lemma SplitSeconds(t: nat)
    ensures t == (((t / 60 / 60 / 24) * 24 + (t / 60 / 60) % 24) * 60 + (t / 60) % 60) * 60 + t % 60
  {
  }

  /** The decoder's answer for timestamp 0 with offset 0: the epoch itself. */
  method DecodeEpoch() returns (r: Result<AxDateTime>)
    ensures r == Ok(AxDateTime(1970, 1, 1, 0, 0, 0))
  {
    r := FromTimestamp(0, 0);
    OnlyEpochAtZero(r.value);
  }

  /** The decoder at the end of a leap February and across a year boundary:
      the last second of 29 February 2024 and the next one, and the last
      second of 1970 and the first of 1971. */
  method DecodeBoundaries() returns (leapEnd: Result<AxDateTime>, marchStart: Result<AxDateTime>,
                                     yearEnd: Result<AxDateTime>, yearStart: Result<AxDateTime>)
    ensures leapEnd == Ok(AxDateTime(2024, 2, 29, 23, 59, 59))
    ensures marchStart == Ok(AxDateTime(2024, 3, 1, 0, 0, 0))
    ensures yearEnd == Ok(AxDateTime(1970, 12, 31, 23, 59, 59))
    ensures yearStart == Ok(AxDateTime(1971, 1, 1, 0, 0, 0))
  {
    KnownTimestamps();
    leapEnd := FromTimestamp(1709251199, 0);
    ToSecondsOrder(leapEnd.value, AxDateTime(2024, 2, 29, 23, 59, 59));
    marchStart := FromTimestamp(1709251200, 0);
    ToSecondsOrder(marchStart.value, AxDateTime(2024, 3, 1, 0, 0, 0));
    yearEnd := FromTimestamp(31535999, 0);
    ToSecondsOrder(yearEnd.value, AxDateTime(1970, 12, 31, 23, 59, 59));
    yearStart := FromTimestamp(31536000, 0);
    ToSecondsOrder(yearStart.value, AxDateTime(1971, 1, 1, 0, 0, 0));
  }

  /** Timestamp 0 three hours east of UTC is 03:00 on the epoch's day. */
  method DecodeEastOfUtc() returns (r: Result<AxDateTime>)
    ensures r == Ok(AxDateTime(1970, 1, 1, 3, 0, 0))
  {
    r := FromTimestamp(0, 3);
    assert r.value == AxDateTime(1970, 1, 1, 3, 0, 0) by {
      ThreeHoursSeconds();
      ToSecondsOrder(r.value, AxDateTime(1970, 1, 1, 3, 0, 0));
    }
  }

  /** Timestamp 0 one hour west of UTC falls before the epoch and is
      rejected. */
  method DecodeWestOfUtc() returns (r: Result<AxDateTime>)
    ensures r == Err(InvalidTimestamp)
  {
    r := FromTimestamp(0, -1);
  }

  /** Decoding under one offset preserves order: a strictly later timestamp
      decodes to a strictly later calendar value, so distinct timestamps
      decode to distinct values. */
  method FromTimestampMonotone(t1: u64, t2: u64, utcOffsetHours: i64) returns (r1: Result<AxDateTime>, r2: Result<AxDateTime>)
    requires InI64(t2)
    requires InI64(utcOffsetHours * SECONDS_PER_HOUR)
    requires InI64(t1 + utcOffsetHours * SECONDS_PER_HOUR)
    requires InI64(t2 + utcOffsetHours * SECONDS_PER_HOUR)
    requires t1 < t2
    ensures r1.Ok? ==> r2.Ok? && Before(r1.value, r2.value)
    ensures r1.Err? && r2.Ok?
            ==> t1 + utcOffsetHours * SECONDS_PER_HOUR < 0 <= t2 + utcOffsetHours * SECONDS_PER_HOUR
  {
    r1 := FromTimestamp(t1, utcOffsetHours);
    r2 := FromTimestamp(t2, utcOffsetHours);
    if r1.Ok? {
      ToSecondsOrder(r1.value, r2.value);
    }
  }

  /** A date's day count lies inside its year. */
  lemma DayOfYearInYear(dt: AxDateTime)
    requires Valid(dt)
    ensures DayOfYear(dt) < YearLength(dt.year)
  {
    DaysBeforeMonthGrows(dt.month, 13, dt.year);
    MonthsFillYear(dt.year);
  }

  /** An earlier date (by year, month, then day) has fewer days since the
      epoch. */
  lemma DaysSinceEpochIncreasing(a: AxDateTime, b: AxDateTime)
    requires Valid(a) && Valid(b)
    requires || a.year < b.year
             || (a.year == b.year && a.month < b.month)
             || (a.year == b.year && a.month == b.month && a.day < b.day)
    ensures DaysSinceEpoch(a) < DaysSinceEpoch(b)
  {
    if a.year < b.year {
      DayOfYearInYear(a);
      DaysBeforeYearGrows(a.year, b.year);
    } else if a.month < b.month {
      DaysBeforeMonthGrows(a.month, b.month, a.year);
    }
  }

  /** The recomposition to seconds is an order isomorphism between valid
      calendar values under the calendar order and their timestamps; in
      particular it is one-to-one. */
  lemma ToSecondsOrder(a: AxDateTime, b: AxDateTime)
    requires Valid(a) && Valid(b)
    ensures Before(a, b) <==> ToSeconds(a) < ToSeconds(b)
    ensures a == b <==> ToSeconds(a) == ToSeconds(b)
  {
    if Before(a, b) {
      ToSecondsIncreasing(a, b);
    } else if Before(b, a) {
      ToSecondsIncreasing(b, a);
    }
  }

  lemma ToSecondsIncreasing(a: AxDateTime, b: AxDateTime)
    requires Valid(a) && Valid(b) && Before(a, b)
    ensures ToSeconds(a) < ToSeconds(b)
  {
    var dateBefore := || a.year < b.year
                      || (a.year == b.year && a.month < b.month)
                      || (a.year == b.year && a.month == b.month && a.day < b.day);
    if dateBefore {
      DaysSinceEpochIncreasing(a, b);
    }
  }

  /** The recomposition is the POSIX "Seconds Since the Epoch" formula
      (IEEE Std 1003.1-2017, Base Definitions, section 4.16) applied to the
      fields, with `tm_year = year - 1900` and `tm_yday` the day of the year. */
  lemma ToSecondsIsPosix(dt: AxDateTime)
    requires Valid(dt)
    ensures var tmYear := dt.year - 1900;
            ToSeconds(dt)
            == dt.second + dt.minute * 60 + dt.hour * 3600 + DayOfYear(dt) * 86400
               + (tmYear - 70) * 31536000 + ((tmYear - 69) / 4) * 86400
               - ((tmYear - 1) / 100) * 86400 + ((tmYear + 299) / 400) * 86400
  {
    DaysBeforeYearPosix(dt.year);
  }

  /** Fixed points of the calendar, against the well-known Unix times of
      the end of 1970, the end of February 2024 and the next second. */
  lemma KnownTimestamps()
    ensures ToSeconds(AxDateTime(1970, 12, 31, 23, 59, 59)) == 31535999
    ensures ToSeconds(AxDateTime(1971, 1, 1, 0, 0, 0)) == 31536000
    ensures ToSeconds(AxDateTime(2024, 2, 29, 23, 59, 59)) == 1709251199
    ensures ToSeconds(AxDateTime(2024, 3, 1, 0, 0, 0)) == 1709251200
  {
    DaysBeforeYearPosix(1970);
    DaysBeforeYearPosix(1971);
    DaysBeforeYearPosix(2024);
    assert DaysBeforeYear(2024) == 19723;
    DaysBeforeMonthTable(12, 1970);
    DaysBeforeMonthTable(2, 2024);
    DaysBeforeMonthTable(3, 2024);
  }

  /** The only valid calendar value at zero seconds is the epoch,
      1970-01-01 00:00:00. */
  lemma OnlyEpochAtZero(dt: AxDateTime)
    requires Valid(dt) && ToSeconds(dt) == 0
    ensures dt == AxDateTime(1970, 1, 1, 0, 0, 0)
  {
    assert DaysBeforeYear(dt.year) == 0 && DaysBeforeMonth(dt.month, dt.year) == 0;
  }

  /** Three hours after the epoch as a calendar value. */
  lemma ThreeHoursSeconds()
    ensures Valid(AxDateTime(1970, 1, 1, 3, 0, 0))
    ensures ToSeconds(AxDateTime(1970, 1, 1, 3, 0, 0)) == 10800
  {
  }
}
