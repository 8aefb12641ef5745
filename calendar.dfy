/** Gregorian calendar facts that the timestamp decoder relies on: the
    leap-year rule, the month lengths, and the day counts they add up to. */
module Calendar {

  /** Rust's `u64` and `i64`, as ranges of mathematical integers. */
  type u64 = x: int | 0 <= x <= 0xFFFF_FFFF_FFFF_FFFF
  type i64 = x: int | InI64(x)

  /** `x` fits in a Rust `i64`. */
  predicate InI64(x: int) {
    -0x8000_0000_0000_0000 <= x <= 0x7FFF_FFFF_FFFF_FFFF
  }

  /** The year of the Unix epoch, where the decoder's year search starts. */
  const EPOCH_YEAR: u64 := 1970

  /** The two failures of the decoder. Only which one occurs is modelled,
      not the text of its message. */
  datatype Error = InvalidTimestamp | InvalidMonth

  datatype Result<T> = Ok(value: T) | Err(error: Error)

  /** The Gregorian leap-year rule, case by case: a year not divisible by 4
      is common; one divisible by 4 but not by 100 is leap; a century is
      common unless it is divisible by 400. */
  function IsLeapYear(year: u64): (leap: bool)
    ensures year % 4 != 0 ==> !leap
    ensures year % 4 == 0 && year % 100 != 0 ==> leap
    ensures year % 100 == 0 && year % 400 != 0 ==> !leap
    ensures year % 400 == 0 ==> leap
  {
    DivisorsOf400(year);
    (year % 4 == 0 && year % 100 != 0) || year % 400 == 0
  }

  /** The length of `month` in `year`; any month number outside 1..12 is an
      error. The third clause is the "knuckle rule", a definition of the
      month lengths independent of the table in the body. */
  function DaysInMonth(month: u64, year: u64): (r: Result<u64>)
    ensures r.Ok? <==> 1 <= month <= 12
    ensures r.Err? ==> r.error == InvalidMonth
    ensures r.Ok? && month != 2 ==> r.value == 30 + (month + month / 8) % 2
    ensures month == 2 ==> r == Ok(if IsLeapYear(year) then 29 else 28)
  {
    match month
    case 1 | 3 | 5 | 7 | 8 | 10 | 12 => Ok(31)
    case 4 | 6 | 9 | 11 => Ok(30)
    case 2 => if IsLeapYear(year) then Ok(29) else Ok(28)
    case _ => Err(InvalidMonth)
  }

  /** The number of days the year loop adds for `year`. */
  function YearLength(year: u64): nat {
    if IsLeapYear(year) then 366 else 365
  }

  /** The days in months 1 .. month - 1 of `year`; month 13 stands for the
      end of the year. */
  function DaysBeforeMonth(month: u64, year: u64): nat
    requires 1 <= month <= 13
    decreases month
  {
    if month == 1 then 0
    else DaysBeforeMonth(month - 1, year) + DaysInMonth(month - 1, year).value
  }

  /** The days from 1 January 1970 to 1 January of `year`. */
  function DaysBeforeYear(year: u64): nat
    requires EPOCH_YEAR <= year
    decreases year
  {
    if year == EPOCH_YEAR then 0
    else DaysBeforeYear(year - 1) + YearLength(year - 1)
  }

  /** The day count of 1 January of the year `tmYear + 1900`, as the
      "Seconds Since the Epoch" definition of POSIX (IEEE Std 1003.1-2017,
      Base Definitions, section 4.16) writes it, in whole days. POSIX
      divides as C does, truncating toward zero; Dafny's `/` rounds down
      for these positive divisors. The two agree for `tmYear >= 69`, which
      covers every year from 1970 on; for earlier years this is the
      floor-division variant of the formula. */
  function PosixDaysBeforeYear(tmYear: int): int {
    365 * (tmYear - 70) + (tmYear - 69) / 4 - (tmYear - 1) / 100 + (tmYear + 299) / 400
  }

  /** Cumulative days before each month of a common year; index 12 is the
      whole year. */
  const CUMULATIVE_DAYS: seq<nat> := [0, 31, 59, 90, 120, 151, 181, 212, 243, 273, 304, 334, 365]

  lemma LeapYearExamples()
    ensures IsLeapYear(2000) && IsLeapYear(2004) && IsLeapYear(2024)
    ensures !IsLeapYear(1900) && !IsLeapYear(2023)
  {
  }

  lemma DaysInMonthExamples()
    ensures DaysInMonth(0, 2024) == Err(InvalidMonth)
    ensures DaysInMonth(13, 2024) == Err(InvalidMonth)
    ensures DaysInMonth(2, 2024) == Ok(29) && DaysInMonth(2, 2023) == Ok(28)
  {
  }

  /** The month sums agree with the common-year table, shifted by one day
      after February in a leap year. */
  lemma {:induction false} DaysBeforeMonthTable(month: u64, year: u64)
    requires 1 <= month <= 13
    ensures DaysBeforeMonth(month, year)
            == CUMULATIVE_DAYS[month - 1] + (if 2 < month && IsLeapYear(year) then 1 else 0)
  {
    if month > 1 {
      DaysBeforeMonthTable(month - 1, year);
    }
  }

  /** The twelve months add up to the year length the year loop uses. */
  lemma MonthsFillYear(year: u64)
    ensures DaysBeforeMonth(13, year) == YearLength(year)
    ensures YearLength(year) == 366 <==> IsLeapYear(year)
  {
    DaysBeforeMonthTable(13, year);
  }

  /** A later month starts no earlier than an earlier month ends. */
  lemma {:induction false} DaysBeforeMonthGrows(m: u64, n: u64, year: u64)
    requires 1 <= m < n <= 13
    ensures DaysBeforeMonth(m, year) + DaysInMonth(m, year).value <= DaysBeforeMonth(n, year)
  {
    if n > m + 1 {
      DaysBeforeMonthGrows(m, n - 1, year);
    }
  }

  /** A later year starts no earlier than an earlier year ends. */
  lemma {:induction false} DaysBeforeYearGrows(y: u64, z: u64)
    requires EPOCH_YEAR <= y < z
    ensures DaysBeforeYear(y) + YearLength(y) <= DaysBeforeYear(z)
  {
    if z > y + 1 {
      DaysBeforeYearGrows(y, z - 1);
    }
  }

  /** Counting years one by one from 1970 gives the POSIX closed form. */
  lemma {:induction false} DaysBeforeYearPosix(year: u64)
    requires EPOCH_YEAR <= year
    ensures DaysBeforeYear(year) == PosixDaysBeforeYear(year - 1900)
  {
    if year > EPOCH_YEAR {
      var p := year - 1;
      DaysBeforeYearPosix(p);
      YearLengthPosix(p);
    }
  }

  /** One year's length is the difference of the POSIX formula between
      consecutive years: each of its three leap counters goes up by one
      exactly when the Gregorian rule's divisor divides the year. */
  lemma YearLengthPosix(year: u64)
    ensures YearLength(year) == PosixDaysBeforeYear(year + 1 - 1900) - PosixDaysBeforeYear(year - 1900)
  {
    var by4 := (year - 1968) / 4 - (year - 1969) / 4;
    var by100 := (year - 1900) / 100 - (year - 1901) / 100;
    var by400 := (year - 1600) / 400 - (year - 1601) / 400;
    Step4(year);
    Step100(year);
    Step400(year);
    DivisorsOf400(year);
    assert PosixDaysBeforeYear(year + 1 - 1900) - PosixDaysBeforeYear(year - 1900) == 365 + by4 - by100 + by400;
  }

  /** A multiple of 400 is a multiple of 100, and that of 4. */
  lemma DivisorsOf400(year: int)
    ensures year % 400 == 0 ==> year % 100 == 0
    ensures year % 100 == 0 ==> year % 4 == 0
  {
    MultiplesMod(year / 400, year / 100);
  }

  /** Multiples of 400 are multiples of 100, and multiples of 100 are
      multiples of 4. */
  lemma MultiplesMod(k: int, j: int)
    ensures (400 * k) % 100 == 0
    ensures (100 * j) % 4 == 0
  {
  }

  lemma Step4(year: int)
    ensures (year - 1968) / 4 - (year - 1969) / 4 == if year % 4 == 0 then 1 else 0
  {
  }

  lemma Step100(year: int)
    ensures (year - 1900) / 100 - (year - 1901) / 100 == if year % 100 == 0 then 1 else 0
  {
  }

  lemma Step400(year: int)
    ensures (year - 1600) / 400 - (year - 1601) / 400 == if year % 400 == 0 then 1 else 0
  {
  }

  /** The Gregorian calendar repeats every 400 years, and such a cycle has
      146097 days. */
  lemma GregorianCycle(year: u64)
    requires EPOCH_YEAR <= year <= 0xFFFF_FFFF_FFFF_FFFF - 400
    ensures IsLeapYear(year + 400) == IsLeapYear(year)
    ensures DaysBeforeYear(year + 400) == DaysBeforeYear(year) + 146097
  {
    LeapYearPeriod(year);
    DaysBeforeYearPosix(year);
    DaysBeforeYearPosix(year + 400);
    PosixCycle(year - 1900);
  }

  /** The leap rule has period 400, for every year. */
  lemma LeapYearPeriod(year: u64)
    requires year <= 0xFFFF_FFFF_FFFF_FFFF - 400
    ensures IsLeapYear(year + 400) == IsLeapYear(year)
  {
    assert (year + 400) % 4 == year % 4 && (year + 400) % 100 == year % 100;
    assert (year + 400) % 400 == year % 400;
  }

  lemma PosixCycle(tmYear: int)
    ensures PosixDaysBeforeYear(tmYear + 400) == PosixDaysBeforeYear(tmYear) + 146097
  {
    assert (tmYear + 400 - 69) / 4 == (tmYear - 69) / 4 + 100;
    assert (tmYear + 400 - 1) / 100 == (tmYear - 1) / 100 + 4;
    assert (tmYear + 400 + 299) / 400 == (tmYear + 299) / 400 + 1;
  }
}
