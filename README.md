# ax_date timestamp decoder in Dafny

This project models the core of `ax_date`: `AxDateTime::from_timestamp`.
It turns a Unix timestamp (seconds since 1970-01-01 00:00:00 UTC) and a
whole-hour UTC offset into a year, month, day, hour, minute and second.
Its two helpers are modelled too: the Gregorian leap-year test
`is_leap_year` and the month-length lookup `days_in_month`.

- `calendar.dfy`, module `Calendar`: the helpers, the error kinds, and
  the specification-level day counts. `DaysBeforeYear` counts the days
  from 1970 to a year's first day. `DaysBeforeMonth` counts the days
  before a month within its year. The lemmas tie these counts to
  independent definitions: a cumulative month table, and the closed form
  of the POSIX "Seconds Since the Epoch" definition (IEEE Std 1003.1-2017,
  Base Definitions, section 4.16).
- `datetime.dfy`, module `DateTime`: the `AxDateTime` value and the decoder
  `FromTimestamp`. The decoder is an imperative method with the source's
  two `while` loops, proved against a specification. The year loop is in
  `FromTimestamp` itself; the month loop is the method `MonthAndDay`,
  which `FromTimestamp` calls where the source runs that loop. On success the
  result is a valid calendar value, and `ToSeconds` recomposes it to
  exactly the offset-adjusted timestamp. The lemmas prove that
  `ToSeconds` is an order isomorphism on valid values. So decoding is
  one-to-one and preserves order, and the postcondition determines the
  decoded value uniquely.

Rust's `u64` and `i64` are subset types of `int`, and every local of the
decoder has the source's integer type. Every value the loops compute is
stored in such a local, including the year loop's sum
`days_passed + days_in_current_year` before its comparison. So the
additions and subtractions of the year loop and the month loop are proved
not to overflow.

## Model

| member | source | states |
|---|---|---|
| `Calendar.IsLeapYear` | src/datetime.rs:92-96 | the Gregorian rule: a year not divisible by 4 is common, one divisible by 4 but not by 100 is leap, and a century is leap exactly when divisible by 400 |
| `Calendar.LeapYearExamples` | src/datetime.rs:92-96 | 2000, 2004 and 2024 are leap years; 1900 and 2023 are not |
| `Calendar.DaysInMonth` | src/datetime.rs:99-112 | succeeds exactly for months 1..12 and otherwise fails with `InvalidMonth`; non-February lengths follow the knuckle rule `30 + (m + m/8) % 2`; February has 29 days in a leap year and 28 otherwise |
| `Calendar.DaysInMonthExamples` | src/datetime.rs:99-112 | months 0 and 13 are rejected; February 2024 has 29 days and February 2023 has 28 |
| `Calendar.DaysBeforeMonthTable` | src/datetime.rs:99-112 | the running sum of month lengths equals the common-year table 0, 31, 59, …, 365, plus one day after February in a leap year |
| `Calendar.MonthsFillYear` | src/datetime.rs:44 | the twelve month lengths add up to the year length the year loop uses: 366 exactly in a leap year, else 365 |
| `Calendar.DaysBeforeMonthGrows` | src/datetime.rs:56-62 | a later month starts no earlier than the end of an earlier month of the same year |
| `Calendar.DaysBeforeYearGrows` | src/datetime.rs:40-50 | a later year starts no earlier than the end of an earlier year |
| `Calendar.YearLengthPosix` | src/datetime.rs:44 | the length the year loop adds for a year is the step of the POSIX day formula from that year to the next |
| `Calendar.DaysBeforeYearPosix` | src/datetime.rs:40-50 | the year-by-year day count from 1970 equals the POSIX closed form `365(t-70) + (t-69)/4 - (t-1)/100 + (t+299)/400`, with `t = year - 1900` |
| `Calendar.LeapYearPeriod` | src/datetime.rs:92-96 | the leap rule repeats every 400 years, for every `u64` year that leaves room for 400 more |
| `Calendar.GregorianCycle` | src/datetime.rs:92-96 | for years from 1970 on, the leap rule repeats every 400 years, and every 400-year span has 146097 days |
| `DateTime.FromTimestamp` | src/datetime.rs:17-74 | fails exactly when `timestamp + offset*3600 < 0`, and then with `InvalidTimestamp`, so the `InvalidMonth` path of the month loop is never taken; on success the year is at least 1970, the month is in 1..12, the day is in 1..days_in_month, and hour < 24, minute < 60, second < 60; the fields recompose to exactly `timestamp + offset*3600` |
| `DateTime.MonthAndDay` | src/datetime.rs:55-64 | walks the months of a year: fails with `InvalidMonth` exactly when the day count reaches the year's length (the walk then reaches month 13); otherwise gives a month in 1..12 and a day in 1..days_in_month whose days before it add up to the day count |
| `DateTime.OnlyEpochAtZero` | src/datetime.rs:25-64 | the only valid calendar value that recomposes to zero seconds is 1970-01-01 00:00:00 |
| `DateTime.DecodeEpoch` | src/main.rs:29 | timestamp 0 with offset 0 decodes to 1970-01-01 00:00:00 |
| `DateTime.DecodeEastOfUtc` | src/datetime.rs:17-74 | timestamp 0 with offset +3 hours decodes to 1970-01-01 03:00:00 |
| `DateTime.DecodeWestOfUtc` | src/datetime.rs:17-23 | timestamp 0 with offset -1 hour falls before the epoch and fails with `InvalidTimestamp` |
| `DateTime.DecodeBoundaries` | src/datetime.rs:17-74 | with offset 0, 1709251199 and 1709251200 decode to 2024-02-29 23:59:59 and 2024-03-01 00:00:00, and 31535999 and 31536000 decode to 1970-12-31 23:59:59 and 1971-01-01 00:00:00 |
| `DateTime.FromTimestampMonotone` | src/datetime.rs:17-74 | under one offset, when an earlier timestamp decodes, a later one decodes too and gives a strictly later calendar value; when only the later one decodes, the offset moves the earlier one before the epoch and the later one not |
| `DateTime.DayOfYearInYear` | src/datetime.rs:53-64 | the day of the year of a valid value is below its year's length |
| `DateTime.DaysSinceEpochIncreasing` | src/datetime.rs:40-64 | a date earlier by year, month, then day has fewer days since the epoch |
| `DateTime.ToSecondsIncreasing` | src/datetime.rs:25-64 | a calendar value earlier in the lexicographic calendar order recomposes to fewer seconds |
| `DateTime.ToSecondsOrder` | src/datetime.rs:25-64 | on valid values, calendar order holds exactly when the recomposed seconds are smaller, and two values are equal exactly when their seconds are; so decoding is one-to-one and order-preserving |
| `DateTime.ToSecondsIsPosix` | src/datetime.rs:25-64 | the recomposition equals the POSIX "Seconds Since the Epoch" formula of the fields |
| `DateTime.KnownTimestamps` | src/datetime.rs:25-64 | 1970-12-31 23:59:59, 1971-01-01 00:00:00, 2024-02-29 23:59:59 and 2024-03-01 00:00:00 recompose to 31535999, 31536000, 1709251199 and 1709251200 |

## Left out

- `AxDateTime::now` (src/datetime.rs:77-81) reads the host clock. Its only logic is a call to `from_timestamp`, which is modelled. Its clock error is not modelled.
- `src/main.rs` is the program entry point. It holds a display wrapper that zero-pads the fields and prints them. Only its call `from_timestamp(0, 0)` is modelled, as `DecodeEpoch`.
- Error messages: the source returns descriptive strings. The model keeps only which failure occurs (`InvalidTimestamp`, `InvalidMonth`).
- FromTimestamp: machine-integer overflow is excluded by preconditions, not modelled. One precondition is `timestamp <= i64::MAX`, because `timestamp as i64` wraps larger values to negative numbers. Another is that `utc_offset_hours * 3600` fits in `i64`, because the multiplication overflows otherwise. The last is that the adjusted sum fits in `i64`, because the addition overflows otherwise. Overflow panics in debug builds and wraps in release builds, and neither behaviour is modelled.
- The month loop evaluates `days_in_month(month, year)?` twice per pass, once in the loop condition and once in the body. The function is pure, so the model calls it once per pass and uses the value for both.
- The month loop (src/datetime.rs:55-64) is inline in `from_timestamp`; the model runs it as a separate method, `MonthAndDay`, with the same locals, comparisons and updates, and `FromTimestamp` propagates its error as the `?` does. Each method is then verified on its own.
