# CommonDateUtil in Dafny

`CommonDateUtil` is a stateless Java utility of date functions over epoch-second
timestamps. Every public method except `getCurrentTimestamp` and `getDurationUntilNow`
follows the same three steps:

1. Read the timestamp as a local date and time in the system zone.
2. Snap it to a boundary, or read a field from it. The boundaries are the start or end
   of the day, of the Monday-to-Sunday week, or of the month. The field is the ISO
   weekday.
3. Convert the result back to epoch seconds, or take a signed difference against "now".

The other two never leave the time line. `getCurrentTimestamp` reads the clock.
`getDurationUntilNow` is the `Duration` between two instants, with no zone involved.

The real work is done by `java.time`. This project writes out the parts of `java.time`
that the utility relies on, then models each public method on top of them.

- `Calendar` (calendar.dfy) covers the proleptic Gregorian calendar of ISO 8601
  (ISO 8601:2004 section 3.2.1):
  - the leap-year rule and month lengths;
  - `LocalDate.toEpochDay` and `ofEpochDay`, with the round trip between them;
  - the ISO weekday, Monday = 1 .. Sunday = 7;
  - `plusDays` and `plusMonths`.
- `JavaMath` (java_math.dfy) holds Java's truncating `/` and `%`. Dafny's own operators
  are Euclidean.
- `Temporal` (temporal.dfy) covers `LocalTime` and `LocalDateTime` in whole seconds:
  - `LocalDateTime.ofInstant` at a fixed UTC offset;
  - `atZone(...).toEpochSecond()`;
  - `LocalDateTime.until` for minutes and hours.
- `Adjusters` (adjusters.dfy) covers four `TemporalAdjusters`: `firstDayOfMonth`,
  `lastDayOfMonth`, `previousOrSame` and `nextOrSame`.
- `Periods` (periods.dfy) covers `Period.between` and
  `ChronoUnit.DAYS/MONTHS/YEARS.between` on two `LocalDate`s.
- `CommonDateUtil` (common_date_util.dfy) has one function per public method except
  `getCurrentTimestamp` (see "Left out").

Two things the Java code reads from its environment are parameters here:

- the clock, as `now` in epoch seconds;
- the system time zone, as a fixed UTC offset `zone` in seconds, within
  `ZoneOffset`'s range of ±18:00.

`LocalTime.MAX` is 23:59:59.999999999. `toEpochSecond` drops its nanoseconds, so every
"end" instant is the matching "start" plus 86 399 seconds, which is the 23:59:59 that
the method comments promise.

The proved properties:

- Start and end of day bracket the timestamp and stay on its local date.
- Start of day depends only on the local date and is idempotent.
- Consecutive days, weeks and months tile the time line: the second after an end is
  the next start.
- The week starts at midnight on the Monday on or before the local date, less than
  seven days before the start of the day. It is that day's own start on a Monday.
- The week ends at 23:59:59 on a Sunday, exactly one week less a second after the start
  of the week.
- The month starts at midnight on day 1 and ends at 23:59:59 on day `lengthOfMonth` of
  the timestamp's own year and month.
- The weekday lies in 1..7 and steps cyclically from one day to the next.
- Each `This…` and `Today` variant is its parameterised counterpart applied to `now`.
- The elapsed-time functions share one sign convention. They count forward from the
  target to now, so a target in the past never gives a negative count and a target in
  the future never gives a positive one:
  - the day count and the duration's seconds are positive for a past target, zero for
    the same date or instant, and negative for a future target;
  - the period is non-zero exactly when the dates differ;
  - the minute, hour, month and year counts are ≥ 0 for a past target and ≤ 0 for a
    future one, and they can be 0 for a target less than one unit away.
- The cross-checks behind these counts:
  - for a target on or before today, the period's months and days added to the
    target's date give today's date;
  - the month and year counts agree with the period;
  - the year count is zero exactly when the month count lies strictly between −12
    and 12;
  - the minute and hour counts are the local-time difference truncated toward zero.
- A worked example: 2024-03-15 10:30 at UTC+08:00, a Friday.

## Week and month starts

The start of the week and the start of the month both lie at or before the start of the
day (`StartTimeOfWeek` and `StartTimeOfMonth` state it). They can fall in either order.
On 2024-03-15 at UTC+08:00 the month starts at 1709222400, the week at 1710086400 and
the day at 1710432000 (`Friday15March2024Month`, `Friday15March2024Week` and
`Friday15March2024Day`).

## Model

| member | source | states |
|---|---|---|
| JavaMath.TruncDiv | src/main/java/com/share/utils/CommonDateUtil.java:115-118 | Java's `/` by a positive divisor rounds toward zero: for a ≥ 0 the quotient q is ≥ 0 with b·q ≤ a < b·q + b, and for a ≤ 0 it is ≤ 0 with b·q − b < a ≤ b·q |
| JavaMath.TruncRem | src/main/java/com/share/utils/CommonDateUtil.java:44-47 | Java's `%` by a positive divisor: dividend = divisor × quotient + remainder, with the remainder taking the dividend's sign and smaller than the divisor |
| JavaMath.TruncDivZero | src/main/java/com/share/utils/CommonDateUtil.java:128-131 | a truncated quotient is zero exactly when the dividend lies strictly between −divisor and divisor (`YearsUntilZero` applies it to `YEARS.between`) |
| Calendar.IsLeapYear | src/main/java/com/share/utils/CommonDateUtil.java:187 | the ISO leap-year rule behind `lengthOfMonth` of February: divisible by 4, and centuries only when divisible by 400; it has no contract of its own, and `YearStep` and `CycleShift` state what it gives |
| Calendar.LengthOfMonth | src/main/java/com/share/utils/CommonDateUtil.java:187 | `lengthOfMonth` lies in 28..31; `MonthStep` states that the twelve month lengths fill the year |
| Calendar.YearStep | src/main/java/com/share/utils/CommonDateUtil.java:262-265 | the closed day count before a year grows by exactly 366 for a leap year and 365 otherwise (divisible by 4, centuries only by 400) |
| Calendar.MonthStep | src/main/java/com/share/utils/CommonDateUtil.java:185-191 | each month adds exactly `lengthOfMonth` days, and the twelve months fill the year |
| Calendar.CycleShift | src/main/java/com/share/utils/CommonDateUtil.java:262 | the Gregorian calendar repeats every 400 years, which hold 146097 days |
| Calendar.YearsAscend | src/main/java/com/share/utils/CommonDateUtil.java:262-265 | a later year starts no earlier than an earlier year ends |
| Calendar.ToEpochDay | src/main/java/com/share/utils/CommonDateUtil.java:262-265 | `LocalDate.toEpochDay`: the epoch day falls within the date's own year and within its own month |
| Calendar.YearOfCycle | src/main/java/com/share/utils/CommonDateUtil.java:262 | finds the year of a 400-year cycle whose days hold the given day of the cycle |
| Calendar.MonthOfYear | src/main/java/com/share/utils/CommonDateUtil.java:262 | finds the month whose days hold the given day of the year |
| Calendar.OfEpochDay | src/main/java/com/share/utils/CommonDateUtil.java:262 | `LocalDate.ofEpochDay`: returns a valid date that converts back to the same epoch day |
| Calendar.DateOfYearDay | src/main/java/com/share/utils/CommonDateUtil.java:262 | `LocalDate.ofYearDay(year, doy + 1)`, with `doy` counted from 0: a valid date of that year, the given number of days after its first of January |
| Calendar.EpochDayOrder | src/main/java/com/share/utils/CommonDateUtil.java:102-105 | epoch days order valid dates exactly as the calendar does, and equal epoch days mean equal dates |
| Calendar.EpochDayInjective | src/main/java/com/share/utils/CommonDateUtil.java:102-105 | two valid dates with the same epoch day are the same date |
| Calendar.BeforeImpliesEarlier | src/main/java/com/share/utils/CommonDateUtil.java:102-105 | a calendar-earlier date has a smaller epoch day |
| Calendar.EpochDayRoundTrip | src/main/java/com/share/utils/CommonDateUtil.java:262-265 | `ofEpochDay(toEpochDay(d)) == d` for every valid date |
| Calendar.DayOfWeek | src/main/java/com/share/utils/CommonDateUtil.java:319-321 | `getDayOfWeek().getValue()` lies in 1..7 |
| Calendar.MondayIsOne | src/main/java/com/share/utils/CommonDateUtil.java:312 | Monday 1970-01-05 is weekday 1 and Sunday 1970-01-04 is weekday 7 |
| Calendar.NextDayNextWeekday | src/main/java/com/share/utils/CommonDateUtil.java:312 | the day after a date has the next weekday, and 7 wraps to 1 |
| Calendar.PlusDays | src/main/java/com/share/utils/CommonDateUtil.java:217 | `LocalDate.plusDays`: a valid date exactly `n` epoch days later |
| Calendar.PlusDaysWeekday | src/main/java/com/share/utils/CommonDateUtil.java:217 | `n` days later the weekday has moved on by `n`, modulo 7 |
| Calendar.WeekdayAfter | src/main/java/com/share/utils/CommonDateUtil.java:247 | between two dates `n` epoch days apart, the weekday moves on by `n`, modulo 7 |
| Calendar.PlusMonths | src/main/java/com/share/utils/CommonDateUtil.java:44-47 | `LocalDate.plusMonths`: a valid date exactly `n` proleptic months later, keeping the day of the month or clamping it to the new month's length |
| Calendar.NextWeekdayNumber | src/main/java/com/share/utils/CommonDateUtil.java:312 | the weekday number of epoch day `k + 1` follows that of day `k`, and 7 wraps to 1 |
| Calendar.March2024 | src/main/java/com/share/utils/CommonDateUtil.java:155-161 | March 2024 spans epoch days 19783..19813, and its 15th (day 19797) is a Friday |
| Temporal.TimeOf | src/main/java/com/share/utils/CommonDateUtil.java:263 | `LocalTime.of(h, m, s)` reads back as hour `h`, minute `m` and second `s` |
| Temporal.TimeOfFields | src/main/java/com/share/utils/CommonDateUtil.java:263 | a valid time is rebuilt exactly from its hour, minute and second |
| Temporal.MidnightAndLastSecond | src/main/java/com/share/utils/CommonDateUtil.java:290-295 | `LocalTime.MIN` reads 00:00:00, and `LocalTime.MAX` without nanoseconds reads 23:59:59 |
| Temporal.ToSecondOfDay | src/main/java/com/share/utils/CommonDateUtil.java:265 | `toSecondOfDay` lies in 0..86399 |
| Temporal.OfSecondOfDay | src/main/java/com/share/utils/CommonDateUtil.java:262 | `ofSecondOfDay(s)` has hour·3600 + minute·60 + second = `s` |
| Temporal.OfInstant | src/main/java/com/share/utils/CommonDateUtil.java:262 | `LocalDateTime.ofInstant` at a fixed offset: the local seconds are the epoch second plus the offset, and converting back gives the same epoch second |
| Temporal.ToEpochSecond | src/main/java/com/share/utils/CommonDateUtil.java:264-265 | `atZone(offset).toEpochSecond()`: the epoch second whose local seconds are the date-time's |
| Temporal.InstantRoundTrip | src/main/java/com/share/utils/CommonDateUtil.java:262-265 | reading a valid local date-time's epoch second back gives the same date-time |
| Temporal.LocalReading | src/main/java/com/share/utils/CommonDateUtil.java:262 | an instant whose local seconds equal a date-time's local seconds reads as that date-time |
| Temporal.InstantParts | src/main/java/com/share/utils/CommonDateUtil.java:262 | for `day` and `second` the floor quotient and remainder of the local seconds by 86400, `ofInstant` gives the date of epoch day `day` at the time `second` seconds after midnight |
| Temporal.SplitLocalSeconds | src/main/java/com/share/utils/CommonDateUtil.java:262 | day × 86400 + second of the day splits back into that day and that second |
| Temporal.TimeUntil | src/main/java/com/share/utils/CommonDateUtil.java:76-92 | `LocalDateTime.until` in a unit of seconds (minutes at line 78, hours at line 91); it has no contract of its own, and `TimeUntilTruncates` states what it computes |
| Temporal.TimeUntilTruncates | src/main/java/com/share/utils/CommonDateUtil.java:76-79 | `LocalDateTime.until` in minutes or hours equals the local-seconds difference divided by the unit, truncated toward zero |
| Temporal.WholeDaysSplit | src/main/java/com/share/utils/CommonDateUtil.java:89-92 | when whole days and a remainder share a sign, the truncated quotient splits into the days' units plus the remainder's quotient |
| Temporal.DivAddMultiple | src/main/java/com/share/utils/CommonDateUtil.java:89-92 | dividing a non-negative amount plus a multiple of the unit gives that multiple plus the amount's quotient |
| Adjusters.FirstDayOfMonth | src/main/java/com/share/utils/CommonDateUtil.java:157 | `firstDayOfMonth`: day 1 of the same year and month, not after the date |
| Adjusters.LastDayOfMonth | src/main/java/com/share/utils/CommonDateUtil.java:187 | `lastDayOfMonth`: day `lengthOfMonth` of the same year and month, not before the date |
| Adjusters.PreviousOrSame | src/main/java/com/share/utils/CommonDateUtil.java:217 | `previousOrSame(dow)`: a date with weekday `dow` among the seven days ending at the date, and the date itself when it already has that weekday |
| Adjusters.DaysBack | src/main/java/com/share/utils/CommonDateUtil.java:202 | the adjuster steps back 1..6 days, landing on the requested weekday |
| Adjusters.NextOrSame | src/main/java/com/share/utils/CommonDateUtil.java:247 | `nextOrSame(dow)`: a date with weekday `dow` among the seven days starting at the date, and the date itself when it already has that weekday |
| Adjusters.DaysAhead | src/main/java/com/share/utils/CommonDateUtil.java:232 | the adjuster steps ahead 1..6 days, landing on the requested weekday |
| Adjusters.PreviousOrSameUnique | src/main/java/com/share/utils/CommonDateUtil.java:215-221 | any date with weekday `dow` in the seven days ending at `d` is `previousOrSame(d, dow)` |
| Adjusters.OneInSeven | src/main/java/com/share/utils/CommonDateUtil.java:215-221 | two dates with the same weekday within one seven-day window are the same date |
| Adjusters.SameWeekdayInWeek | src/main/java/com/share/utils/CommonDateUtil.java:215-221 | two epoch days less than seven apart with the same weekday are equal |
| Adjusters.WeekSpan | src/main/java/com/share/utils/CommonDateUtil.java:245-251 | the Sunday on or after a date is exactly six days after the Monday on or before it |
| Adjusters.DayAfterLastDayOfMonth | src/main/java/com/share/utils/CommonDateUtil.java:185-191 | the day after the last day of a month is day 1 of the next proleptic month |
| Periods.Split | src/main/java/com/share/utils/CommonDateUtil.java:44-47 | `Period.of(m / 12, m % 12, d)` with Java's operators: the years and months add back to `m` and share its sign, with \|months\| < 12 |
| Periods.DaysUntil | src/main/java/com/share/utils/CommonDateUtil.java:102-105 | `DAYS.between` is positive, zero or negative exactly when the start date is before, equal to or after the end date, and adding that many days to the start gives the end |
| Periods.DayCount | src/main/java/com/share/utils/CommonDateUtil.java:102-105 | the epoch-day difference of two dates is signed by their order, and adding it to the first date gives the second |
| Periods.ProlepticMonthOrder | src/main/java/com/share/utils/CommonDateUtil.java:115-118 | proleptic months order dates by (year, month) and are equal exactly for the same year and month |
| Periods.Between | src/main/java/com/share/utils/CommonDateUtil.java:46 | `Period.between` with its month borrow; it has no contract of its own, and `BetweenSign`, `BetweenAddsUp`, `BorrowAddsUp` and `NoBorrowAddsUp` state its sign and that it adds up to the end date |
| Periods.BetweenSign | src/main/java/com/share/utils/CommonDateUtil.java:44-47 | `Period.between` is (0, 0, 0) on the same date, non-negative and non-zero going forward, non-positive and non-zero going backward |
| Periods.BetweenSame | src/main/java/com/share/utils/CommonDateUtil.java:44-47 | the period from a date to itself is zero |
| Periods.BetweenForward | src/main/java/com/share/utils/CommonDateUtil.java:44-47 | going forward, every component is non-negative and one is positive |
| Periods.BorrowForward | src/main/java/com/share/utils/CommonDateUtil.java:44-47 | going forward with a borrowed month, every component is still non-negative and one positive |
| Periods.BetweenBackward | src/main/java/com/share/utils/CommonDateUtil.java:44-47 | going backward, every component is non-positive and one is negative |
| Periods.SplitNonNegative | src/main/java/com/share/utils/CommonDateUtil.java:44-47 | non-negative months and days, not both zero, make a non-zero non-negative period |
| Periods.SplitNonPositive | src/main/java/com/share/utils/CommonDateUtil.java:44-47 | non-positive months and days, not both zero, make a non-zero non-positive period |
| Periods.BetweenAddsUp | src/main/java/com/share/utils/CommonDateUtil.java:44-47 | from a start no later than the end, adding the period's months and then its days lands on the end |
| Periods.BorrowAddsUp | src/main/java/com/share/utils/CommonDateUtil.java:44-47 | with a month borrowed, the months and days of the period still land on the end |
| Periods.BorrowedParts | src/main/java/com/share/utils/CommonDateUtil.java:44-47 | with a month borrowed, the period has one month fewer than the proleptic months apart, and its days are counted from the start moved by that many months |
| Periods.NoBorrowAddsUp | src/main/java/com/share/utils/CommonDateUtil.java:44-47 | without a borrow, the months and days of the period land on the end |
| Periods.MovedThenLands | src/main/java/com/share/utils/CommonDateUtil.java:44-47 | when the period's days are the days left after moving the start by its months, adding those days lands on the end |
| Periods.LandsOn | src/main/java/com/share/utils/CommonDateUtil.java:44-47 | adding the epoch-day difference to a date reaches the other date |
| Periods.MonthsUntil | src/main/java/com/share/utils/CommonDateUtil.java:117 | `MONTHS.between` (`LocalDate.monthsUntil`) with its day-of-month correction; it has no contract of its own, and `MonthsUntilMatchesPeriod` and `MonthsUntilSign` state what it counts |
| Periods.YearsUntil | src/main/java/com/share/utils/CommonDateUtil.java:130 | `YEARS.between`, the month count truncated by 12; it has no contract of its own, and `MonthsUntilMatchesPeriod`, `MonthsUntilSign` and `YearsUntilZero` state what it counts |
| Periods.MonthsUntilMatchesPeriod | src/main/java/com/share/utils/CommonDateUtil.java:115-131 | `MONTHS.between` is the period's total months, and `YEARS.between` is its years |
| Periods.YearsUntilZero | src/main/java/com/share/utils/CommonDateUtil.java:128-131 | `YEARS.between` is zero exactly when `MONTHS.between` lies strictly between −12 and 12 |
| Periods.MonthsUntilSign | src/main/java/com/share/utils/CommonDateUtil.java:115-131 | month and year counts are zero on the same date, ≥ 0 going forward and ≤ 0 going backward |
| CommonDateUtil.LocalDateOf | src/main/java/com/share/utils/CommonDateUtil.java:45 | the local date is the day whose 86400 local seconds hold the timestamp plus the offset |
| CommonDateUtil.StartOfDate | src/main/java/com/share/utils/CommonDateUtil.java:262-265 | midnight of a date reads back as that date at 00:00:00, and is the day number × 86400 in local seconds |
| CommonDateUtil.EndOfDate | src/main/java/com/share/utils/CommonDateUtil.java:291-294 | 23:59:59 of a date reads back as that date at 23:59:59, and is 86399 seconds after its midnight |
| CommonDateUtil.DayNumberUnique | src/main/java/com/share/utils/CommonDateUtil.java:262 | a local second lies in exactly one day |
| CommonDateUtil.LocalDateFloor | src/main/java/com/share/utils/CommonDateUtil.java:45 | the local epoch day is the floor of the local seconds divided by 86400 |
| CommonDateUtil.LocalDateMonotone | src/main/java/com/share/utils/CommonDateUtil.java:44-47 | a later timestamp never has an earlier local date |
| CommonDateUtil.PeriodUntilToday | src/main/java/com/share/utils/CommonDateUtil.java:44-47 | the period is zero on the same local date, non-negative and non-zero for an earlier date, non-positive and non-zero for a later one, and signed by the order of the two timestamps |
| CommonDateUtil.DurationUntilNow | src/main/java/com/share/utils/CommonDateUtil.java:64-66 | the seconds are positive exactly for a past target and zero exactly at now; target plus the seconds is now |
| CommonDateUtil.TotalMinutesUntilNow | src/main/java/com/share/utils/CommonDateUtil.java:76-79 | whole minutes from the target to now, truncated toward zero, with the sign of the difference |
| CommonDateUtil.TotalHoursUntilNow | src/main/java/com/share/utils/CommonDateUtil.java:89-92 | whole hours from the target to now, truncated toward zero, with the sign of the difference |
| CommonDateUtil.HoursAreSixtyMinutes | src/main/java/com/share/utils/CommonDateUtil.java:76-92 | the hour count is the minute count divided by 60, truncated |
| CommonDateUtil.NestedDiv | src/main/java/com/share/utils/CommonDateUtil.java:89-92 | seconds divided by 60 twice is seconds divided by 3600 |
| CommonDateUtil.TotalDaysUntilToday | src/main/java/com/share/utils/CommonDateUtil.java:102-105 | the day count is positive, zero or negative exactly when the target's local date is before, equal to or after today's, and it is the difference of the local day numbers |
| CommonDateUtil.TotalMonthsUntilToday | src/main/java/com/share/utils/CommonDateUtil.java:115-118 | the month count is the period's total months: zero on the same date, ≥ 0 for a past target, ≤ 0 for a future one |
| CommonDateUtil.TotalYearsUntilToday | src/main/java/com/share/utils/CommonDateUtil.java:128-131 | the year count is the period's years: zero on the same date, ≥ 0 for a past target, ≤ 0 for a future one |
| CommonDateUtil.StartTimeOfDay | src/main/java/com/share/utils/CommonDateUtil.java:261-266 | midnight on the same local date, at or before the timestamp and less than a day before it |
| CommonDateUtil.EndTimeOfDay | src/main/java/com/share/utils/CommonDateUtil.java:290-295 | 23:59:59 on the same local date, at or after the timestamp, the start of day plus 86399 |
| CommonDateUtil.StartTimeOfToday | src/main/java/com/share/utils/CommonDateUtil.java:275-280 | equals `getStartTimeOfDay(now)` |
| CommonDateUtil.EndTimeOfToday | src/main/java/com/share/utils/CommonDateUtil.java:304-309 | equals `getEndTimeOfDay(now)` |
| CommonDateUtil.StartOfDaySameDate | src/main/java/com/share/utils/CommonDateUtil.java:261-266 | two timestamps have the same start of day exactly when they share a local date |
| CommonDateUtil.StartOfDayIdempotent | src/main/java/com/share/utils/CommonDateUtil.java:261-266 | the start of the start of a day is the start of that day |
| CommonDateUtil.AfterLastSecond | src/main/java/com/share/utils/CommonDateUtil.java:290-295 | the second after a local 23:59:59 is the next day's midnight |
| CommonDateUtil.StartOfDayAt | src/main/java/com/share/utils/CommonDateUtil.java:261-266 | a timestamp at a local midnight is its own start of day, on that day |
| CommonDateUtil.DaysTile | src/main/java/com/share/utils/CommonDateUtil.java:261-295 | the second after a day's end is the start of the next local day |
| CommonDateUtil.WeekDayFromTimestamp | src/main/java/com/share/utils/CommonDateUtil.java:319-321 | the weekday lies in 1..7 |
| CommonDateUtil.WeekDayFromThursday | src/main/java/com/share/utils/CommonDateUtil.java:312-321 | the weekday is the floor of the local seconds over 86400, counted in sevens from Thursday 1970-01-01 (weekday 4) |
| CommonDateUtil.WeekDayNextDay | src/main/java/com/share/utils/CommonDateUtil.java:312-321 | 86400 seconds later the weekday is the next one, and Sunday 7 wraps to Monday 1 |
| CommonDateUtil.WeekDayOfDayNumber | src/main/java/com/share/utils/CommonDateUtil.java:312-321 | the weekday of a timestamp is that of its local epoch day, counted from Thursday 1970-01-01 |
| CommonDateUtil.NextLocalDay | src/main/java/com/share/utils/CommonDateUtil.java:312-321 | a timestamp 86400 seconds later lies on the next local epoch day |
| CommonDateUtil.WeekDayFormatFromTimestamp | src/main/java/com/share/utils/CommonDateUtil.java:331-333 | the Simplified Chinese full weekday name: "星期" followed by one character, taken from the weekday's table entry |
| CommonDateUtil.WeekDayNamesDistinct | src/main/java/com/share/utils/CommonDateUtil.java:331-333 | two timestamps get the same weekday name exactly when they have the same weekday |
| CommonDateUtil.StartTimeOfWeek | src/main/java/com/share/utils/CommonDateUtil.java:215-221 | a Monday at 00:00:00, at or before the timestamp, less than seven days before the start of its day, and equal to that start when the timestamp is on a Monday |
| CommonDateUtil.EndTimeOfWeek | src/main/java/com/share/utils/CommonDateUtil.java:245-251 | a Sunday at 23:59:59, at or after the timestamp, 7 × 86400 − 1 seconds after the start of the week, and the end of the day when the timestamp is on a Sunday |
| CommonDateUtil.StartTimeOfThisWeek | src/main/java/com/share/utils/CommonDateUtil.java:200-206 | equals `getStartTimeOfWeek(now)` |
| CommonDateUtil.EndTimeOfThisWeek | src/main/java/com/share/utils/CommonDateUtil.java:230-236 | equals `getEndTimeOfWeek(now)` |
| CommonDateUtil.WeeksTile | src/main/java/com/share/utils/CommonDateUtil.java:215-251 | the second after a week's end is the start of the next week |
| CommonDateUtil.MondayAfterSunday | src/main/java/com/share/utils/CommonDateUtil.java:215-251 | the second after a Sunday's 23:59:59 is its own start of the week |
| CommonDateUtil.MondayMidnight | src/main/java/com/share/utils/CommonDateUtil.java:215-221 | a local midnight on a Monday is its own start of the week |
| CommonDateUtil.StartTimeOfMonth | src/main/java/com/share/utils/CommonDateUtil.java:155-161 | day 1 of the timestamp's local year and month at 00:00:00, at or before the start of its day |
| CommonDateUtil.EndTimeOfMonth | src/main/java/com/share/utils/CommonDateUtil.java:185-191 | day `lengthOfMonth` of the timestamp's local year and month at 23:59:59, at or after the end of its day |
| CommonDateUtil.StartTimeOfThisMonth | src/main/java/com/share/utils/CommonDateUtil.java:140-146 | equals `getStartTimeOfMonth(now)` |
| CommonDateUtil.EndTimeOfThisMonth | src/main/java/com/share/utils/CommonDateUtil.java:170-176 | equals `getEndTimeOfMonth(now)` |
| CommonDateUtil.MonthsTile | src/main/java/com/share/utils/CommonDateUtil.java:155-191 | the second after a month's end is the start of the next proleptic month |
| CommonDateUtil.FirstOfNextMonth | src/main/java/com/share/utils/CommonDateUtil.java:155-191 | the second after 23:59:59 on a month's last day is midnight on day 1 of the next month |
| CommonDateUtil.Friday15March2024 | src/main/java/com/share/utils/CommonDateUtil.java:319-321 | 2024-03-15 10:30 at UTC+08:00 (1710469800) is local date 2024-03-15 and weekday 5 (Friday) |
| CommonDateUtil.Friday15March2024Day | src/main/java/com/share/utils/CommonDateUtil.java:261-295 | that day runs from 1710432000 to 1710518399 |
| CommonDateUtil.Friday15March2024Month | src/main/java/com/share/utils/CommonDateUtil.java:155-191 | that month runs from 2024-03-01T00:00 (1709222400) to 2024-03-31T23:59:59 (1711900799) |
| CommonDateUtil.Friday15March2024Week | src/main/java/com/share/utils/CommonDateUtil.java:215-251 | that week runs from Monday 2024-03-11T00:00 (1710086400) to Sunday 2024-03-17T23:59:59 (1710691199) |

## Left out

- `getCurrentTimestamp` (lines 24-26) only reads the clock. `now` is a parameter
  everywhere instead, and so is the clock behind `LocalDate.now()` and
  `LocalDateTime.now()`.
- `ZoneId.systemDefault()` and the time-zone rule database are not modelled. The zone is
  a fixed UTC offset, so daylight-saving gaps and overlaps, and how `atZone` resolves
  them, are out of scope. Those rules are host data.
- Sub-second precision is left out: the nanoseconds of `Instant.now()`,
  `LocalDateTime.now()` and `LocalTime.MAX`, and `Duration.toMillis`. Everything is in
  whole seconds.
- TotalMinutesUntilNow: assumes a whole-second `now`. With the clock's fraction of a
  second, a negative count truncated toward zero can be one unit closer to zero than
  the model's.
- TotalHoursUntilNow: assumes a whole-second `now`, for the same reason.
- DurationUntilNow: models the `Duration` by its seconds only. Its nanoseconds are zero
  for whole-second instants.
- `DateTimeException` and `ArithmeticException` are left out. They come from years
  beyond ±999 999 999, epoch seconds outside `Instant`'s range, and
  `Math.toIntExact` or `multiplyExact` overflow. Integers are unbounded here, so these
  error paths never arise.
- WeekDayFormatFromTimestamp: the weekday names are written out for
  `Locale.SIMPLIFIED_CHINESE` only. Other locales and the JDK's locale data are left
  out.
- DayOfWeek: its own contract states only the range 1..7. `MondayIsOne` and
  `NextDayNextWeekday` state the rest: Monday is 1, and each day steps to the next
  weekday, with 7 wrapping to 1.
- WeekDayFromTimestamp: its own contract states only the range 1..7. The exact value is
  stated by `WeekDayFromThursday` and the day-to-day step by `WeekDayNextDay`.
- The `Period` and `Duration` objects themselves are out of scope. A period is its
  (years, months, days) triple, and a duration is its seconds.
