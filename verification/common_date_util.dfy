/**
 CommonDateUtil: date helpers over epoch-second timestamps. Every operation reads the
 timestamp as a local date-time, snaps it to a boundary (start or end of a day, an
 ISO week or a month) or reads a field from it, and converts back to epoch seconds
 or compares it with "now".

 The state the Java class reads from its environment is passed in: `now` is the clock reading in
 epoch seconds, and `zone` is the local time zone as a fixed UTC offset.
 */
module CommonDateUtil {
  import opened JavaMath
  import opened Calendar
  import opened Adjusters
  import opened Temporal
  import opened Periods

  // ---------------------------------------------------------------------------
  // Reading a timestamp in local time

  /** The local calendar date of `timestamp`: the day whose 86400 local seconds
      hold the timestamp's local second. */
  function LocalDateOf(timestamp: int, zone: ZoneOffset): (d: Date)
    ensures d.Valid()
    ensures ToEpochDay(d) * 86400 <= timestamp + zone < ToEpochDay(d) * 86400 + 86400
  {
    OfInstant(timestamp, zone).date
  }

  /** Midnight at the start of local date `d`, as an epoch second. */
  function StartOfDate(d: Date, zone: ZoneOffset): (r: int)
    requires d.Valid()
    ensures OfInstant(r, zone) == LocalDateTime(d, Midnight)
    ensures r + zone == ToEpochDay(d) * 86400
  {
    InstantRoundTrip(LocalDateTime(d, Midnight), zone);
    ToEpochSecond(LocalDateTime(d, Midnight), zone)
  }

  /** 23:59:59 at the end of local date `d`, as an epoch second. */
  function EndOfDate(d: Date, zone: ZoneOffset): (r: int)
    requires d.Valid()
    ensures OfInstant(r, zone) == LocalDateTime(d, LastSecond)
    ensures r == StartOfDate(d, zone) + 86400 - 1
  {
    InstantRoundTrip(LocalDateTime(d, LastSecond), zone);
    ToEpochSecond(LocalDateTime(d, LastSecond), zone)
  }

  /** A local second lies in exactly one day. */
  lemma DayNumberUnique(x: int, a: int, b: int)
    requires a * 86400 <= x < a * 86400 + 86400
    requires b * 86400 <= x < b * 86400 + 86400
    ensures a == b
  {
  }

  /** The local day number is the floor of the local seconds over a day. */
  lemma LocalDateFloor(t: int, zone: ZoneOffset)
    ensures ToEpochDay(LocalDateOf(t, zone)) == (t + zone) / 86400
  {
  }

  /** A later timestamp never has an earlier local date. */
  lemma LocalDateMonotone(a: int, b: int, zone: ZoneOffset)
    ensures a <= b ==> !Before(LocalDateOf(b, zone), LocalDateOf(a, zone))
  {
    EpochDayOrder(LocalDateOf(b, zone), LocalDateOf(a, zone));
  }

  // ---------------------------------------------------------------------------
  // Elapsed time

  /** getPeriodUntilToday: the calendar period from the target's local date to
      today's, zero on the same date, non-negative when the target date is earlier
      and non-positive when it is later. */
  function PeriodUntilToday(targetTime: int, now: int, zone: ZoneOffset): (p: Period)
    ensures LocalDateOf(targetTime, zone) == LocalDateOf(now, zone) ==> p == Period(0, 0, 0)
    ensures Before(LocalDateOf(targetTime, zone), LocalDateOf(now, zone)) ==> p.NonNegative() && !p.IsZero()
    ensures Before(LocalDateOf(now, zone), LocalDateOf(targetTime, zone)) ==> p.NonPositive() && !p.IsZero()
    ensures targetTime <= now ==> p.NonNegative()
    ensures targetTime >= now ==> p.NonPositive()
  {
    var target := LocalDateOf(targetTime, zone);
    var today := LocalDateOf(now, zone);
    BetweenSign(target, today);
    LocalDateMonotone(targetTime, now, zone);
    LocalDateMonotone(now, targetTime, zone);
    Between(target, today)
  }

  /** getDurationUntilNow, in whole seconds: positive when the target is in the
      past, zero at now, negative in the future; adding it to the target gives now. */
  function DurationUntilNow(targetTime: int, now: int): (seconds: int)
    ensures seconds > 0 <==> targetTime < now
    ensures seconds == 0 <==> targetTime == now
    ensures targetTime + seconds == now
  {
    now - targetTime
  }

  /** getTotalMinutesUntilNow: whole minutes from the target to now, truncated
      toward zero. */
  function TotalMinutesUntilNow(startTime: int, now: int, zone: ZoneOffset): (minutes: int)
    ensures minutes == TruncDiv(now - startTime, 60)
    ensures startTime <= now ==> minutes >= 0
    ensures startTime >= now ==> minutes <= 0
  {
    var start := OfInstant(startTime, zone);
    var end := OfInstant(now, zone);
    TimeUntilTruncates(start, end, Minutes);
    TimeUntil(start, end, Minutes)
  }

  /** getTotalHoursUntilNow: whole hours from the target to now, truncated toward zero. */
  function TotalHoursUntilNow(startTime: int, now: int, zone: ZoneOffset): (hours: int)
    ensures hours == TruncDiv(now - startTime, 3600)
    ensures startTime <= now ==> hours >= 0
    ensures startTime >= now ==> hours <= 0
  {
    var start := OfInstant(startTime, zone);
    var end := OfInstant(now, zone);
    TimeUntilTruncates(start, end, Hours);
    TimeUntil(start, end, Hours)
  }

  /** Whole hours are whole minutes counted in sixties. */
  lemma HoursAreSixtyMinutes(startTime: int, now: int, zone: ZoneOffset)
    ensures TotalHoursUntilNow(startTime, now, zone) == TruncDiv(TotalMinutesUntilNow(startTime, now, zone), 60)
  {
    var x := now - startTime;
    if x >= 0 {
      NestedDiv(x);
    } else {
      NestedDiv(-x);
    }
  }

  lemma NestedDiv(x: int)
    requires x >= 0
    ensures (x / 60) / 60 == x / 3600
  {
    var q := x / 3600;
    var r := x % 3600;
    assert x == 3600 * q + r;
    assert x / 60 == 60 * q + r / 60;
  }

  /** getTotalDaysUntilToday: the number of local dates from the target's to today's,
      positive exactly when the target date is earlier, zero exactly on the same
      date, negative exactly when it is later. */
  function TotalDaysUntilToday(startDateTime: int, now: int, zone: ZoneOffset): (days: int)
    ensures days > 0 <==> Before(LocalDateOf(startDateTime, zone), LocalDateOf(now, zone))
    ensures days == 0 <==> LocalDateOf(startDateTime, zone) == LocalDateOf(now, zone)
    ensures days < 0 <==> Before(LocalDateOf(now, zone), LocalDateOf(startDateTime, zone))
    ensures days == (now + zone) / 86400 - (startDateTime + zone) / 86400
  {
    LocalDateFloor(startDateTime, zone);
    LocalDateFloor(now, zone);
    DaysUntil(LocalDateOf(startDateTime, zone), LocalDateOf(now, zone))
  }

  /** getTotalMonthsUntilToday: whole months from the target's local date to today's;
      the period's months and years in total, with the period's sign. */
  function TotalMonthsUntilToday(startDateTime: int, now: int, zone: ZoneOffset): (months: int)
    ensures months == PeriodUntilToday(startDateTime, now, zone).TotalMonths()
    ensures LocalDateOf(startDateTime, zone) == LocalDateOf(now, zone) ==> months == 0
    ensures startDateTime <= now ==> months >= 0
    ensures startDateTime >= now ==> months <= 0
  {
    var target := LocalDateOf(startDateTime, zone);
    var today := LocalDateOf(now, zone);
    MonthsUntilMatchesPeriod(target, today);
    MonthsUntil(target, today)
  }

  /** getTotalYearsUntilToday: whole years from the target's local date to today's;
      the years of the period, with its sign. */
  function TotalYearsUntilToday(startDateTime: int, now: int, zone: ZoneOffset): (years: int)
    ensures years == PeriodUntilToday(startDateTime, now, zone).years
    ensures LocalDateOf(startDateTime, zone) == LocalDateOf(now, zone) ==> years == 0
    ensures startDateTime <= now ==> years >= 0
    ensures startDateTime >= now ==> years <= 0
  {
    var target := LocalDateOf(startDateTime, zone);
    var today := LocalDateOf(now, zone);
    MonthsUntilMatchesPeriod(target, today);
    YearsUntil(target, today)
  }

  // ---------------------------------------------------------------------------
  // Days

  /** getStartTimeOfDay: midnight of the timestamp's local date, at most a day
      before it. */
  function StartTimeOfDay(timestamp: int, zone: ZoneOffset): (r: int)
    ensures r <= timestamp < r + 86400
    ensures LocalDateOf(r, zone) == LocalDateOf(timestamp, zone)
    ensures OfInstant(r, zone).time == Midnight
  {
    StartOfDate(LocalDateOf(timestamp, zone), zone)
  }

  /** getEndTimeOfDay: 23:59:59 of the timestamp's local date, the matching start
      plus 86399 seconds. */
  function EndTimeOfDay(timestamp: int, zone: ZoneOffset): (r: int)
    ensures r == StartTimeOfDay(timestamp, zone) + 86400 - 1
    ensures timestamp <= r
    ensures LocalDateOf(r, zone) == LocalDateOf(timestamp, zone)
    ensures OfInstant(r, zone).time == LastSecond
  {
    EndOfDate(LocalDateOf(timestamp, zone), zone)
  }

  /** getStartTimeOfToday: the start of the day applied to now. */
  function StartTimeOfToday(now: int, zone: ZoneOffset): (r: int)
    ensures r == StartTimeOfDay(now, zone)
  {
    ToEpochSecond(LocalDateTime(OfInstant(now, zone).date, Midnight), zone)
  }

  /** getEndTimeOfToday: the end of the day applied to now. */
  function EndTimeOfToday(now: int, zone: ZoneOffset): (r: int)
    ensures r == EndTimeOfDay(now, zone)
  {
    ToEpochSecond(LocalDateTime(OfInstant(now, zone).date, LastSecond), zone)
  }

  /** Two timestamps have the same start of day exactly when they share a local date. */
  lemma StartOfDaySameDate(a: int, b: int, zone: ZoneOffset)
    ensures StartTimeOfDay(a, zone) == StartTimeOfDay(b, zone) <==> LocalDateOf(a, zone) == LocalDateOf(b, zone)
  {
  }

  /** Snapping to the start of the day twice is snapping once. */
  lemma StartOfDayIdempotent(t: int, zone: ZoneOffset)
    ensures StartTimeOfDay(StartTimeOfDay(t, zone), zone) == StartTimeOfDay(t, zone)
  {
    StartOfDaySameDate(StartTimeOfDay(t, zone), t, zone);
  }

  /** The second after a local 23:59:59 is the next local midnight. */
  lemma AfterLastSecond(x: int, zone: ZoneOffset)
    requires OfInstant(x, zone).time == LastSecond
    ensures x + 1 + zone == (ToEpochDay(LocalDateOf(x, zone)) + 1) * 86400
  {
  }

  /** A timestamp at a local midnight is its own start of day. */
  lemma StartOfDayAt(x: int, day: int, zone: ZoneOffset)
    requires x + zone == day * 86400
    ensures StartTimeOfDay(x, zone) == x
    ensures ToEpochDay(LocalDateOf(x, zone)) == day
  {
  }

  /** The second after a day's end starts the next day. */
  lemma DaysTile(t: int, zone: ZoneOffset)
    ensures StartTimeOfDay(EndTimeOfDay(t, zone) + 1, zone) == EndTimeOfDay(t, zone) + 1
    ensures ToEpochDay(LocalDateOf(EndTimeOfDay(t, zone) + 1, zone)) == ToEpochDay(LocalDateOf(t, zone)) + 1
  {
    var e := EndTimeOfDay(t, zone);
    var k := ToEpochDay(LocalDateOf(t, zone));
    assert e + 1 + zone == (k + 1) * 86400;
    var next := LocalDateOf(e + 1, zone);
    assert ToEpochDay(next) == k + 1;
    assert StartTimeOfDay(e + 1, zone) + zone == ToEpochDay(next) * 86400;
  }

  // ---------------------------------------------------------------------------
  // Weekdays

  /** getWeekDayFromTimestamp: the ISO weekday of the local date, Monday = 1 ..
      Sunday = 7, counted from the Thursday 1970-01-01 on the local day number. */
  function WeekDayFromTimestamp(timestamp: int, zone: ZoneOffset): (w: int)
    ensures 1 <= w <= 7
  {
    DayOfWeek(LocalDateOf(timestamp, zone))
  }

  /** The weekday is the local day number, counted in sevens from the Thursday
      1970-01-01 (day 0, weekday 4). */
  lemma WeekDayFromThursday(t: int, zone: ZoneOffset)
    ensures WeekDayFromTimestamp(t, zone) == ((t + zone) / 86400 + 3) % 7 + 1
  {
    LocalDateFloor(t, zone);
  }

  /** A day later is the next weekday, Sunday (7) wrapping to Monday (1). */
  lemma WeekDayNextDay(t: int, zone: ZoneOffset)
    ensures WeekDayFromTimestamp(t + 86400, zone)
            == if WeekDayFromTimestamp(t, zone) == Sunday then Monday else WeekDayFromTimestamp(t, zone) + 1
  {
    NextLocalDay(t, t + 86400, zone);
    WeekDayOfDayNumber(t, zone);
    WeekDayOfDayNumber(t + 86400, zone);
    NextWeekdayNumber(ToEpochDay(LocalDateOf(t, zone)), ToEpochDay(LocalDateOf(t + 86400, zone)));
  }

  /** The weekday of a timestamp is that of its local day number. */
  lemma WeekDayOfDayNumber(t: int, zone: ZoneOffset)
    ensures WeekDayFromTimestamp(t, zone) == (ToEpochDay(LocalDateOf(t, zone)) + 3) % 7 + 1
  {
  }

  /** A timestamp one day later falls on the next local day number. */
  lemma NextLocalDay(t: int, later: int, zone: ZoneOffset)
    requires later == t + 86400
    ensures ToEpochDay(LocalDateOf(later, zone)) == ToEpochDay(LocalDateOf(t, zone)) + 1
  {
    var today := ToEpochDay(LocalDateOf(t, zone));
    DayNumberUnique(later + zone, today + 1, ToEpochDay(LocalDateOf(later, zone)));
  }

  /** The full weekday names of the Simplified Chinese locale, Monday first:
      星期一, 星期二, 星期三, 星期四, 星期五, 星期六, 星期日. */
  const WeekDayNames: seq<string> := [
    "\U{661F}\U{671F}\U{4E00}", "\U{661F}\U{671F}\U{4E8C}", "\U{661F}\U{671F}\U{4E09}",
    "\U{661F}\U{671F}\U{56DB}", "\U{661F}\U{671F}\U{4E94}", "\U{661F}\U{671F}\U{516D}",
    "\U{661F}\U{671F}\U{65E5}"]

  /** getWeekDayFormatFromTimestamp: the weekday's full name, "星期" ("weekday")
      followed by the weekday's own character. */
  function WeekDayFormatFromTimestamp(timestamp: int, zone: ZoneOffset): (name: string)
    ensures |name| == 3 && name[..2] == "\U{661F}\U{671F}"
    ensures name == WeekDayNames[WeekDayFromTimestamp(timestamp, zone) - 1]
  {
    WeekDayNames[WeekDayFromTimestamp(timestamp, zone) - 1]
  }

  /** Different weekdays have different names. */
  lemma WeekDayNamesDistinct(a: int, b: int, zone: ZoneOffset)
    ensures WeekDayFormatFromTimestamp(a, zone) == WeekDayFormatFromTimestamp(b, zone)
            <==> WeekDayFromTimestamp(a, zone) == WeekDayFromTimestamp(b, zone)
  {
    var i := WeekDayFromTimestamp(a, zone) - 1;
    var j := WeekDayFromTimestamp(b, zone) - 1;
    if i != j {
      assert WeekDayNames[i][2] != WeekDayNames[j][2];
    }
  }

  // ---------------------------------------------------------------------------
  // Weeks (Monday to Sunday)

  /** getStartTimeOfWeek: midnight of the Monday on or before the timestamp's local
      date; that day's own start when it is a Monday, and less than a week before the
      start of the day otherwise. */
  function StartTimeOfWeek(timestamp: int, zone: ZoneOffset): (r: int)
    ensures WeekDayFromTimestamp(r, zone) == Monday
    ensures OfInstant(r, zone).time == Midnight
    ensures r <= timestamp
    ensures StartTimeOfDay(timestamp, zone) - 604800 < r <= StartTimeOfDay(timestamp, zone)
    ensures WeekDayFromTimestamp(timestamp, zone) == Monday ==> r == StartTimeOfDay(timestamp, zone)
  {
    var monday := PreviousOrSame(LocalDateOf(timestamp, zone), Monday);
    StartOfDate(monday, zone)
  }

  /** getEndTimeOfWeek: 23:59:59 of the Sunday on or after the timestamp's local date,
      one week less a second after the start of the week. */
  function EndTimeOfWeek(timestamp: int, zone: ZoneOffset): (r: int)
    ensures WeekDayFromTimestamp(r, zone) == Sunday
    ensures OfInstant(r, zone).time == LastSecond
    ensures timestamp <= r
    ensures r == StartTimeOfWeek(timestamp, zone) + 604800 - 1
    ensures WeekDayFromTimestamp(timestamp, zone) == Sunday ==> r == EndTimeOfDay(timestamp, zone)
  {
    var d := LocalDateOf(timestamp, zone);
    WeekSpan(d);
    EndOfDate(NextOrSame(d, Sunday), zone)
  }

  /** getStartTimeOfThisWeek: the start of the week applied to now. */
  function StartTimeOfThisWeek(now: int, zone: ZoneOffset): (r: int)
    ensures r == StartTimeOfWeek(now, zone)
  {
    ToEpochSecond(LocalDateTime(PreviousOrSame(OfInstant(now, zone).date, Monday), Midnight), zone)
  }

  /** getEndTimeOfThisWeek: the end of the week applied to now. */
  function EndTimeOfThisWeek(now: int, zone: ZoneOffset): (r: int)
    ensures r == EndTimeOfWeek(now, zone)
  {
    ToEpochSecond(LocalDateTime(NextOrSame(OfInstant(now, zone).date, Sunday), LastSecond), zone)
  }

  /** The second after a week's end starts the next week. */
  lemma WeeksTile(t: int, zone: ZoneOffset)
    ensures StartTimeOfWeek(EndTimeOfWeek(t, zone) + 1, zone) == EndTimeOfWeek(t, zone) + 1
  {
    MondayAfterSunday(EndTimeOfWeek(t, zone), zone);
  }

  /** The second after a Sunday's 23:59:59 is a Monday's midnight. */
  lemma MondayAfterSunday(e: int, zone: ZoneOffset)
    requires WeekDayFromTimestamp(e, zone) == Sunday
    requires OfInstant(e, zone).time == LastSecond
    ensures StartTimeOfWeek(e + 1, zone) == e + 1
  {
    var k := ToEpochDay(LocalDateOf(e, zone));
    AfterLastSecond(e, zone);
    NextWeekdayNumber(k, k + 1);
    MondayMidnight(e + 1, k + 1, zone);
  }

  /** A local midnight on a Monday is its own start of the week. */
  lemma MondayMidnight(x: int, day: int, zone: ZoneOffset)
    requires x + zone == day * 86400
    requires (day + 3) % 7 + 1 == Monday
    ensures StartTimeOfWeek(x, zone) == x
  {
    StartOfDayAt(x, day, zone);
    assert DayOfWeek(LocalDateOf(x, zone)) == Monday;
  }

  // ---------------------------------------------------------------------------
  // Months

  /** getStartTimeOfMonth: midnight of day 1 of the timestamp's local month. */
  function StartTimeOfMonth(timestamp: int, zone: ZoneOffset): (r: int)
    ensures LocalDateOf(r, zone).year == LocalDateOf(timestamp, zone).year
    ensures LocalDateOf(r, zone).month == LocalDateOf(timestamp, zone).month
    ensures LocalDateOf(r, zone).day == 1
    ensures OfInstant(r, zone).time == Midnight
    ensures r <= StartTimeOfDay(timestamp, zone) <= timestamp
  {
    var d := LocalDateOf(timestamp, zone);
    var first := FirstDayOfMonth(d);
    EpochDayOrder(d, first);
    StartOfDate(first, zone)
  }

  /** getEndTimeOfMonth: 23:59:59 of the last day of the timestamp's local month,
      whose day number is the length of that month. */
  function EndTimeOfMonth(timestamp: int, zone: ZoneOffset): (r: int)
    ensures LocalDateOf(r, zone).year == LocalDateOf(timestamp, zone).year
    ensures LocalDateOf(r, zone).month == LocalDateOf(timestamp, zone).month
    ensures LocalDateOf(r, zone).day == LengthOfMonth(LocalDateOf(r, zone).year, LocalDateOf(r, zone).month)
    ensures OfInstant(r, zone).time == LastSecond
    ensures timestamp <= EndTimeOfDay(timestamp, zone) <= r
  {
    var d := LocalDateOf(timestamp, zone);
    var last := LastDayOfMonth(d);
    EpochDayOrder(last, d);
    EndOfDate(last, zone)
  }

  /** getStartTimeOfThisMonth: the start of the month applied to now. */
  function StartTimeOfThisMonth(now: int, zone: ZoneOffset): (r: int)
    ensures r == StartTimeOfMonth(now, zone)
  {
    ToEpochSecond(LocalDateTime(FirstDayOfMonth(OfInstant(now, zone).date), Midnight), zone)
  }

  /** getEndTimeOfThisMonth: the end of the month applied to now. */
  function EndTimeOfThisMonth(now: int, zone: ZoneOffset): (r: int)
    ensures r == EndTimeOfMonth(now, zone)
  {
    ToEpochSecond(LocalDateTime(LastDayOfMonth(OfInstant(now, zone).date), LastSecond), zone)
  }

  /** The second after a month's end is the start of the next month. */
  lemma MonthsTile(t: int, zone: ZoneOffset)
    ensures StartTimeOfMonth(EndTimeOfMonth(t, zone) + 1, zone) == EndTimeOfMonth(t, zone) + 1
    ensures ProlepticMonth(LocalDateOf(EndTimeOfMonth(t, zone) + 1, zone)) == ProlepticMonth(LocalDateOf(t, zone)) + 1
  {
    FirstOfNextMonth(EndTimeOfMonth(t, zone), zone);
  }

  /** The second after 23:59:59 on the last day of a month is midnight on the first
      day of the next month. */
  lemma FirstOfNextMonth(e: int, zone: ZoneOffset)
    requires LocalDateOf(e, zone).day == LengthOfMonth(LocalDateOf(e, zone).year, LocalDateOf(e, zone).month)
    requires OfInstant(e, zone).time == LastSecond
    ensures StartTimeOfMonth(e + 1, zone) == e + 1
    ensures ProlepticMonth(LocalDateOf(e + 1, zone)) == ProlepticMonth(LocalDateOf(e, zone)) + 1
  {
    var d := LocalDateOf(e, zone);
    var k := ToEpochDay(d);
    AfterLastSecond(e, zone);
    StartOfDayAt(e + 1, k + 1, zone);
    DayAfterLastDayOfMonth(d);
    assert LastDayOfMonth(d) == d;
    var next := LocalDateOf(e + 1, zone);
    EpochDayOrder(next, PlusDays(d, 1));
    assert next.day == 1;
    assert FirstDayOfMonth(next) == next;
  }

  // ---------------------------------------------------------------------------
  // A worked example: 2024-03-15 10:30:00 at UTC+08:00, a Friday.
  //
  // Each lemma below takes the timestamp and the offset as parameters fixed by its
  // requires rather than writing the literals into its ensures. This is only for the
  // solver: literal arguments make it evaluate the whole calendar computation at once,
  // while named parameters let the proof go step by step.

  /** 1710469800 at UTC+08:00 is local date 2024-03-15, a Friday. */
  lemma Friday15March2024(t: int, zone: ZoneOffset)
    requires t == 1710469800 && zone == 28800
    ensures LocalDateOf(t, zone) == Date(2024, 3, 15)
    ensures WeekDayFromTimestamp(t, zone) == 5
  {
    var d := LocalDateOf(t, zone);
    March2024();
    assert ToEpochDay(d) == 19797;
    EpochDayOrder(d, Date(2024, 3, 15));
  }

  /** The day runs from 2024-03-15T00:00 to 23:59:59 local time. With the week and
      month examples below it shows that on this date the month starts before the
      week, which starts before the day. */
  lemma Friday15March2024Day(t: int, zone: ZoneOffset)
    requires t == 1710469800 && zone == 28800
    ensures StartTimeOfDay(t, zone) == 1710432000
    ensures EndTimeOfDay(t, zone) == 1710518399
  {
    Friday15March2024(t, zone);
  }

  /** The month runs from 2024-03-01T00:00 to 2024-03-31T23:59:59 local time. */
  lemma Friday15March2024Month(t: int, zone: ZoneOffset)
    requires t == 1710469800 && zone == 28800
    ensures StartTimeOfMonth(t, zone) == 1709222400
    ensures EndTimeOfMonth(t, zone) == 1711900799
  {
    Friday15March2024(t, zone);
    March2024();
    var d := LocalDateOf(t, zone);
    assert StartTimeOfMonth(t, zone) + zone == ToEpochDay(FirstDayOfMonth(d)) * 86400;
    assert EndTimeOfMonth(t, zone) + zone == ToEpochDay(LastDayOfMonth(d)) * 86400 + 86399;
  }

  /** The week runs from Monday 2024-03-11T00:00 to Sunday 2024-03-17T23:59:59 local
      time. */
  lemma Friday15March2024Week(t: int, zone: ZoneOffset)
    requires t == 1710469800 && zone == 28800
    ensures StartTimeOfWeek(t, zone) == 1710086400
    ensures EndTimeOfWeek(t, zone) == 1710691199
  {
    Friday15March2024(t, zone);
  }
}
