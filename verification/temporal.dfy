/**
 Local date-times in whole seconds (java.time.LocalTime and LocalDateTime without
 their nanosecond field) and their conversion to and from epoch seconds at a fixed
 UTC offset, the way LocalDateTime.ofInstant and ZonedDateTime.toEpochSecond do it
 for a zone whose offset never changes.
 */
module Temporal {
  import opened JavaMath
  import opened Calendar


  /** A UTC offset in seconds; java.time.ZoneOffset admits -18:00 .. +18:00. */
  type ZoneOffset = o: int | -64800 <= o <= 64800

  /** A time of day in whole seconds, held as its second of the day; the hour,
      minute and second fields are read off it. */
  datatype LocalTime = LocalTime(secondOfDay: int)
  {
    predicate Valid()
    {
      0 <= secondOfDay < 86400
    }

    function Hour(): int
      requires Valid()
    {
      secondOfDay / 3600
    }

    function Minute(): int
      requires Valid()
    {
      secondOfDay % 3600 / 60
    }

    function Second(): int
      requires Valid()
    {
      secondOfDay % 60
    }
  }

  /** LocalTime.MIN, midnight at the start of the day. */
  const Midnight: LocalTime := LocalTime(0)

  /** LocalTime.MAX is 23:59:59.999999999; with its nanoseconds dropped, as
      toEpochSecond drops them, it is the last second of the day. */
  const LastSecond: LocalTime := LocalTime(86400 - 1)

  /** LocalTime.of(hour, minute, second): the time with those fields. */
  function TimeOf(hour: int, minute: int, second: int): (t: LocalTime)
    requires 0 <= hour < 24 && 0 <= minute < 60 && 0 <= second < 60
    ensures t.Valid()
    ensures t.Hour() == hour && t.Minute() == minute && t.Second() == second
  {
    LocalTime(hour * 3600 + minute * 60 + second)
  }

  /** A valid time is determined by its three fields. */
  lemma TimeOfFields(t: LocalTime)
    requires t.Valid()
    ensures TimeOf(t.Hour(), t.Minute(), t.Second()) == t
  {
  }

  /** Midnight reads 00:00:00 and the last second 23:59:59. */
  lemma MidnightAndLastSecond()
    ensures Midnight.Valid() && Midnight.Hour() == 0 && Midnight.Minute() == 0 && Midnight.Second() == 0
    ensures LastSecond.Valid() && LastSecond.Hour() == 23 && LastSecond.Minute() == 59 && LastSecond.Second() == 59
  {
    assert LastSecond.secondOfDay == 23 * 3600 + 59 * 60 + 59;
  }

  /** LocalTime.toSecondOfDay: seconds since midnight. */
  function ToSecondOfDay(t: LocalTime): (s: int)
    requires t.Valid()
    ensures 0 <= s < 86400
  {
    t.secondOfDay
  }

  /** LocalTime.ofSecondOfDay: the time `s` seconds after midnight. */
  function OfSecondOfDay(s: int): (t: LocalTime)
    requires 0 <= s < 86400
    ensures t.Valid()
    ensures t.Hour() * 3600 + t.Minute() * 60 + t.Second() == s
  {
    LocalTime(s)
  }

  /** A date and a time of day with no zone attached. */
  datatype LocalDateTime = LocalDateTime(date: Date, time: LocalTime)
  {
    predicate Valid()
    {
      date.Valid() && time.Valid()
    }
  }

  /** Seconds since 1970-01-01T00:00 on the local time line. */
  function LocalSeconds(ldt: LocalDateTime): int
    requires ldt.Valid()
  {
    ToEpochDay(ldt.date) * 86400 + ToSecondOfDay(ldt.time)
  }

  /** LocalDateTime.ofInstant(Instant.ofEpochSecond(epochSecond), zone): add the
      offset, then split into an epoch day (floor division) and a second of the day
      (floor modulus). The result turns back into the same instant. */
  function OfInstant(epochSecond: int, zone: ZoneOffset): (ldt: LocalDateTime)
    ensures ldt.Valid()
    ensures LocalSeconds(ldt) == epochSecond + zone
    ensures ToEpochSecond(ldt, zone) == epochSecond
  {
    var localSecond := epochSecond + zone;
    LocalDateTime(OfEpochDay(localSecond / 86400), OfSecondOfDay(localSecond % 86400))
  }

  /** ldt.atZone(zone).toEpochSecond() for a fixed-offset zone: the epoch second
      whose local reading is `ldt`. */
  function ToEpochSecond(ldt: LocalDateTime, zone: ZoneOffset): (t: int)
    requires ldt.Valid()
    ensures t + zone == LocalSeconds(ldt)
  {
    ToEpochDay(ldt.date) * 86400 + ToSecondOfDay(ldt.time) - zone
  }

  /** A valid local date-time read back from its epoch second is itself. */
  lemma InstantRoundTrip(ldt: LocalDateTime, zone: ZoneOffset)
    requires ldt.Valid()
    ensures OfInstant(ToEpochSecond(ldt, zone), zone) == ldt
  {
    LocalReading(ToEpochSecond(ldt, zone), zone, ldt);
  }

  /** An instant whose local seconds are those of `ldt` reads as `ldt`. */
  lemma LocalReading(t: int, zone: ZoneOffset, ldt: LocalDateTime)
    requires ldt.Valid()
    requires t + zone == LocalSeconds(ldt)
    ensures OfInstant(t, zone) == ldt
  {
    var day := ToEpochDay(ldt.date);
    var second := ToSecondOfDay(ldt.time);
    SplitLocalSeconds(day, second, t + zone);
    InstantParts(t, zone, day, second);
    EpochDayRoundTrip(ldt.date);
  }

  /** The parts of `OfInstant`: the date of local day `day` and the time `second`
      seconds after its midnight, for the floor quotient and remainder of the local
      seconds. */
  lemma InstantParts(t: int, zone: ZoneOffset, day: int, second: int)
    requires day == (t + zone) / 86400 && second == (t + zone) % 86400
    ensures OfInstant(t, zone).date == OfEpochDay(day)
    ensures OfInstant(t, zone).time == LocalTime(second)
  {
  }

  /** Local seconds split back into the day and the second of the day they were
      made of. */
  lemma SplitLocalSeconds(day: int, second: int, local: int)
    requires 0 <= second < 86400
    requires local == day * 86400 + second
    ensures local / 86400 == day && local % 86400 == second
  {
  }

  // ---------------------------------------------------------------------------
  // LocalDateTime.until for the time-based units the utility uses

  /** The two time-based units of ChronoUnit in play. */
  datatype TimeUnit = Minutes | Hours
  {
    function Seconds(): (s: int)
      ensures s > 0 && 86400 % s == 0
    {
      match this
      case Minutes => 60
      case Hours => 3600
    }
  }

  /** LocalDateTime.until(end, unit) for a time-based unit: when the dates differ,
      move one day from the day count into the time part so that both parts share a
      sign, then convert each part to the unit, truncating toward zero. */
  function TimeUntil(start: LocalDateTime, end: LocalDateTime, unit: TimeUnit): int
    requires start.Valid() && end.Valid()
  {
    var amount := ToEpochDay(end.date) - ToEpochDay(start.date);
    var timePart := ToSecondOfDay(end.time) - ToSecondOfDay(start.time);
    if amount == 0 then
      TruncDiv(timePart, unit.Seconds())
    else if amount > 0 then
      (amount - 1) * (86400 / unit.Seconds()) + TruncDiv(timePart + 86400, unit.Seconds())
    else
      (amount + 1) * (86400 / unit.Seconds()) + TruncDiv(timePart - 86400, unit.Seconds())
  }

  /** The day/time split changes nothing: the count is the local-time difference in
      seconds, divided by the unit and truncated toward zero. */
  lemma TimeUntilTruncates(start: LocalDateTime, end: LocalDateTime, unit: TimeUnit)
    requires start.Valid() && end.Valid()
    ensures TimeUntil(start, end, unit) == TruncDiv(LocalSeconds(end) - LocalSeconds(start), unit.Seconds())
  {
    var amount := ToEpochDay(end.date) - ToEpochDay(start.date);
    var timePart := ToSecondOfDay(end.time) - ToSecondOfDay(start.time);
    var u := unit.Seconds();
    assert LocalSeconds(end) - LocalSeconds(start) == amount * 86400 + timePart;
    if amount > 0 {
      WholeDaysSplit(amount - 1, timePart + 86400, u);
    } else if amount < 0 {
      WholeDaysSplit(amount + 1, timePart - 86400, u);
    }
  }

  /** Whole days divide evenly into the unit, so when days and the remainder share
      a sign the truncated quotient splits. */
  lemma WholeDaysSplit(days: int, rest: int, u: int)
    requires u == 60 || u == 3600
    requires (days >= 0 && rest >= 0) || (days <= 0 && rest <= 0)
    ensures TruncDiv(days * 86400 + rest, u) == days * (86400 / u) + TruncDiv(rest, u)
  {
    var k := 86400 / u;
    assert 86400 == k * u;
    if days >= 0 && rest >= 0 {
      assert days * 86400 + rest == (days * k) * u + rest;
      DivAddMultiple(rest, days * k, u);
    } else {
      assert -(days * 86400 + rest) == (-days * k) * u + (-rest);
      DivAddMultiple(-rest, -days * k, u);
    }
  }

  lemma DivAddMultiple(a: int, m: int, u: int)
    requires a >= 0 && m >= 0
    requires u == 60 || u == 3600
    ensures (m * u + a) / u == m + a / u
  {
    if u == 60 {
      assert (m * 60 + a) / 60 == m + a / 60;
    } else {
      assert (m * 3600 + a) / 3600 == m + a / 3600;
    }
  }
}
