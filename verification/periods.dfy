/**
 Date-based differences: java.time.Period.between and the date units of
 ChronoUnit.between (DAYS, MONTHS, YEARS) on two LocalDates.
 */
module Periods {
  import opened JavaMath
  import opened Calendar

  /** java.time.Period: a signed amount of years, months and days, kept exactly as
      computed (Period.between does not normalise it). */
  datatype Period = Period(years: int, months: int, days: int)
  {
    /** Period.toTotalMonths. */
    function TotalMonths(): int
    {
      years * 12 + months
    }

    predicate IsZero()
    {
      years == 0 && months == 0 && days == 0
    }

    predicate NonNegative()
    {
      years >= 0 && months >= 0 && days >= 0
    }

    predicate NonPositive()
    {
      years <= 0 && months <= 0 && days <= 0
    }
  }

  /** Period.between(start, end), that is LocalDate.until: the difference of the
      proleptic months, and of the days of the month; when the two disagree in sign,
      one month is traded for days, counted to the end date from the start date moved
      forward (going forward) or from the end of the end month (going backward).
      The months are then split into years and months with Java's truncating `/`
      and `%`. */
  function Between(start: Date, end: Date): Period
    requires start.Valid() && end.Valid()
  {
    var totalMonths := ProlepticMonth(end) - ProlepticMonth(start);
    var days := end.day - start.day;
    if totalMonths > 0 && days < 0 then
      var calcDate := PlusMonths(start, totalMonths - 1);
      Split(totalMonths - 1, ToEpochDay(end) - ToEpochDay(calcDate))
    else if totalMonths < 0 && days > 0 then
      Split(totalMonths + 1, days - LengthOfMonth(end.year, end.month))
    else
      Split(totalMonths, days)
  }

  /** Period.of(totalMonths / 12, totalMonths % 12, days) with Java's operators:
      years and months share the sign of the month count, which they add back up to. */
  function Split(totalMonths: int, days: int): (p: Period)
    ensures p.TotalMonths() == totalMonths && p.days == days
    ensures totalMonths >= 0 ==> p.years >= 0 && 0 <= p.months < 12
    ensures totalMonths <= 0 ==> p.years <= 0 && -12 < p.months <= 0
  {
    Period(TruncDiv(totalMonths, 12), TruncRem(totalMonths, 12), days)
  }

  /** ChronoUnit.DAYS.between(start, end): the difference of the epoch days. */
  function DaysUntil(start: Date, end: Date): (n: int)
    requires start.Valid() && end.Valid()
    ensures n > 0 <==> Before(start, end)
    ensures n == 0 <==> start == end
    ensures n < 0 <==> Before(end, start)
    ensures PlusDays(start, n) == end
  {
    DayCount(start, end, ToEpochDay(end) - ToEpochDay(start));
    ToEpochDay(end) - ToEpochDay(start)
  }

  /** The epoch-day difference of two dates is signed by their order, and adding it
      to the first date gives the second. */
  lemma DayCount(start: Date, end: Date, n: int)
    requires start.Valid() && end.Valid()
    requires n == ToEpochDay(end) - ToEpochDay(start)
    ensures n > 0 <==> Before(start, end)
    ensures n == 0 <==> start == end
    ensures n < 0 <==> Before(end, start)
    ensures PlusDays(start, n) == end
  {
    EpochDayOrder(start, end);
    EpochDayOrder(end, start);
    LandsOn(start, n, end);
  }

  /** ChronoUnit.MONTHS.between(start, end), that is LocalDate.monthsUntil: pack
      each date as 32 * prolepticMonth + day and divide the difference by 32,
      truncating toward zero, so a month only counts once its day is reached. */
  function MonthsUntil(start: Date, end: Date): int
    requires start.Valid() && end.Valid()
  {
    var packed1 := ProlepticMonth(start) * 32 + start.day;
    var packed2 := ProlepticMonth(end) * 32 + end.day;
    TruncDiv(packed2 - packed1, 32)
  }

  /** ChronoUnit.YEARS.between(start, end): whole months divided by 12, truncated. */
  function YearsUntil(start: Date, end: Date): int
    requires start.Valid() && end.Valid()
  {
    TruncDiv(MonthsUntil(start, end), 12)
  }

  // ---------------------------------------------------------------------------
  // Properties

  /** Proleptic months order dates by (year, month). */
  lemma ProlepticMonthOrder(a: Date, b: Date)
    requires a.Valid() && b.Valid()
    ensures ProlepticMonth(a) < ProlepticMonth(b) <==> a.year < b.year || (a.year == b.year && a.month < b.month)
    ensures ProlepticMonth(a) == ProlepticMonth(b) <==> a.year == b.year && a.month == b.month
  {
  }

  /** The sign convention of Period.between: all zero on the same date, all
      components non-negative (and not all zero) when the start is earlier, all
      non-positive (and not all zero) when it is later. */
  lemma BetweenSign(start: Date, end: Date)
    requires start.Valid() && end.Valid()
    ensures start == end ==> Between(start, end) == Period(0, 0, 0)
    ensures Before(start, end) ==> Between(start, end).NonNegative() && !Between(start, end).IsZero()
    ensures Before(end, start) ==> Between(start, end).NonPositive() && !Between(start, end).IsZero()
  {
    if Before(start, end) {
      BetweenForward(start, end);
    } else if Before(end, start) {
      BetweenBackward(start, end);
    } else {
      assert start == end;
      BetweenSame(start);
    }
  }

  lemma BetweenSame(d: Date)
    requires d.Valid()
    ensures Between(d, d) == Period(0, 0, 0)
  {
  }

  lemma BetweenForward(start: Date, end: Date)
    requires start.Valid() && end.Valid()
    requires Before(start, end)
    ensures Between(start, end).NonNegative() && !Between(start, end).IsZero()
  {
    ProlepticMonthOrder(start, end);
    if ProlepticMonth(start) < ProlepticMonth(end) && end.day < start.day {
      BorrowForward(start, end);
    } else {
      SplitNonNegative(ProlepticMonth(end) - ProlepticMonth(start), end.day - start.day);
    }
  }

  /** Going forward with the end's day of month before the start's, one month is
      traded for the positive count of days from the start moved forward by the
      remaining months. */
  lemma BorrowForward(start: Date, end: Date)
    requires start.Valid() && end.Valid()
    requires ProlepticMonth(start) < ProlepticMonth(end) && end.day < start.day
    ensures Between(start, end).NonNegative() && !Between(start, end).IsZero()
  {
    var totalMonths := ProlepticMonth(end) - ProlepticMonth(start);
    var calcDate := PlusMonths(start, totalMonths - 1);
    ProlepticMonthOrder(calcDate, end);
    EpochDayOrder(calcDate, end);
    SplitNonNegative(totalMonths - 1, ToEpochDay(end) - ToEpochDay(calcDate));
  }

  lemma BetweenBackward(start: Date, end: Date)
    requires start.Valid() && end.Valid()
    requires Before(end, start)
    ensures Between(start, end).NonPositive() && !Between(start, end).IsZero()
  {
    ProlepticMonthOrder(end, start);
    var totalMonths := ProlepticMonth(end) - ProlepticMonth(start);
    var days := end.day - start.day;
    if totalMonths < 0 && days > 0 {
      SplitNonPositive(totalMonths + 1, days - LengthOfMonth(end.year, end.month));
    } else {
      SplitNonPositive(totalMonths, days);
    }
  }

  /** Non-negative months and days, not both zero, make a non-zero non-negative period. */
  lemma SplitNonNegative(totalMonths: int, days: int)
    requires totalMonths >= 0 && days >= 0 && (totalMonths > 0 || days > 0)
    ensures Split(totalMonths, days).NonNegative() && !Split(totalMonths, days).IsZero()
  {
  }

  /** Non-positive months and days, not both zero, make a non-zero non-positive period. */
  lemma SplitNonPositive(totalMonths: int, days: int)
    requires totalMonths <= 0 && days <= 0 && (totalMonths < 0 || days < 0)
    ensures Split(totalMonths, days).NonPositive() && !Split(totalMonths, days).IsZero()
  {
  }

  /** The period adds back up: from a start no later than the end, moving forward by
      the period's months and then its days lands on the end date. */
  lemma BetweenAddsUp(start: Date, end: Date)
    requires start.Valid() && end.Valid()
    requires !Before(end, start)
    ensures PlusDays(PlusMonths(start, Between(start, end).TotalMonths()), Between(start, end).days) == end
  {
    ProlepticMonthOrder(start, end);
    if ProlepticMonth(start) < ProlepticMonth(end) && end.day < start.day {
      BorrowAddsUp(start, end);
    } else {
      NoBorrowAddsUp(start, end);
    }
  }

  lemma BorrowAddsUp(start: Date, end: Date)
    requires start.Valid() && end.Valid()
    requires ProlepticMonth(start) < ProlepticMonth(end) && end.day < start.day
    ensures PlusDays(PlusMonths(start, Between(start, end).TotalMonths()), Between(start, end).days) == end
  {
    BorrowedParts(start, end);
    MovedThenLands(start, Between(start, end), end);
  }

  /** With a month borrowed, the period counts one month fewer than the proleptic
      months apart, and its days are counted from the start moved by that many months. */
  lemma BorrowedParts(start: Date, end: Date)
    requires start.Valid() && end.Valid()
    requires ProlepticMonth(start) < ProlepticMonth(end) && end.day < start.day
    ensures Between(start, end).TotalMonths() == ProlepticMonth(end) - ProlepticMonth(start) - 1
    ensures Between(start, end).days == ToEpochDay(end) - ToEpochDay(PlusMonths(start, Between(start, end).TotalMonths()))
  {
    var p := Between(start, end);
    var m := ProlepticMonth(end) - ProlepticMonth(start) - 1;
    assert p.TotalMonths() == m && p.days == ToEpochDay(end) - ToEpochDay(PlusMonths(start, m));
  }

  lemma NoBorrowAddsUp(start: Date, end: Date)
    requires start.Valid() && end.Valid()
    requires ProlepticMonth(start) <= ProlepticMonth(end) && start.day <= end.day
    ensures PlusDays(PlusMonths(start, Between(start, end).TotalMonths()), Between(start, end).days) == end
  {
    var totalMonths := ProlepticMonth(end) - ProlepticMonth(start);
    var days := end.day - start.day;
    var p := Split(totalMonths, days);
    assert Between(start, end) == p;
    var moved := PlusMonths(start, totalMonths);
    ProlepticMonthOrder(moved, end);
    assert moved == Date(end.year, end.month, start.day);
    assert ToEpochDay(end) - ToEpochDay(moved) == days;
    LandsOn(moved, days, end);
  }

  /** Moving by a period's months lands where its days are counted from, so adding
      the days reaches the end. */
  lemma MovedThenLands(start: Date, p: Period, end: Date)
    requires start.Valid() && end.Valid()
    requires ToEpochDay(end) - ToEpochDay(PlusMonths(start, p.TotalMonths())) == p.days
    ensures PlusDays(PlusMonths(start, p.TotalMonths()), p.days) == end
  {
    LandsOn(PlusMonths(start, p.TotalMonths()), p.days, end);
  }

  lemma LandsOn(d: Date, n: int, end: Date)
    requires d.Valid() && end.Valid()
    requires ToEpochDay(end) - ToEpochDay(d) == n
    ensures PlusDays(d, n) == end
  {
    EpochDayOrder(PlusDays(d, n), end);
  }

  /** MONTHS.between agrees with Period.between's total months, and YEARS.between
      with its years. */
  lemma MonthsUntilMatchesPeriod(start: Date, end: Date)
    requires start.Valid() && end.Valid()
    ensures MonthsUntil(start, end) == Between(start, end).TotalMonths()
    ensures YearsUntil(start, end) == Between(start, end).years
  {
    var delta := ProlepticMonth(end) - ProlepticMonth(start);
    var days := end.day - start.day;
    assert -31 < days < 31;
    assert (ProlepticMonth(end) * 32 + end.day) - (ProlepticMonth(start) * 32 + start.day) == delta * 32 + days;
  }

  /** YEARS.between is zero exactly when fewer than twelve whole months lie between
      the dates, in either direction. The month count comes in as `months`, tied to
      `MonthsUntil(start, end)` by the requires. That is for the solver, which does
      not reliably finish with the call written into the ensures; the statement is
      the same. */
  lemma YearsUntilZero(start: Date, end: Date, months: int)
    requires start.Valid() && end.Valid()
    requires months == MonthsUntil(start, end)
    ensures YearsUntil(start, end) == 0 <==> -12 < months < 12
  {
    TruncDivZero(months, 12);
  }

  /** The month and year counts follow the same sign convention as the period. */
  lemma MonthsUntilSign(start: Date, end: Date)
    requires start.Valid() && end.Valid()
    ensures start == end ==> MonthsUntil(start, end) == 0 && YearsUntil(start, end) == 0
    ensures Before(start, end) ==> MonthsUntil(start, end) >= 0 && YearsUntil(start, end) >= 0
    ensures Before(end, start) ==> MonthsUntil(start, end) <= 0 && YearsUntil(start, end) <= 0
  {
    MonthsUntilMatchesPeriod(start, end);
    BetweenSign(start, end);
  }
}
