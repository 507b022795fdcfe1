/**
 The proleptic Gregorian calendar of ISO 8601 (ISO 8601:2004 section 3.2.1), as
 java.time.LocalDate implements it: dates as (year, month, day), the leap-year rule,
 month lengths, the conversion to and from the epoch-day count (days since
 1970-01-01), and the ISO weekday (Monday = 1 .. Sunday = 7).
 */
module Calendar {

  /** A date: any integer year (year 0 is 1 BCE), a month 1..12 and a day of the month. */
  datatype Date = Date(year: int, month: int, day: int)
  {
    /** The fields name a day that exists in the calendar. */
    predicate Valid()
    {
      1 <= month <= 12 && 1 <= day <= LengthOfMonth(year, month)
    }
  }

  /** Days from 0000-01-01 to 1970-01-01. */
  const DaysFromYear0To1970: int := 719528

  /** Days in 400 Gregorian years: the calendar repeats with this period. */
  const DaysPerCycle: int := 146097

  /** The ISO weekday numbers of the two ends of a week. */
  const Monday: int := 1
  const Sunday: int := 7

  /** Divisible by 4, except centuries that are not divisible by 400. */
  predicate IsLeapYear(year: int)
  {
    year % 4 == 0 && (year % 100 != 0 || year % 400 == 0)
  }

  function LengthOfYear(year: int): (n: int)
    ensures n == 365 || n == 366
  {
    if IsLeapYear(year) then 366 else 365
  }

  /** LocalDate.lengthOfMonth: 28 or 29 for February, 30 for April, June,
      September and November, 31 otherwise. */
  function LengthOfMonth(year: int, month: int): (n: int)
    requires 1 <= month <= 12
    ensures 28 <= n <= 31
  {
    if month == 2 then (if IsLeapYear(year) then 29 else 28)
    else if month == 4 || month == 6 || month == 9 || month == 11 then 30
    else 31
  }

  /** Days from 0000-01-01 to the first of January of `year` (negative before year 0). */
  function DaysBeforeYear(year: int): int
  {
    365 * year + (year + 3) / 4 - (year + 99) / 100 + (year + 399) / 400
  }

  /** Days from the first of January of `year` to the first of `month`; month 13
      stands for the first of the following January. */
  function DaysBeforeMonth(year: int, month: int): int
    requires 1 <= month <= 13
  {
    [0, 31, 59, 90, 120, 151, 181, 212, 243, 273, 304, 334, 365][month - 1]
      + (if month > 2 && IsLeapYear(year) then 1 else 0)
  }

  /** Month number counted from January of year 0 (LocalDate.getProlepticMonth). */
  function ProlepticMonth(d: Date): int
  {
    d.year * 12 + d.month - 1
  }

  /** Lexicographic order of (year, month, day): the calendar order of dates. */
  predicate Before(a: Date, b: Date)
  {
    a.year < b.year
    || (a.year == b.year && a.month < b.month)
    || (a.year == b.year && a.month == b.month && a.day < b.day)
  }

  // ---------------------------------------------------------------------------
  // Arithmetic facts about the year and month tables

  lemma FloorStep4(x: int)
    ensures (x + 1) / 4 == x / 4 + (if (x + 1) % 4 == 0 then 1 else 0)
  {
  }

  lemma FloorStep100(x: int)
    ensures (x + 1) / 100 == x / 100 + (if (x + 1) % 100 == 0 then 1 else 0)
  {
  }

  lemma FloorStep400(x: int)
    ensures (x + 1) / 400 == x / 400 + (if (x + 1) % 400 == 0 then 1 else 0)
  {
  }

  lemma FloorShift(x: int, c: int)
    ensures (x + 400 * c) / 4 == x / 4 + 100 * c
    ensures (x + 400 * c) / 100 == x / 100 + 4 * c
    ensures (x + 400 * c) / 400 == x / 400 + c
    ensures (x + 400 * c) % 4 == x % 4
    ensures (x + 400 * c) % 100 == x % 100
    ensures (x + 400 * c) % 400 == x % 400
  {
  }

  /** Each year contributes exactly its own length. */
  lemma YearStep(year: int)
    ensures DaysBeforeYear(year + 1) == DaysBeforeYear(year) + LengthOfYear(year)
  {
    FloorStep4(year + 3);
    FloorStep100(year + 99);
    FloorStep400(year + 399);
    ModShift(year);
    DivisibilityChain(year);
  }

  lemma ModShift(x: int)
    ensures (x + 4) % 4 == x % 4
    ensures (x + 100) % 100 == x % 100
    ensures (x + 400) % 400 == x % 400
  {
  }

  /** A multiple of 400 is a multiple of 100, which is a multiple of 4. */
  lemma DivisibilityChain(x: int)
    ensures x % 400 == 0 ==> x % 100 == 0
    ensures x % 100 == 0 ==> x % 4 == 0
  {
    if x % 400 == 0 {
      MultipleOf(x / 400 * 4, 100);
    }
    if x % 100 == 0 {
      MultipleOf(x / 100 * 25, 4);
    }
  }

  lemma MultipleOf(m: int, k: int)
    requires k == 4 || k == 100
    ensures (m * k) % k == 0
  {
  }

  /** The calendar repeats every 400 years. */
  lemma CycleShift(year: int, cycles: int)
    ensures DaysBeforeYear(year + 400 * cycles) == DaysBeforeYear(year) + DaysPerCycle * cycles
    ensures IsLeapYear(year + 400 * cycles) == IsLeapYear(year)
  {
    FloorShift(year + 3, cycles);
    FloorShift(year + 99, cycles);
    FloorShift(year + 399, cycles);
    FloorShift(year, cycles);
  }

  /** Each month contributes exactly its own length, and the twelve months fill the year. */
  lemma MonthStep(year: int, month: int)
    requires 1 <= month <= 12
    ensures DaysBeforeMonth(year, month + 1) == DaysBeforeMonth(year, month) + LengthOfMonth(year, month)
    ensures DaysBeforeMonth(year, 13) == LengthOfYear(year)
  {
  }

  /** Later years start later: year `a` ends no later than year `b` starts. */
  lemma {:induction false} YearsAscend(a: int, b: int)
    requires a < b
    ensures DaysBeforeYear(a) + LengthOfYear(a) <= DaysBeforeYear(b)
    decreases b - a
  {
    YearStep(a);
    if a + 1 < b {
      YearsAscend(a + 1, b);
    }
  }

  /** Later months of one year start later: month `a` ends no later than month `b` starts. */
  lemma MonthsAscend(year: int, a: int, b: int)
    requires 1 <= a < b <= 13
    ensures DaysBeforeMonth(year, a) + LengthOfMonth(year, a) <= DaysBeforeMonth(year, b)
  {
    MonthStep(year, a);
  }

  // ---------------------------------------------------------------------------
  // Epoch days

  /** LocalDate.toEpochDay: days since 1970-01-01 (negative before). The day lies
      inside its own year and its own month. */
  function ToEpochDay(d: Date): (e: int)
    requires d.Valid()
    ensures DaysBeforeYear(d.year) <= e + DaysFromYear0To1970 < DaysBeforeYear(d.year) + LengthOfYear(d.year)
    ensures DaysBeforeYear(d.year) + DaysBeforeMonth(d.year, d.month)
            <= e + DaysFromYear0To1970
            < DaysBeforeYear(d.year) + DaysBeforeMonth(d.year, d.month) + LengthOfMonth(d.year, d.month)
  {
    MonthsAscend(d.year, d.month, 13);
    MonthStep(d.year, d.month);
    DaysBeforeYear(d.year) + DaysBeforeMonth(d.year, d.month) + d.day - 1 - DaysFromYear0To1970
  }

  /** The year of a 400-year cycle that holds day `r` of the cycle, found by
      walking forward from year `year`. */
  function YearOfCycle(r: int, year: int): (y: int)
    requires 0 <= year < 400
    requires DaysBeforeYear(year) <= r < DaysPerCycle
    ensures year <= y < 400
    ensures DaysBeforeYear(y) <= r < DaysBeforeYear(y) + LengthOfYear(y)
    decreases 400 - year
  {
    YearStep(year);
    if r < DaysBeforeYear(year + 1) then year
    else YearOfCycle(r, year + 1)
  }

  /** The month of `year` that holds day-of-year `doy` (0-based), found by walking
      forward from `month`. */
  function MonthOfYear(year: int, doy: int, month: int): (m: int)
    requires 1 <= month <= 12
    requires DaysBeforeMonth(year, month) <= doy < LengthOfYear(year)
    ensures month <= m <= 12
    ensures DaysBeforeMonth(year, m) <= doy < DaysBeforeMonth(year, m) + LengthOfMonth(year, m)
    decreases 12 - month
  {
    MonthStep(year, month);
    if doy < DaysBeforeMonth(year, month + 1) then month
    else MonthOfYear(year, doy, month + 1)
  }

  /** LocalDate.ofEpochDay: the date `e` days after 1970-01-01. It is a valid date
      and converts back to `e`. */
  function OfEpochDay(e: int): (d: Date)
    ensures d.Valid()
    ensures ToEpochDay(d) == e
  {
    var z := e + DaysFromYear0To1970;
    var cycles := z / DaysPerCycle;
    var r := z % DaysPerCycle;
    var yc := YearOfCycle(r, 0);
    CycleShift(yc, cycles);
    DateOfYearDay(yc + 400 * cycles, r - DaysBeforeYear(yc))
  }

  /** LocalDate.ofYearDay(year, doy + 1): the date `doy` days after the first of
      January of `year` (`doy` counts from 0). */
  function DateOfYearDay(year: int, doy: int): (d: Date)
    requires 0 <= doy < LengthOfYear(year)
    ensures d.Valid() && d.year == year
    ensures ToEpochDay(d) + DaysFromYear0To1970 == DaysBeforeYear(year) + doy
  {
    var m := MonthOfYear(year, doy, 1);
    Date(year, m, doy - DaysBeforeMonth(year, m) + 1)
  }

  /** Epoch days order dates exactly as the calendar does. */
  lemma EpochDayOrder(a: Date, b: Date)
    requires a.Valid() && b.Valid()
    ensures Before(a, b) <==> ToEpochDay(a) < ToEpochDay(b)
    ensures a == b <==> ToEpochDay(a) == ToEpochDay(b)
  {
    if Before(a, b) {
      BeforeImpliesEarlier(a, b);
    } else if Before(b, a) {
      BeforeImpliesEarlier(b, a);
    }
  }

  /** Valid dates with the same epoch day are the same date. */
  lemma EpochDayInjective(a: Date, b: Date)
    requires a.Valid() && b.Valid()
    requires ToEpochDay(a) == ToEpochDay(b)
    ensures a == b
  {
    EpochDayOrder(a, b);
  }

  lemma BeforeImpliesEarlier(a: Date, b: Date)
    requires a.Valid() && b.Valid()
    requires Before(a, b)
    ensures ToEpochDay(a) < ToEpochDay(b)
  {
    if a.year < b.year {
      YearsAscend(a.year, b.year);
    } else if a.month < b.month {
      MonthsAscend(a.year, a.month, b.month);
    }
  }

  /** Conversion of a valid date to epoch days and back gives the same date. */
  lemma EpochDayRoundTrip(d: Date)
    requires d.Valid()
    ensures OfEpochDay(ToEpochDay(d)) == d
  {
    EpochDayOrder(d, OfEpochDay(ToEpochDay(d)));
  }

  // ---------------------------------------------------------------------------
  // Weekdays and date arithmetic

  /** LocalDate.getDayOfWeek().getValue(): ISO weekday, Monday = 1 .. Sunday = 7.
      1970-01-01 was a Thursday. */
  function DayOfWeek(d: Date): (w: int)
    requires d.Valid()
    ensures 1 <= w <= 7
  {
    (ToEpochDay(d) + 3) % 7 + 1
  }

  /** LocalDate.plusDays: the date `n` days later (earlier when `n` is negative). */
  function PlusDays(d: Date, n: int): (r: Date)
    requires d.Valid()
    ensures r.Valid()
    ensures ToEpochDay(r) == ToEpochDay(d) + n
  {
    OfEpochDay(ToEpochDay(d) + n)
  }

  /** `n` days later the weekday has moved on by `n`, modulo seven. */
  lemma PlusDaysWeekday(d: Date, n: int)
    requires d.Valid()
    ensures DayOfWeek(PlusDays(d, n)) == (DayOfWeek(d) - 1 + n) % 7 + 1
  {
    WeekdayAfter(d, PlusDays(d, n), n);
  }

  lemma WeekdayAfter(a: Date, b: Date, n: int)
    requires a.Valid() && b.Valid()
    requires ToEpochDay(b) == ToEpochDay(a) + n
    ensures DayOfWeek(b) == (DayOfWeek(a) - 1 + n) % 7 + 1
  {
    WeekdayShift(ToEpochDay(a) + 3, n, ToEpochDay(b) + 3);
  }

  lemma WeekdayShift(a: int, n: int, b: int)
    requires b == a + n
    ensures (a % 7 + n) % 7 == b % 7
  {
    assert a == 7 * (a / 7) + a % 7;
  }

  /** LocalDate.plusMonths: the same day `n` months later, clamped to the length of
      the month it lands in. */
  function PlusMonths(d: Date, n: int): (r: Date)
    requires d.Valid()
    ensures r.Valid()
    ensures ProlepticMonth(r) == ProlepticMonth(d) + n
    ensures r.day == if d.day <= LengthOfMonth(r.year, r.month) then d.day else LengthOfMonth(r.year, r.month)
  {
    var months := ProlepticMonth(d) + n;
    var year := months / 12;
    var month := months % 12 + 1;
    var last := LengthOfMonth(year, month);
    Date(year, month, if d.day <= last then d.day else last)
  }

  /** 1970-01-05 was a Monday, so weekday 1 is Monday. */
  lemma MondayIsOne()
    ensures DayOfWeek(Date(1970, 1, 5)) == 1
    ensures DayOfWeek(Date(1970, 1, 4)) == 7
  {
    assert DaysBeforeYear(1970) == DaysFromYear0To1970;
    assert ToEpochDay(Date(1970, 1, 5)) == 4;
    assert ToEpochDay(Date(1970, 1, 4)) == 3;
  }

  /** The next day has the next weekday, Sunday (7) wrapping to Monday (1). */
  lemma NextDayNextWeekday(d: Date)
    requires d.Valid()
    ensures DayOfWeek(PlusDays(d, 1)) == if DayOfWeek(d) == 7 then 1 else DayOfWeek(d) + 1
  {
    NextWeekdayNumber(ToEpochDay(d), ToEpochDay(PlusDays(d, 1)));
  }

  /** The weekday number of day `k + 1` follows that of day `k`, 7 wrapping to 1. */
  lemma NextWeekdayNumber(k: int, next: int)
    requires next == k + 1
    ensures (next + 3) % 7 + 1 == if (k + 3) % 7 + 1 == 7 then 1 else (k + 3) % 7 + 2
  {
    WeekdayShift(k + 3, 1, next + 3);
  }

  /** A worked example: March 2024 runs from epoch day 19783 to epoch day 19813, and
      its 15th, epoch day 19797, is a Friday. */
  lemma March2024()
    ensures ToEpochDay(Date(2024, 3, 1)) == 19783
    ensures ToEpochDay(Date(2024, 3, 15)) == 19797 && DayOfWeek(Date(2024, 3, 15)) == 5
    ensures ToEpochDay(Date(2024, 3, 31)) == 19813
  {
  }
}
