/**
 The date adjusters of java.time.temporal.TemporalAdjusters that the utility uses:
 first and last day of the month, and the previous-or-same / next-or-same day of
 a given weekday.
 */
module Adjusters {
  import opened Calendar

  /** TemporalAdjusters.firstDayOfMonth: day 1 of the same month. */
  function FirstDayOfMonth(d: Date): (r: Date)
    requires d.Valid()
    ensures r.Valid() && r.day == 1
    ensures r.year == d.year && r.month == d.month
    ensures !Before(d, r)
  {
    Date(d.year, d.month, 1)
  }

  /** TemporalAdjusters.lastDayOfMonth: the last day of the same month, whose number
      is the length of that month. */
  function LastDayOfMonth(d: Date): (r: Date)
    requires d.Valid()
    ensures r.Valid() && r.day == LengthOfMonth(d.year, d.month)
    ensures r.year == d.year && r.month == d.month
    ensures !Before(r, d)
  {
    Date(d.year, d.month, LengthOfMonth(d.year, d.month))
  }

  /** TemporalAdjusters.previousOrSame(dow): `d` itself when it already falls on
      weekday `dow`, otherwise the closest earlier day that does. */
  function PreviousOrSame(d: Date, dow: int): (r: Date)
    requires d.Valid()
    requires 1 <= dow <= 7
    ensures r.Valid()
    ensures DayOfWeek(r) == dow
    ensures ToEpochDay(d) - 7 < ToEpochDay(r) <= ToEpochDay(d)
    ensures DayOfWeek(d) == dow ==> r == d
  {
    var calDow := DayOfWeek(d);
    if calDow == dow then d
    else
      var n := -DaysBack(calDow, dow);
      PlusDaysWeekday(d, n);
      PlusDays(d, n)
  }

  /** The days previousOrSame steps back from weekday `calDow` to reach the earlier
      weekday `dow`: between one and six. */
  function DaysBack(calDow: int, dow: int): (back: int)
    requires 1 <= calDow <= 7 && 1 <= dow <= 7 && calDow != dow
    ensures 0 < back < 7
    ensures (calDow - 1 + -back) % 7 + 1 == dow
  {
    var daysDiff := dow - calDow;
    if daysDiff >= 0 then 7 - daysDiff else -daysDiff
  }

  /** TemporalAdjusters.nextOrSame(dow): `d` itself when it already falls on weekday
      `dow`, otherwise the closest later day that does. */
  function NextOrSame(d: Date, dow: int): (r: Date)
    requires d.Valid()
    requires 1 <= dow <= 7
    ensures r.Valid()
    ensures DayOfWeek(r) == dow
    ensures ToEpochDay(d) <= ToEpochDay(r) < ToEpochDay(d) + 7
    ensures DayOfWeek(d) == dow ==> r == d
  {
    var calDow := DayOfWeek(d);
    if calDow == dow then d
    else
      var n := DaysAhead(calDow, dow);
      PlusDaysWeekday(d, n);
      PlusDays(d, n)
  }

  /** The days nextOrSame steps ahead from weekday `calDow` to reach the later
      weekday `dow`: between one and six. */
  function DaysAhead(calDow: int, dow: int): (ahead: int)
    requires 1 <= calDow <= 7 && 1 <= dow <= 7 && calDow != dow
    ensures 0 < ahead < 7
    ensures (calDow - 1 + ahead) % 7 + 1 == dow
  {
    var daysDiff := calDow - dow;
    if daysDiff >= 0 then 7 - daysDiff else -daysDiff
  }

  /** Only one day in any seven consecutive days has a given weekday, so the
      adjusters' results are the unique such day in their window. */
  lemma PreviousOrSameUnique(d: Date, dow: int, c: Date)
    requires d.Valid() && c.Valid() && 1 <= dow <= 7
    requires DayOfWeek(c) == dow
    requires ToEpochDay(d) - 7 < ToEpochDay(c) <= ToEpochDay(d)
    ensures c == PreviousOrSame(d, dow)
  {
    OneInSeven(c, PreviousOrSame(d, dow), ToEpochDay(d) - 6);
  }

  /** Two days with the same weekday in the seven days from `first` coincide. */
  lemma OneInSeven(a: Date, b: Date, first: int)
    requires a.Valid() && b.Valid()
    requires DayOfWeek(a) == DayOfWeek(b)
    requires first <= ToEpochDay(a) < first + 7 && first <= ToEpochDay(b) < first + 7
    ensures a == b
  {
    SameWeekdayInWeek(ToEpochDay(a), ToEpochDay(b));
    EpochDayInjective(a, b);
  }

  lemma SameWeekdayInWeek(a: int, b: int)
    requires -7 < a - b < 7
    requires (a + 3) % 7 == (b + 3) % 7
    ensures a == b
  {
  }

  /** The Sunday on or after a day is six days after the Monday on or before it:
      both lie in the same Monday-to-Sunday week. */
  lemma WeekSpan(d: Date)
    requires d.Valid()
    ensures ToEpochDay(NextOrSame(d, 7)) == ToEpochDay(PreviousOrSame(d, 1)) + 6
  {
    var monday := PreviousOrSame(d, 1);
    var sunday := NextOrSame(d, 7);
    var m, s := ToEpochDay(monday), ToEpochDay(sunday);
    WeekdayOfNumber(monday, m, 1);
    WeekdayOfNumber(sunday, s, 7);
    SundayOfMonday(ToEpochDay(d), m, s);
  }

  /** A date's weekday `w` is that of its epoch day `k`. */
  lemma WeekdayOfNumber(x: Date, k: int, w: int)
    requires x.Valid() && k == ToEpochDay(x) && w == DayOfWeek(x)
    ensures (k + 3) % 7 + 1 == w
  { }

  /** The day numbers of a Monday at most six days before day `k` and of a Sunday at
      most six days after it are six apart. */
  lemma SundayOfMonday(k: int, monday: int, sunday: int)
    requires k - 7 < monday <= k <= sunday < k + 7
    requires (monday + 3) % 7 + 1 == 1 && (sunday + 3) % 7 + 1 == 7
    ensures sunday == monday + 6
  {
    SameWeekdayInWeek(sunday, monday + 6);
  }

  /** The day after the last day of a month is the first day of the next month. */
  lemma DayAfterLastDayOfMonth(d: Date)
    requires d.Valid()
    ensures PlusDays(LastDayOfMonth(d), 1).day == 1
    ensures ProlepticMonth(PlusDays(LastDayOfMonth(d), 1)) == ProlepticMonth(d) + 1
  {
    var last := LastDayOfMonth(d);
    var next := if d.month == 12 then Date(d.year + 1, 1, 1) else Date(d.year, d.month + 1, 1);
    MonthStep(d.year, d.month);
    if d.month == 12 {
      YearStep(d.year);
    }
    assert ToEpochDay(next) == ToEpochDay(last) + 1;
    EpochDayOrder(PlusDays(last, 1), next);
  }
}
