/**
 * The part of Go's `time` package the partitioners rely on, for UTC instants:
 * civil dates of the proleptic Gregorian calendar, the day ordinal, the weekday
 * (Sunday = 0, as `time.Weekday`), the previous day (`AddDate(0, 0, -1)`) and
 * chronological order.
 */
module Calendar {

  datatype CivilDate = CivilDate(year: int, month: int, day: int)

  predicate IsLeapYear(y: int) {
    y % 4 == 0 && (y % 100 != 0 || y % 400 == 0)
  }

  function DaysInMonth(y: int, m: int): (n: int)
    requires 1 <= m <= 12
    ensures 28 <= n <= 31
    ensures n == 29 <==> m == 2 && IsLeapYear(y)
  {
    if m == 2 then (if IsLeapYear(y) then 29 else 28)
    else if m == 4 || m == 6 || m == 9 || m == 11 then 30
    else 31
  }

  predicate ValidDate(d: CivilDate) {
    1 <= d.month <= 12 && 1 <= d.day <= DaysInMonth(d.year, d.month)
  }

  /** A calendar date that exists. */
  type Date = d: CivilDate | ValidDate(d) witness CivilDate(1970, 1, 1)

  type SecondOfDay = s: int | 0 <= s < 86400

  /** A UTC instant with second resolution: a date and the seconds elapsed since its midnight. */
  datatype Instant = Instant(date: Date, secondOfDay: SecondOfDay)

  /** Days from 0001-01-01 to January 1st of year `y`. */
  function DaysBeforeYear(y: int): int {
    var n := y - 1;
    365 * n + n / 4 - n / 100 + n / 400
  }

  /** Days from January 1st to the first day of month `m` of year `y` (`m == 13` is the next year). */
  function DaysBeforeMonth(y: int, m: int): (n: int)
    requires 1 <= m <= 13
    ensures 0 <= n <= 366
  {
    var leap := if IsLeapYear(y) && m > 2 then 1 else 0;
    [0, 31, 59, 90, 120, 151, 181, 212, 243, 273, 304, 334, 365][m - 1] + leap
  }

  /** Days elapsed since 0001-01-01 (which is day 0). */
  function Ordinal(d: Date): int {
    DaysBeforeYear(d.year) + DaysBeforeMonth(d.year, d.month) + d.day - 1
  }

  /** Day of the week with Sunday = 0; 0001-01-01 was a Monday. */
  function Weekday(d: Date): (w: int)
    ensures 0 <= w < 7
  {
    (Ordinal(d) + 1) % 7
  }

  /** The day before `d`, crossing month and year boundaries. */
  function PrevDay(d: Date): (p: Date)
    ensures Ordinal(p) == Ordinal(d) - 1
  {
    if d.day > 1 then CivilDate(d.year, d.month, d.day - 1)
    else if d.month > 1 then
      MonthLength(d.year, d.month - 1);
      CivilDate(d.year, d.month - 1, DaysInMonth(d.year, d.month - 1))
    else
      YearLength(d.year - 1);
      CivilDate(d.year - 1, 12, 31)
  }

  /** Stepping back one day steps back one weekday. */
  lemma PrevDayWeekday(d: Date)
    ensures Weekday(PrevDay(d)) == (Weekday(d) + 6) % 7
    ensures Weekday(d) > 0 ==> Weekday(PrevDay(d)) == Weekday(d) - 1
  {
    ModSevenStep(Ordinal(d) + 1);
  }

  lemma ModSevenStep(x: int)
    ensures (x - 1) % 7 == (x % 7 + 6) % 7
  {
    var q := x / 7;
    if x % 7 == 0 {
      assert x - 1 == 7 * (q - 1) + 6;
    } else {
      assert x - 1 == 7 * q + (x % 7 - 1);
    }
  }

  /** Consecutive month starts are one month length apart. */
  lemma MonthLength(y: int, m: int)
    requires 1 <= m <= 12
    ensures DaysBeforeMonth(y, m + 1) == DaysBeforeMonth(y, m) + DaysInMonth(y, m)
  {
  }

  /** `n / k` grows by one exactly when `n` is a multiple of `k`, for the divisors of the leap-year rule. */
  lemma DivStep(n: int)
    ensures n / 4 - (n - 1) / 4 == if n % 4 == 0 then 1 else 0
    ensures n / 100 - (n - 1) / 100 == if n % 100 == 0 then 1 else 0
    ensures n / 400 - (n - 1) / 400 == if n % 400 == 0 then 1 else 0
  {
  }

  /** A multiple of 400 is a multiple of 100. */
  lemma MultipleOf400(y: int)
    requires y % 400 == 0
    ensures y % 100 == 0
  {
    var q := y / 400;
    assert y == 100 * (4 * q);
  }

  /** A multiple of 100 is a multiple of 4. */
  lemma MultipleOf100(y: int)
    requires y % 100 == 0
    ensures y % 4 == 0
  {
    var q := y / 100;
    assert y == 4 * (25 * q);
  }

  /** Consecutive year starts are 365 days apart, 366 after a leap year. */
  lemma YearLength(y: int)
    ensures DaysBeforeYear(y + 1) == DaysBeforeYear(y) + DaysBeforeMonth(y, 13)
  {
    DivStep(y);
    if y % 400 == 0 { MultipleOf400(y); }
    if y % 100 == 0 { MultipleOf100(y); }
    assert DaysBeforeYear(y + 1) - DaysBeforeYear(y) ==
      365 + (y / 4 - (y - 1) / 4) - (y / 100 - (y - 1) / 100) + (y / 400 - (y - 1) / 400);
  }

  /** Strict chronological order; lexicographic on (year, month, day, second). */
  predicate Before(a: Instant, b: Instant) {
    if a.date.year != b.date.year then a.date.year < b.date.year
    else if a.date.month != b.date.month then a.date.month < b.date.month
    else if a.date.day != b.date.day then a.date.day < b.date.day
    else a.secondOfDay < b.secondOfDay
  }

  /** Seconds elapsed since 0001-01-01T00:00:00Z. */
  function Seconds(t: Instant): int {
    Ordinal(t.date) * 86400 + t.secondOfDay
  }

  /** The date's ordinal lies within its year. */
  lemma OrdinalWithinYear(d: Date)
    ensures DaysBeforeYear(d.year) <= Ordinal(d) < DaysBeforeYear(d.year + 1)
  {
    YearLength(d.year);
  }

  lemma {:induction false} YearStartsIncrease(x: int, y: int)
    requires x <= y
    ensures DaysBeforeYear(x) <= DaysBeforeYear(y)
    decreases y - x
  {
    if x < y {
      YearLength(x);
      YearStartsIncrease(x + 1, y);
    }
  }

  lemma MonthStartsIncrease(y: int, m: int, n: int)
    requires 1 <= m < n <= 13
    ensures DaysBeforeMonth(y, n) - DaysBeforeMonth(y, m) >= 28 * (n - m)
  {
  }

  /** A date of an earlier year has a smaller ordinal. */
  lemma EarlierYear(d: Date, e: Date)
    requires d.year < e.year
    ensures Ordinal(d) < Ordinal(e)
  {
    OrdinalWithinYear(d);
    OrdinalWithinYear(e);
    YearStartsIncrease(d.year + 1, e.year);
  }

  /** A date of an earlier month of the same year has a smaller ordinal. */
  lemma EarlierMonth(d: Date, e: Date)
    requires d.year == e.year && d.month < e.month
    ensures Ordinal(d) < Ordinal(e)
  {
    MonthStartsIncrease(d.year, d.month, e.month);
  }

  /** An instant on an earlier day has fewer elapsed seconds. */
  lemma EarlierDay(a: Instant, b: Instant)
    requires Ordinal(a.date) < Ordinal(b.date)
    ensures Seconds(a) < Seconds(b)
  {
  }

  /** The lexicographic order is the chronological one: `Before` agrees with elapsed seconds. */
  lemma BeforeIsChronological(a: Instant, b: Instant)
    ensures Before(a, b) <==> Seconds(a) < Seconds(b)
  {
    var d, e := a.date, b.date;
    if d.year < e.year {
      EarlierYear(d, e);
      EarlierDay(a, b);
    } else if e.year < d.year {
      EarlierYear(e, d);
      EarlierDay(b, a);
    } else if d.month < e.month {
      EarlierMonth(d, e);
      EarlierDay(a, b);
    } else if e.month < d.month {
      EarlierMonth(e, d);
      EarlierDay(b, a);
    }
  }

  /** Distinct instants are ordered one way or the other. */
  lemma BeforeTotal(a: Instant, b: Instant)
    requires a != b
    ensures Before(a, b) || Before(b, a)
  {
  }

  lemma BeforeTransitive(a: Instant, b: Instant, c: Instant)
    requires Before(a, b) && Before(b, c)
    ensures Before(a, c)
  {
  }
}
