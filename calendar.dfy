/**
 * Calendar dates as the crawlers use them through Python's `datetime` and
 * `calendar.monthrange`: proleptic Gregorian dates of years 1 to 9999,
 * ordered by day, and the split of a month into one-day windows.
 */
module Calendar {

  datatype Date = Date(year: int, month: int, day: int)

  /** Gregorian leap years: divisible by 4, except centuries not divisible by 400. */
  predicate IsLeap(y: int)
  {
    y % 4 == 0 && (y % 100 != 0 || y % 400 == 0)
  }

  /** `calendar.monthrange(y, m)[1]`: the number of days of month `m` of year `y`. */
  function DaysInMonth(y: int, m: int): (n: int)
    requires 1 <= m <= 12
    ensures 28 <= n <= 31
    ensures m == 2 ==> (n == 29 <==> IsLeap(y))
    ensures m != 2 ==> (n == 31 <==> m in {1, 3, 5, 7, 8, 10, 12})
  {
    if m == 2 then (if IsLeap(y) then 29 else 28)
    else if m in {4, 6, 9, 11} then 30
    else 31
  }

  /** Every month's exact length: 28 or 29 for February, 30 for April, June, September and November, 31 otherwise. */
  lemma MonthLengths(y: int, m: int)
    requires 1 <= m <= 12
    ensures m == 2 ==> (DaysInMonth(y, m) == 29 <==> IsLeap(y)) && (DaysInMonth(y, m) == 28 <==> !IsLeap(y))
    ensures m != 2 ==> (DaysInMonth(y, m) == 31 <==> m in {1, 3, 5, 7, 8, 10, 12})
    ensures m != 2 ==> (DaysInMonth(y, m) == 30 <==> m in {4, 6, 9, 11})
  {
  }

  /** The days of the first `k` months of year `y`. */
  function DaysOfMonths(y: int, k: int): int
    requires 0 <= k <= 12
  {
    if k == 0 then 0 else DaysOfMonths(y, k - 1) + DaysInMonth(y, k)
  }

  /** The twelve month lengths add up to 365 days, and 366 in a leap year. */
  lemma YearLength(y: int)
    ensures DaysOfMonths(y, 12) == if IsLeap(y) then 366 else 365
  {
    assert DaysOfMonths(y, 1) == 31;
    assert DaysOfMonths(y, 2) == 31 + DaysInMonth(y, 2);
    assert DaysOfMonths(y, 4) == DaysOfMonths(y, 2) + 61;
    assert DaysOfMonths(y, 6) == DaysOfMonths(y, 4) + 61;
    assert DaysOfMonths(y, 8) == DaysOfMonths(y, 6) + 62;
    assert DaysOfMonths(y, 10) == DaysOfMonths(y, 8) + 61;
  }

  /** A date `datetime.date` accepts. */
  predicate Valid(d: Date)
  {
    1 <= d.year <= 9999 && 1 <= d.month <= 12 && 1 <= d.day <= DaysInMonth(d.year, d.month)
  }

  /** Day order: year, then month, then day. */
  predicate Le(a: Date, b: Date)
  {
    a.year < b.year
    || (a.year == b.year && a.month < b.month)
    || (a.year == b.year && a.month == b.month && a.day <= b.day)
  }

  predicate Lt(a: Date, b: Date)
  {
    Le(a, b) && a != b
  }

  /** `min` of two dates. */
  function MinDate(a: Date, b: Date): (r: Date)
    ensures Le(r, a) && Le(r, b) && (r == a || r == b)
  {
    if Le(a, b) then a else b
  }

  /** `d + timedelta(days=1)`; past 9999-12-31 it leaves the valid range. */
  function NextDay(d: Date): (n: Date)
    requires Valid(d)
    ensures Lt(d, n)
    ensures n.year <= 9999 ==> Valid(n)
  {
    if d.day < DaysInMonth(d.year, d.month) then Date(d.year, d.month, d.day + 1)
    else if d.month < 12 then Date(d.year, d.month + 1, 1)
    else Date(d.year + 1, 1, 1)
  }

  /** No valid date lies strictly between a date and the next day. */
  lemma NextDayAdjacent(d: Date, x: Date)
    requires Valid(d) && Valid(x) && Lt(d, x)
    ensures Le(NextDay(d), x)
  {
  }

  lemma LeAntisymmetric(a: Date, b: Date)
    requires Le(a, b) && Le(b, a)
    ensures a == b
  {
  }

  lemma LeTransitive(a: Date, b: Date, c: Date)
    requires Le(a, b) && Le(b, c)
    ensures Le(a, c)
  {
  }

  /** The first and last day of a month: `datetime(y, m, 1)` and `datetime(y, m, monthrange(y, m)[1])`. */
  function MonthStart(y: int, m: int): (d: Date)
    requires 1 <= y <= 9999 && 1 <= m <= 12
    ensures Valid(d)
  {
    Date(y, m, 1)
  }

  function MonthEnd(y: int, m: int): (d: Date)
    requires 1 <= y <= 9999 && 1 <= m <= 12
    ensures Valid(d) && Le(MonthStart(y, m), d)
  {
    Date(y, m, DaysInMonth(y, m))
  }

  /** The dates of a month in calendar order: the one-day windows a month is split into. */
  function MonthDays(y: int, m: int): (days: seq<Date>)
    requires 1 <= y <= 9999 && 1 <= m <= 12
    ensures |days| == DaysInMonth(y, m)
    ensures forall i :: 0 <= i < |days| ==> days[i] == Date(y, m, i + 1)
  {
    seq(DaysInMonth(y, m), i => Date(y, m, i + 1))
  }

  /** Dates in strictly increasing day order. */
  predicate Increasing(days: seq<Date>)
  {
    forall i, j :: 0 <= i < j < |days| ==> Lt(days[i], days[j])
  }

  /**
   * The one-day windows of a month cover it exactly, in order and without
   * overlap: they start on the 1st, each is the day after the previous one,
   * they end on the last day, and every date of the month is one of them.
   */
  lemma MonthDaysPartition(y: int, m: int)
    requires 1 <= y <= 9999 && 1 <= m <= 12
    ensures var days := MonthDays(y, m);
      && days[0] == MonthStart(y, m)
      && days[|days| - 1] == MonthEnd(y, m)
      && (forall i :: 0 <= i < |days| ==> Valid(days[i]))
      && (forall i :: 0 <= i < |days| - 1 ==> days[i + 1] == NextDay(days[i]))
      && Increasing(days)
      && (forall x :: Valid(x) && Le(MonthStart(y, m), x) && Le(x, MonthEnd(y, m)) ==> x in days)
  {
    var days := MonthDays(y, m);
    forall x | Valid(x) && Le(MonthStart(y, m), x) && Le(x, MonthEnd(y, m))
      ensures x in days
    {
      assert days[x.day - 1] == x;
    }
  }
}
