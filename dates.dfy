/**
 The proleptic Gregorian calendar as the program's date arithmetic sees it:
 a date is its day ordinal (0001-01-01 is day 1), the way `date.toordinal()`
 numbers days, and adding or subtracting a number of days is integer
 arithmetic on ordinals.
 */
module Dates {

  /** The smallest and largest civil years a date can have. */
  const MinYear := 1
  const MaxYear := 9999

  /** Weekday numbers, Monday first. */
  const Monday := 0
  const Sunday := 6

  predicate IsLeapYear(y: int) {
    y % 4 == 0 && (y % 100 != 0 || y % 400 == 0)
  }

  function DaysInYear(y: int): (n: int)
    ensures n == 365 || n == 366
    ensures n == 366 <==> IsLeapYear(y)
  {
    if IsLeapYear(y) then 366 else 365
  }

  function DaysInMonth(y: int, m: int): (n: int)
    requires 1 <= m <= 12
    ensures 28 <= n <= 31
    ensures m == 2 ==> (n == 29 <==> IsLeapYear(y))
  {
    if m == 2 then (if IsLeapYear(y) then 29 else 28)
    else if m == 4 || m == 6 || m == 9 || m == 11 then 30
    else 31
  }

  /** Number of days in year `y` before the first day of month `m`. */
  function DaysBeforeMonth(y: int, m: int): int
    requires 1 <= m <= 12
  {
    var common := [0, 31, 59, 90, 120, 151, 181, 212, 243, 273, 304, 334][m - 1];
    if m > 2 && IsLeapYear(y) then common + 1 else common
  }

  /** The months of a year follow one another without gap or overlap and fill the year exactly. */
  lemma MonthsTileYear(y: int, m: int)
    requires 1 <= m <= 12
    ensures m == 1 ==> DaysBeforeMonth(y, m) == 0
    ensures m < 12 ==> DaysBeforeMonth(y, m + 1) == DaysBeforeMonth(y, m) + DaysInMonth(y, m)
    ensures m == 12 ==> DaysBeforeMonth(y, m) + DaysInMonth(y, m) == DaysInYear(y)
  {
  }

  /** Number of days before January 1 of year `y`. */
  function DaysBeforeYear(y: int): int {
    var p := y - 1;
    p * 365 + p / 4 - p / 100 + p / 400
  }

  /** Consecutive years follow one another without gap or overlap. */
  lemma YearsTile(y: int)
    ensures DaysBeforeYear(y + 1) == DaysBeforeYear(y) + DaysInYear(y)
  {
    QuotientStep(y - 1, 4);
    QuotientStep(y - 1, 100);
    QuotientStep(y - 1, 400);
  }

  /** Counting the multiples of `k` up to `p + 1` adds one exactly when `p + 1` is a multiple. */
  lemma QuotientStep(p: int, k: int)
    requires k > 0
    ensures (p + 1) / k == p / k + (if (p + 1) % k == 0 then 1 else 0)
  {
    var q, r := p / k, p % k;
    assert p == k * q + r;
    if r == k - 1 {
      assert p + 1 == k * (q + 1);
      DivisionOfMultiple(p + 1, k, q + 1, 0);
    } else {
      assert p + 1 == k * q + (r + 1);
      DivisionOfMultiple(p + 1, k, q, r + 1);
    }
  }

  lemma DivisionOfMultiple(n: int, k: int, q: int, r: int)
    requires k > 0 && 0 <= r < k && n == k * q + r
    ensures n / k == q && n % k == r
  {
    var d := n / k - q;
    assert k * d == r - n % k by {
      assert n == k * (n / k) + n % k;
      assert k * (n / k) == k * q + k * d;
    }
    if d > 0 {
      ProductAtLeastFactor(k, d);
    } else if d < 0 {
      ProductAtLeastFactor(k, -d);
    }
  }

  lemma {:induction false} ProductAtLeastFactor(k: int, d: int)
    requires k > 0 && d >= 1
    ensures k * d >= k
    decreases d
  {
    if d > 1 {
      ProductAtLeastFactor(k, d - 1);
      assert k * d == k * (d - 1) + k;
    }
  }

  predicate ValidDate(y: int, m: int, d: int) {
    MinYear <= y <= MaxYear && 1 <= m <= 12 && 1 <= d <= DaysInMonth(y, m)
  }

  /** The ordinal of the civil date `y`-`m`-`d`; it lies inside year `y`'s ordinals. */
  function Ordinal(y: int, m: int, d: int): (n: int)
    requires ValidDate(y, m, d)
    ensures DaysBeforeYear(y) < n <= DaysBeforeYear(y) + DaysInYear(y)
  {
    DaysBeforeMonthBound(y, m);
    DaysBeforeYear(y) + DaysBeforeMonth(y, m) + d
  }

  lemma {:induction false} DaysBeforeMonthBound(y: int, m: int)
    requires 1 <= m <= 12
    ensures DaysBeforeMonth(y, m) + DaysInMonth(y, m) <= DaysInYear(y)
    decreases 12 - m
  {
    if m < 12 {
      DaysBeforeMonthBound(y, m + 1);
      MonthsTileYear(y, m);
    } else {
      MonthsTileYear(y, m);
    }
  }

  /** Christmas Day of civil year `y`. */
  function Christmas(y: int): int
    requires MinYear <= y <= MaxYear
  {
    Ordinal(y, 12, 25)
  }

  /** From one Christmas to the next is exactly the length of the later year. */
  lemma ChristmasToChristmas(y: int)
    requires MinYear <= y < MaxYear
    ensures Christmas(y + 1) - Christmas(y) == DaysInYear(y + 1)
  {
    YearsTile(y);
  }

  /** The weekday of an ordinal, Monday 0 through Sunday 6, as `date.weekday()` gives it. */
  function Weekday(n: int): (w: int)
    ensures 0 <= w < 7
  {
    (n + 6) % 7
  }

  /**
   Going back `Weekday(n) + 1` days from day `n` reaches the last Sunday
   strictly before `n`: a week back when `n` is itself a Sunday.
   */
  lemma SundayStrictlyBefore(n: int)
    ensures var s := n - (Weekday(n) + 1);
      && Weekday(s) == Sunday
      && n - 7 <= s < n
      && (s == n - 7 <==> Weekday(n) == Sunday)
      && forall d :: s < d < n ==> Weekday(d) != Sunday
  {
    var w, q := Weekday(n), (n + 6) / 7;
    assert n + 6 == 7 * q + w;
    var s := n - (w + 1);
    assert s + 6 == 7 * (q - 1) + 6;
    forall d | s < d < n
      ensures Weekday(d) != Sunday
    {
      assert d + 6 == 7 * q + (d - s - 1);
    }
  }

  /**
   From a day `c0` to a day `c1` one year later, the weekday moves on by one
   or two; the Sundays strictly before them are then 52 or 53 weeks apart,
   53 exactly when the weekday wraps around past Sunday.
   */
  lemma WeekdayAdvance(c0: int, c1: int)
    requires c1 - c0 == 365 || c1 - c0 == 366
    ensures var span := (c1 - Weekday(c1)) - (c0 - Weekday(c0));
      && (span == 364 || span == 371)
      && (span == 371 <==> Weekday(c1) < Weekday(c0))
  {
    var w0, q := Weekday(c0), (c0 + 6) / 7;
    var k := c1 - c0 - 364;
    assert c0 + 6 == 7 * q + w0;
    if w0 + k < 7 {
      assert c1 + 6 == 7 * (q + 52) + (w0 + k);
    } else {
      assert c1 + 6 == 7 * (q + 53) + (w0 + k - 7);
    }
  }

  /** Day one of the calendar is 0001-01-01, a Monday. */
  lemma FirstOrdinalIsMonday()
    ensures Ordinal(MinYear, 1, 1) == 1
    ensures Weekday(Ordinal(MinYear, 1, 1)) == Monday
  {
    assert DaysBeforeYear(MinYear) == 0 * 365 + 0 / 4 - 0 / 100 + 0 / 400 == 0;
    assert DaysBeforeMonth(MinYear, 1) == 0;
    assert Weekday(1) == 7 % 7 == 0;
  }
}
