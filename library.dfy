/**
 Where a liturgical year begins. The program asks for "the first day of
 liturgical year Y" and gets a Sunday at the end of civil year Y - 1; the
 liturgical year Y is the half-open range of days from that Sunday up to
 the first day of liturgical year Y + 1.
 */
module Library {
  import opened Dates

  /** Christmas of the civil year before `year` must be a date the calendar can represent. */
  predicate HasFirstDay(year: int) {
    MinYear <= year - 1 <= MaxYear
  }

  /** Both ends of liturgical year `year` can be computed. */
  predicate HasSpan(year: int) {
    HasFirstDay(year) && HasFirstDay(year + 1)
  }

  /**
   The first day of liturgical year `year`: the last Sunday strictly before
   Christmas of civil year `year - 1`, moved back four more weeks.
   */
  function FirstDayOfLiturgicalYear(year: int): (first: int)
    requires HasFirstDay(year)
    ensures Weekday(first) == Sunday
    ensures 29 <= Christmas(year - 1) - first <= 35
    ensures Christmas(year - 1) - first == 35 <==> Weekday(Christmas(year - 1)) == Sunday
  {
    var christmas := Christmas(year - 1);
    SundayStrictlyBefore(christmas);
    var daysSinceSunday := Weekday(christmas) + 1;
    var sundayBeforeChristmas := christmas - daysSinceSunday;
    var fourWeeks := 4 * 7;
    sundayBeforeChristmas - fourWeeks
  }

  /**
   Four weeks after the first day of liturgical year `year` comes the last
   Sunday strictly before Christmas of civil year `year - 1`: no day between
   them is a Sunday.
   */
  lemma FourWeeksBeforeLastSundayBeforeChristmas(year: int)
    requires HasFirstDay(year)
    ensures var sunday := FirstDayOfLiturgicalYear(year) + 28;
      && Weekday(sunday) == Sunday
      && sunday < Christmas(year - 1)
      && forall d :: sunday < d < Christmas(year - 1) ==> Weekday(d) != Sunday
  {
    SundayStrictlyBefore(Christmas(year - 1));
  }

  /** The first day of liturgical year `year` is one of November 20 to 26 of civil year `year - 1`. */
  lemma FirstDayInLateNovember(year: int)
    requires HasFirstDay(year)
    ensures Ordinal(year - 1, 11, 20) <= FirstDayOfLiturgicalYear(year) <= Ordinal(year - 1, 11, 26)
    ensures DaysBeforeYear(year - 1) < FirstDayOfLiturgicalYear(year) <= DaysBeforeYear(year)
  {
    var y := year - 1;
    MonthsTileYear(y, 11);
    assert Christmas(y) - Ordinal(y, 11, 20) == 35;
    assert Christmas(y) - Ordinal(y, 11, 26) == 29;
    YearsTile(y);
  }

  /**
   A liturgical year lasts 52 or 53 whole weeks; it lasts 53 exactly when the
   weekday of Christmas wraps around past Sunday from one civil year to the next.
   */
  lemma LiturgicalYearLength(year: int)
    requires HasSpan(year)
    ensures var span := FirstDayOfLiturgicalYear(year + 1) - FirstDayOfLiturgicalYear(year);
      && span % 7 == 0
      && (span == 364 || span == 371)
      && (span == 371 <==> Weekday(Christmas(year)) < Weekday(Christmas(year - 1)))
  {
    ChristmasToChristmas(year - 1);
    WeekdayAdvance(Christmas(year - 1), Christmas(year));
  }

  /** Later liturgical years start later, by at least 364 days per year. */
  lemma {:induction false} FirstDaysIncrease(a: int, b: int)
    requires HasFirstDay(a) && HasFirstDay(b) && a <= b
    ensures FirstDayOfLiturgicalYear(b) - FirstDayOfLiturgicalYear(a) >= 364 * (b - a)
    decreases b - a
  {
    if a < b {
      FirstDaysIncrease(a, b - 1);
      LiturgicalYearLength(b - 1);
    }
  }

  /** The range of days of liturgical year `year`. */
  predicate InLiturgicalYear(d: int, year: int)
    requires HasSpan(year)
  {
    FirstDayOfLiturgicalYear(year) <= d < FirstDayOfLiturgicalYear(year + 1)
  }

  /** No day lies in two liturgical years. */
  lemma OneLiturgicalYearPerDay(d: int, a: int, b: int)
    requires HasSpan(a) && HasSpan(b)
    requires InLiturgicalYear(d, a) && InLiturgicalYear(d, b)
    ensures a == b
  {
    if a != b {
      var (lo, hi) := if a < b then (a, b) else (b, a);
      FirstDaysIncrease(lo + 1, hi);
      assert false;
    }
  }

  /** The liturgical year, not earlier than `from`, whose range holds day `d`. */
  function LiturgicalYearFrom(d: int, from: int): (year: int)
    requires HasSpan(from)
    requires FirstDayOfLiturgicalYear(from) <= d < FirstDayOfLiturgicalYear(MaxYear + 1)
    ensures from <= year && HasSpan(year) && InLiturgicalYear(d, year)
    decreases MaxYear - from
  {
    if d < FirstDayOfLiturgicalYear(from + 1) then from
    else LiturgicalYearFrom(d, from + 1)
  }

  /**
   Every day from the first liturgical year the calendar can compute up to
   the last lies in a liturgical year (and, by OneLiturgicalYearPerDay, in one only).
   */
  function LiturgicalYearOf(d: int): (year: int)
    requires FirstDayOfLiturgicalYear(MinYear + 1) <= d < FirstDayOfLiturgicalYear(MaxYear + 1)
    ensures HasSpan(year) && InLiturgicalYear(d, year)
    ensures forall other :: HasSpan(other) && InLiturgicalYear(d, other) ==> other == year
  {
    var year := LiturgicalYearFrom(d, MinYear + 1);
    forall other | HasSpan(other) && InLiturgicalYear(d, other)
      ensures other == year
    {
      OneLiturgicalYearPerDay(d, other, year);
    }
    year
  }

  /**
   The years the program is configured with, 2013 to 2016, and the first day
   of 2017, which ends 2016: each starts four weeks before the Sunday strictly
   preceding Christmas, a week before the usual First Sunday of Advent
   (2015-11-22 rather than 2015-11-29 for 2016).
   */
  lemma ConfiguredYearsStart()
    ensures FirstDayOfLiturgicalYear(2013) == Ordinal(2012, 11, 25)
    ensures FirstDayOfLiturgicalYear(2014) == Ordinal(2013, 11, 24)
    ensures FirstDayOfLiturgicalYear(2015) == Ordinal(2014, 11, 23)
    ensures FirstDayOfLiturgicalYear(2016) == Ordinal(2015, 11, 22)
    ensures FirstDayOfLiturgicalYear(2017) == Ordinal(2016, 11, 20)
  {
  }
}
