/**
 The calendar skeleton: a calendar holds one Year per configured year, a
 Year holds one Subset per subset of the rule set, and a Subset holds one
 Day per date of its liturgical year, keyed by that date.
 */
module Ruleset {
  import opened Library

  /** A subset of the rule set (a coordinaterules element), identified by its name. */
  type SubsetName = string

  /** The rule set, reduced to the list of its subsets in document order. */
  class Ruleset {
    const listOfCoordinateRules: seq<SubsetName>

    /** `coordinateRules` stands for the subsets read from the rule set file. */
    constructor (coordinateRules: seq<SubsetName>)
      ensures listOfCoordinateRules == coordinateRules
    {
      listOfCoordinateRules := coordinateRules;
    }

    function GetListOfSubsets(): seq<SubsetName> {
      listOfCoordinateRules
    }
  }

  /** Run options: output language, liturgical form and the years to build. */
  datatype Options = Options(language: string, form: string, years: seq<int>)

  /** A liturgical day, identified by its date. */
  class Day {
    const date: int

    constructor (date: int)
      ensures this.date == date
    {
      this.date := date;
    }
  }

  /** The days of one liturgical year for one subset. */
  class Subset {
    var daysByDate: map<int, Day>

    /**
     The table holds exactly the days of liturgical year `year`, each under
     its own date; there are as many of them as the year is long.
     */
    ghost predicate CoversYear(year: int)
      reads this
    {
      && HasSpan(year)
      && (forall d :: d in daysByDate <==> InLiturgicalYear(d, year))
      && (forall d :: d in daysByDate ==> daysByDate[d].date == d)
      && |daysByDate| == FirstDayOfLiturgicalYear(year + 1) - FirstDayOfLiturgicalYear(year)
    }

    constructor (year: int, subset: SubsetName)
      requires HasSpan(year)
      ensures CoversYear(year)
      ensures forall d :: d in daysByDate ==> fresh(daysByDate[d])
    {
      daysByDate := map[];
      new;
      var startDate := FirstDayOfLiturgicalYear(year);
      var endDateExclusive := FirstDayOfLiturgicalYear(year + 1);
      var dayCount := endDateExclusive - startDate + 1;
      LiturgicalYearLength(year);
      for i := 0 to dayCount - 1
        invariant forall d :: d in daysByDate <==> startDate <= d < startDate + i
        invariant forall d :: d in daysByDate ==> daysByDate[d].date == d && fresh(daysByDate[d])
        invariant |daysByDate| == i
      {
        var date := startDate + i;
        var day := new Day(date);
        daysByDate := daysByDate[date := day];
      }
    }
  }

  /** A subset's table lasts 52 or 53 whole weeks of days. */
  lemma SubsetLength(subset: Subset, year: int)
    requires subset.CoversYear(year)
    ensures |subset.daysByDate| == 364 || |subset.daysByDate| == 371
  {
    LiturgicalYearLength(year);
  }

  /** Tables built for two different liturgical years share no date. */
  lemma SubsetsOfDifferentYearsDisjoint(a: Subset, yearA: int, b: Subset, yearB: int)
    requires a.CoversYear(yearA) && b.CoversYear(yearB) && yearA != yearB
    ensures a.daysByDate.Keys !! b.daysByDate.Keys
  {
    forall d | d in a.daysByDate && d in b.daysByDate
      ensures false
    {
      OneLiturgicalYearPerDay(d, yearA, yearB);
    }
  }

  /**
   The tables of two consecutive liturgical years are adjacent: together they
   hold exactly the days from the first day of the one to the first day of
   the year after the other, without overlap.
   */
  lemma ConsecutiveSubsetsAdjacent(a: Subset, b: Subset, year: int)
    requires a.CoversYear(year) && b.CoversYear(year + 1)
    ensures a.daysByDate.Keys !! b.daysByDate.Keys
    ensures forall d :: d in a.daysByDate || d in b.daysByDate <==>
      FirstDayOfLiturgicalYear(year) <= d < FirstDayOfLiturgicalYear(year + 2)
  {
    SubsetsOfDifferentYearsDisjoint(a, year, b, year + 1);
  }

  /** One liturgical year: a Subset per subset of the rule set. */
  class Year {
    var subsets: map<SubsetName, Subset>

    /** One entry per name in `names` and no other, each covering liturgical year `year`. */
    ghost predicate CoversSubsets(year: int, names: seq<SubsetName>)
      reads this, subsets.Values
    {
      && (forall s :: s in subsets <==> s in names)
      && (forall s :: s in subsets ==> subsets[s].CoversYear(year))
    }

    /** With no subsets in the rule set, no first day is computed and any year is accepted. */
    constructor (year: int, calendar: Calendar)
      requires |calendar.ruleset.GetListOfSubsets()| > 0 ==> HasSpan(year)
      ensures CoversSubsets(year, calendar.ruleset.GetListOfSubsets())
      ensures forall s :: s in subsets ==> fresh(subsets[s])
      ensures forall s, t :: s in subsets && t in subsets && s != t ==> subsets[s] != subsets[t]
    {
      subsets := map[];
      new;
      var names := calendar.ruleset.GetListOfSubsets();
      for k := 0 to |names|
        invariant forall s :: s in subsets <==> s in names[..k]
        invariant forall s :: s in subsets ==> subsets[s].CoversYear(year) && fresh(subsets[s])
        invariant forall s, t :: s in subsets && t in subsets && s != t ==> subsets[s] != subsets[t]
      {
        var subset := new Subset(year, names[k]);
        subsets := subsets[names[k] := subset];
      }
      assert names[..|names|] == names;
    }
  }

  /** The calendar: a Year per configured year. */
  class Calendar {
    const ruleset: Ruleset
    const options: Options
    var years: map<int, Year>

    /** One entry per configured year and no other, each holding every subset of the rule set. */
    ghost predicate CoversYears()
      reads this, years.Values, set y, s | y in years && s in years[y].subsets.Values :: s
    {
      && (forall y :: y in years <==> y in options.years)
      && (forall y :: y in years ==> years[y].CoversSubsets(y, ruleset.GetListOfSubsets()))
    }

    constructor (ruleset: Ruleset, options: Options)
      requires |ruleset.GetListOfSubsets()| > 0 ==> forall y :: y in options.years ==> HasSpan(y)
      ensures this.ruleset == ruleset && this.options == options
      ensures CoversYears()
      ensures forall y :: y in years ==> fresh(years[y])
      ensures forall y, z :: y in years && z in years && y != z ==> years[y] != years[z]
      ensures forall y, s :: y in years && s in years[y].subsets ==> fresh(years[y].subsets[s])
      ensures forall y, s, t :: y in years && s in years[y].subsets && t in years[y].subsets && s != t ==>
        years[y].subsets[s] != years[y].subsets[t]
    {
      this.ruleset := ruleset;
      this.options := options;
      years := map[];
      new;
      for k := 0 to |options.years|
        invariant forall y :: y in years <==> y in options.years[..k]
        invariant forall y :: y in years ==> years[y].CoversSubsets(y, ruleset.GetListOfSubsets())
        invariant forall y :: y in years ==> fresh(years[y])
        invariant forall y, z :: y in years && z in years && y != z ==> years[y] != years[z]
        invariant forall y, s :: y in years && s in years[y].subsets ==> fresh(years[y].subsets[s])
        invariant forall y, s, t :: y in years && s in years[y].subsets && t in years[y].subsets && s != t ==>
          years[y].subsets[s] != years[y].subsets[t]
      {
        var year := options.years[k];
        var liturgicalYear := new Year(year, this);
        years := years[year := liturgicalYear];
      }
      assert options.years[..|options.years|] == options.years;
    }
  }
}
