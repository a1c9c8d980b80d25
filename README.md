# Liturgical calendar skeleton

A model of the part of the liturgical calendar generator that is actually
implemented in `ruleset.py`: the computation of the day on which a
liturgical year begins, and the construction of the calendar skeleton built
from it. A `Calendar` holds one `Year` per configured year; a `Year` holds
one `Subset` per subset (coordinaterules element) of the rule set; a
`Subset` holds one `Day` per date of its liturgical year, in the dictionary
`days_by_date`.

Dates are day ordinals of the proleptic Gregorian calendar, numbered the
way Python's `date.toordinal()` numbers them (0001-01-01 is day 1), so
adding a `timedelta` of n days is adding n. The weekday is that of
`date.weekday()`: Monday 0 through Sunday 6, `(ordinal + 6) % 7`.

Files:

- `dates.dfy` (module `Dates`): civil date to ordinal, leap years, weekdays,
  and the facts about them the rest needs (years and months tile the day
  line; the Sunday strictly before a day; how the weekday of a date moves
  from one year to the next).
- `library.dfy` (module `Library`): `first_day_of_liturgical_year` and what
  it guarantees: a Sunday, 29 to 35 days before the previous Christmas, on
  November 20 to 26 of the previous civil year; consecutive first days are
  364 or 371 days apart; no day lies in two liturgical years, and every day
  from late November of year 1 to late November of 9999 lies in exactly one.
- `ruleset.dfy` (module `Ruleset`): the classes `Ruleset`, `Day`, `Subset`,
  `Year` and `Calendar`, whose constructors fill their maps in loops, with
  object predicates (`CoversYear`, `CoversSubsets`, `CoversYears`) stating
  what each constructor leaves behind.

The function computes the Sunday *strictly* before Christmas (stepping back
`weekday() + 1` days, so a full week when Christmas is a Sunday) and then
four more weeks. The model follows the code: the result is one week before
the conventional First Sunday of Advent (2015-11-22 for liturgical year
2016, where the First Sunday of Advent is 2015-11-29).
`Library.ConfiguredYearsStart` pins the resulting dates down for the
configured years.

## Model

| member | source | states |
|---|---|---|
| `Dates.Ordinal` | ruleset.py:85 | The ordinal of a valid civil date lies within the ordinals of its own civil year. |
| `Dates.Weekday` | ruleset.py:86 | A weekday is a number from 0 (Monday) to 6 (Sunday). |
| `Dates.FirstOrdinalIsMonday` | ruleset.py:86 | 0001-01-01 is ordinal 1 and a Monday, fixing the weekday convention of `date.weekday()`. |
| `Dates.SundayStrictlyBefore` | ruleset.py:86-87 | Stepping back `weekday + 1` days reaches a Sunday 1 to 7 days earlier, exactly 7 when the start is a Sunday, with no Sunday in between. |
| `Dates.YearsTile` | ruleset.py:85 | Each civil year begins right after the previous one ends: days before year y + 1 are days before year y plus the length of y. |
| `Dates.ChristmasToChristmas` | ruleset.py:85 | From one Christmas to the next is 365 or 366 days, the length of the later civil year. |
| `Dates.WeekdayAdvance` | ruleset.py:86-87 | The Sundays before two days one year apart are 364 or 371 days apart, 371 exactly when the weekday wraps past Sunday. |
| `Library.FirstDayOfLiturgicalYear` | ruleset.py:81-90 | The first day of liturgical year Y is a Sunday 29 to 35 days before Christmas of Y - 1, exactly 35 when that Christmas is a Sunday. |
| `Library.FourWeeksBeforeLastSundayBeforeChristmas` | ruleset.py:85-89 | Four weeks after the first day comes a Sunday before Christmas of Y - 1, and no day between it and Christmas is a Sunday. |
| `Library.FirstDayInLateNovember` | ruleset.py:83-90 | The first day of liturgical year Y falls on November 20 to 26 of civil year Y - 1, hence at the end of Y - 1. |
| `Library.LiturgicalYearLength` | ruleset.py:56-58 | The next year's first day comes 364 or 371 days later, a whole number of weeks; 371 exactly when the Christmas weekday wraps around. |
| `Library.FirstDaysIncrease` | ruleset.py:56-57 | First days strictly increase with the year, by at least 364 days per year. |
| `Library.OneLiturgicalYearPerDay` | ruleset.py:56-57 | No day lies in the half-open ranges of two different liturgical years. |
| `Library.LiturgicalYearFrom` | ruleset.py:56-57 | A day at or after the first day of year `from` lies in the range of some year not earlier than `from`. |
| `Library.LiturgicalYearOf` | ruleset.py:56-57 | Every day from the first day of liturgical year 2 (late November of year 1) up to but excluding that of liturgical year 10000 (late November of 9999) lies in the range of exactly one liturgical year. |
| `Library.ConfiguredYearsStart` | ruleset.py:81-90 | Liturgical years 2013 to 2017 begin on 2012-11-25, 2013-11-24, 2014-11-23, 2015-11-22 and 2016-11-20. |
| `Ruleset.Ruleset.constructor` | ruleset.py:7-14 | The rule set's list of subsets is the list it was loaded with. |
| `Ruleset.Day.constructor` | ruleset.py:73-74 | A new day carries the date it was created for. |
| `Ruleset.Subset.constructor` | ruleset.py:55-62 | `days_by_date` holds exactly the dates from the first day of year Y up to but excluding that of Y + 1, each mapped to a new Day of that date, as many as the year has days. |
| `Ruleset.SubsetLength` | ruleset.py:56-60 | A subset's table has 364 or 371 days. |
| `Ruleset.SubsetsOfDifferentYearsDisjoint` | ruleset.py:56-62 | Tables built for different liturgical years share no date. |
| `Ruleset.ConsecutiveSubsetsAdjacent` | ruleset.py:56-62 | The tables of years Y and Y + 1 are disjoint and together hold exactly the days from the first day of Y to that of Y + 2. |
| `Ruleset.Year.constructor` | ruleset.py:43-46 | `subsets` has one entry per subset name of the rule set and no other, each a new Subset covering the year, distinct names holding distinct Subsets; with no subsets any year is accepted. |
| `Ruleset.Calendar.constructor` | ruleset.py:29-34 | `years` has one entry per configured year and no other, each a new Year holding every subset of the rule set, distinct years holding distinct Years and, within a year, distinct names holding distinct new Subsets. |

## Left out

- `Ruleset.__init__` (ruleset.py:7-10) parses an XML file; the model's `Ruleset` constructor takes the list of subsets that parsing would produce.
- Subsets are identified by name; the source keys its dictionaries by XML element objects, so two equal names standing for different elements are one key here.
- `get_list_of_liturgical_days` and `Subset.populate` are empty stubs, and `Year.populate` and `Calendar.populate` only delegate to them; they have no behaviour to model.
- The default values of `Options` (language, form, the years 2013 to 2016) and the `__main__` block, which reads the file and prints subset names, are configuration and output.
- Library.FirstDayOfLiturgicalYear: years for which `date(year - 1, 12, 25)` raises `ValueError` (year - 1 outside 1 to 9999) are excluded by the precondition `HasFirstDay` instead of being modelled as an error; `Subset` likewise requires its year to have both ends computable, and so do `Year` and `Calendar` when the rule set has at least one subset (with none, no first day is computed and any year is accepted, as in the source).
- Python `date` and `timedelta` objects are replaced by integer day ordinals; only their day arithmetic and weekday are modelled.
