/** One row of the climate table and the fields the loader derives from its date. */
module Observations {
  import opened Options

  /** A calendar month number, 1 for January through 12 for December. */
  type MonthNumber = m: int | 1 <= m <= 12 witness 1

  /** A date that parsed successfully. */
  datatype Date = Date(year: int, month: MonthNumber, day: int)

  /** The month abbreviations in calendar order, as `strftime("%b")` writes them. */
  const MonthAbbrevs: seq<string> :=
    ["Jan", "Feb", "Mar", "Apr", "May", "Jun", "Jul", "Aug", "Sep", "Oct", "Nov", "Dec"]

  /** An observation after loading: the date has become `year`, `month` and
      `monthName`, each missing when the date did not parse. `values` holds the six
      numeric measurements in column order, a missing cell being `None`. */
  datatype Observation = Observation(
    country: string,
    year: Option<int>,
    month: Option<int>,
    monthName: Option<string>,
    values: seq<Option<real>>)

  /** The abbreviation of month `m`. */
  function MonthName(m: MonthNumber): (name: string)
    ensures name in MonthAbbrevs
    ensures |name| == 3
  {
    MonthAbbrevs[m - 1]
  }

  /** Builds a row from its raw cells: a date that failed to parse leaves every
      derived field missing, a parsed date fills all three from the same date. */
  function Derive(country: string, date: Option<Date>, values: seq<Option<real>>): (o: Observation)
    ensures o.country == country && o.values == values
    ensures o.year.None? <==> date.None?
    ensures o.month.None? <==> date.None?
    ensures o.monthName.None? <==> date.None?
    ensures date.Some? ==> o.year == Some(date.value.year)
    ensures date.Some? ==> o.month == Some(date.value.month as int)
    ensures o.month.Some? ==> 1 <= o.month.value <= 12
    ensures o.monthName.Some? ==> o.monthName.value in MonthAbbrevs
  {
    match date
    case None => Observation(country, None, None, None, values)
    case Some(d) => Observation(country, Some(d.year), Some(d.month as int), Some(MonthName(d.month)), values)
  }

  /** No two months share an abbreviation, so a month name identifies its month. */
  lemma MonthNamesDistinct()
    ensures forall i, j :: 0 <= i < j < |MonthAbbrevs| ==> MonthAbbrevs[i] != MonthAbbrevs[j]
  {
  }

  /** The month name of a derived row is the name of its month number. */
  lemma DerivedMonthNameAgrees(country: string, date: Option<Date>, values: seq<Option<real>>)
    ensures var o := Derive(country, date, values);
      o.month.Some? <==> o.monthName.Some?
    ensures var o := Derive(country, date, values);
      o.month.Some? ==> 1 <= o.month.value <= 12 && o.monthName.value == MonthAbbrevs[o.month.value - 1]
  {
  }
}
