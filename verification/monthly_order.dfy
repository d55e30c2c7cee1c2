/** The monthly bar chart: the per-month means, keyed by month abbreviation, laid out
    in calendar order January to December. A month with no rows keeps its slot with an
    undefined (NaN) mean; a key that is not a month abbreviation is dropped. */
module MonthlyOrder {
  import opened Options
  import opened Observations

  /** The `reindex(monthly_order)` step. */
  function CalendarOrder(means: map<string, real>): (r: seq<Option<real>>)
    ensures |r| == |MonthAbbrevs|
    ensures forall k :: 0 <= k < |r| ==> (r[k].Some? <==> MonthAbbrevs[k] in means)
    ensures forall k :: 0 <= k < |r| && r[k].Some? ==> r[k].value == means[MonthAbbrevs[k]]
  {
    seq(|MonthAbbrevs|, k requires 0 <= k < |MonthAbbrevs| =>
      if MonthAbbrevs[k] in means then Some(means[MonthAbbrevs[k]]) else None)
  }

  function Lookup(means: map<string, real>, key: string): Option<real> {
    if key in means then Some(means[key]) else None
  }

  /** Month `m` occupies slot `m - 1` and carries the mean recorded under its name. */
  lemma MonthInItsSlot(means: map<string, real>, m: MonthNumber)
    ensures CalendarOrder(means)[m - 1] == Lookup(means, MonthName(m))
  {
  }

  /** When every key is a month abbreviation, which holds for the keys derived from
      parsed dates, no mean is lost: each appears in exactly one slot, the slot of its
      month. */
  lemma NoMeanLost(means: map<string, real>, key: string)
    requires forall k :: k in means ==> k in MonthAbbrevs
    requires key in means
    ensures exists k :: 0 <= k < 12 && MonthAbbrevs[k] == key && CalendarOrder(means)[k] == Some(means[key])
    ensures forall k, l :: 0 <= k < 12 && 0 <= l < 12 && MonthAbbrevs[k] == key && MonthAbbrevs[l] == key ==> k == l
  {
    var k :| 0 <= k < 12 && MonthAbbrevs[k] == key;
    assert CalendarOrder(means)[k] == Some(means[key]);
    MonthNamesDistinct();
  }
}
