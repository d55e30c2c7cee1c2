/** The sidebar filter: a year range and an optional country selection applied to the
    loaded rows. The code filters in two passes, years first and then countries when
    any are selected; `Select` is the single-predicate reference definition. */
module Filtering {
  import opened Options
  import opened Observations

  /** The user's filter choice: inclusive year bounds and the selected countries
      (an empty selection places no restriction on the country). */
  datatype FilterSpec = FilterSpec(lo: int, hi: int, countries: seq<string>)

  /** A year comparison against a missing year is false, as with NaN in pandas. */
  predicate InYearRange(o: Observation, lo: int, hi: int) {
    o.year.Some? && lo <= o.year.value <= hi
  }

  /** The row predicate the filter as a whole implements. */
  predicate Keep(spec: FilterSpec, o: Observation) {
    InYearRange(o, spec.lo, spec.hi) && (|spec.countries| == 0 || o.country in spec.countries)
  }

  /** Reference definition: the rows satisfying `Keep`, in input order. */
  function Select(rows: seq<Observation>, spec: FilterSpec): seq<Observation> {
    if |rows| == 0 then []
    else if Keep(spec, rows[0]) then [rows[0]] + Select(rows[1..], spec)
    else Select(rows[1..], spec)
  }

  /** `a` is `b` with some elements removed and the rest left in order. */
  ghost predicate IsSubsequence<T>(a: seq<T>, b: seq<T>)
    decreases |b|
  {
    if |a| == 0 then true
    else if |b| == 0 then false
    else (a[0] == b[0] && IsSubsequence(a[1..], b[1..])) || IsSubsequence(a, b[1..])
  }

  /** First pass: the rows whose year lies in the inclusive range `[lo, hi]`. */
  function FilterByYear(rows: seq<Observation>, lo: int, hi: int): (r: seq<Observation>)
    ensures |r| <= |rows|
    ensures forall o :: o in r <==> o in rows && InYearRange(o, lo, hi)
  {
    if |rows| == 0 then []
    else if InYearRange(rows[0], lo, hi) then [rows[0]] + FilterByYear(rows[1..], lo, hi)
    else FilterByYear(rows[1..], lo, hi)
  }

  /** Second pass: the rows whose country is among `countries`. */
  function FilterByCountry(rows: seq<Observation>, countries: seq<string>): (r: seq<Observation>)
    ensures |r| <= |rows|
    ensures forall o :: o in r <==> o in rows && o.country in countries
  {
    if |rows| == 0 then []
    else if rows[0].country in countries then [rows[0]] + FilterByCountry(rows[1..], countries)
    else FilterByCountry(rows[1..], countries)
  }

  /** The filter as the dashboard applies it. A row is kept exactly when its year is
      present and in range and, if any countries are selected, its country is one of them. */
  function ApplyFilter(rows: seq<Observation>, spec: FilterSpec): (r: seq<Observation>)
    ensures |r| <= |rows|
    ensures forall o :: o in r <==> o in rows && Keep(spec, o)
    ensures forall o :: o in r ==> o.year.Some?
  {
    var byYear := FilterByYear(rows, spec.lo, spec.hi);
    if |spec.countries| > 0 then FilterByCountry(byYear, spec.countries) else byYear
  }

  lemma {:induction false} YearThenCountryIsSelect(rows: seq<Observation>, spec: FilterSpec)
    requires |spec.countries| > 0
    ensures FilterByCountry(FilterByYear(rows, spec.lo, spec.hi), spec.countries) == Select(rows, spec)
  {
    if |rows| > 0 {
      YearThenCountryIsSelect(rows[1..], spec);
    }
  }

  lemma {:induction false} YearOnlyIsSelect(rows: seq<Observation>, spec: FilterSpec)
    requires |spec.countries| == 0
    ensures FilterByYear(rows, spec.lo, spec.hi) == Select(rows, spec)
  {
    if |rows| > 0 {
      YearOnlyIsSelect(rows[1..], spec);
    }
  }

  /** The two-pass filter computes the same sequence as the single-predicate reference. */
  lemma {:induction false} ApplyFilterIsSelect(rows: seq<Observation>, spec: FilterSpec)
    ensures ApplyFilter(rows, spec) == Select(rows, spec)
  {
    if |spec.countries| > 0 {
      YearThenCountryIsSelect(rows, spec);
    } else {
      YearOnlyIsSelect(rows, spec);
    }
  }

  lemma {:induction false} SelectIsSubsequence(rows: seq<Observation>, spec: FilterSpec)
    ensures IsSubsequence(Select(rows, spec), rows)
  {
    if |rows| > 0 {
      SelectIsSubsequence(rows[1..], spec);
      var rest := Select(rows[1..], spec);
      if Keep(spec, rows[0]) {
        assert ([rows[0]] + rest)[1..] == rest;
      }
    }
  }

  /** The filtered rows are the input rows with some removed and the order kept. */
  lemma FilterIsOrderPreservingSubsequence(rows: seq<Observation>, spec: FilterSpec)
    ensures IsSubsequence(ApplyFilter(rows, spec), rows)
  {
    ApplyFilterIsSelect(rows, spec);
    SelectIsSubsequence(rows, spec);
  }

  lemma {:induction false} SelectIdempotent(rows: seq<Observation>, spec: FilterSpec)
    ensures Select(Select(rows, spec), spec) == Select(rows, spec)
  {
    if |rows| > 0 {
      SelectIdempotent(rows[1..], spec);
      if Keep(spec, rows[0]) {
        assert ([rows[0]] + Select(rows[1..], spec))[1..] == Select(rows[1..], spec);
      }
    }
  }

  /** Applying the same filter twice gives what applying it once gives. */
  lemma FilterIdempotent(rows: seq<Observation>, spec: FilterSpec)
    ensures ApplyFilter(ApplyFilter(rows, spec), spec) == ApplyFilter(rows, spec)
  {
    ApplyFilterIsSelect(rows, spec);
    ApplyFilterIsSelect(ApplyFilter(rows, spec), spec);
    SelectIdempotent(rows, spec);
  }

  /** With no country selected, the result is exactly the year-range filter. */
  lemma EmptySelectionIsYearFilter(rows: seq<Observation>, lo: int, hi: int)
    ensures ApplyFilter(rows, FilterSpec(lo, hi, [])) == FilterByYear(rows, lo, hi)
  {
  }

  lemma {:induction false} SelectAllWhenEveryRowKept(rows: seq<Observation>, spec: FilterSpec)
    requires forall i :: 0 <= i < |rows| ==> Keep(spec, rows[i])
    ensures Select(rows, spec) == rows
  {
    if |rows| > 0 {
      SelectAllWhenEveryRowKept(rows[1..], spec);
      assert [rows[0]] + rows[1..] == rows;
    }
  }

  /** With no country selected and a year range covering every row's year, nothing is
      removed: the empty selection is no restriction at all. */
  lemma EmptySelectionKeepsAllInRange(rows: seq<Observation>, lo: int, hi: int)
    requires forall i :: 0 <= i < |rows| ==> InYearRange(rows[i], lo, hi)
    ensures ApplyFilter(rows, FilterSpec(lo, hi, [])) == rows
  {
    ApplyFilterIsSelect(rows, FilterSpec(lo, hi, []));
    SelectAllWhenEveryRowKept(rows, FilterSpec(lo, hi, []));
  }

  /** A row whose date did not parse is never kept, whatever the filter. */
  lemma MissingYearNeverKept(rows: seq<Observation>, spec: FilterSpec, o: Observation)
    requires o.year.None?
    ensures o !in ApplyFilter(rows, spec)
  {
  }

  /** A row loaded from a date that did not parse is never kept. */
  lemma UnparseableDateNeverKept(rows: seq<Observation>, spec: FilterSpec, country: string, values: seq<Option<real>>)
    ensures Derive(country, None, values) !in ApplyFilter(rows, spec)
  {
  }

  /** A non-empty selection can only remove rows from the year-filtered result. */
  lemma {:induction false} SelectionOnlyNarrows(rows: seq<Observation>, spec: FilterSpec)
    ensures IsSubsequence(ApplyFilter(rows, spec), FilterByYear(rows, spec.lo, spec.hi))
  {
    var byYear := FilterByYear(rows, spec.lo, spec.hi);
    if |spec.countries| > 0 {
      CountryFilterIsSubsequence(byYear, spec.countries);
    } else {
      SubsequenceReflexive(byYear);
    }
  }

  lemma {:induction false} CountryFilterIsSubsequence(rows: seq<Observation>, countries: seq<string>)
    ensures IsSubsequence(FilterByCountry(rows, countries), rows)
  {
    if |rows| > 0 {
      CountryFilterIsSubsequence(rows[1..], countries);
      var rest := FilterByCountry(rows[1..], countries);
      if rows[0].country in countries {
        assert ([rows[0]] + rest)[1..] == rest;
      }
    }
  }

  lemma {:induction false} SubsequenceReflexive<T>(s: seq<T>)
    ensures IsSubsequence(s, s)
  {
    if |s| > 0 {
      SubsequenceReflexive(s[1..]);
    }
  }
}
