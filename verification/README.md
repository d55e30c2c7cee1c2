# Climate dashboard: the pure rules behind the charts

The dashboard is a single Streamlit page over a climate table. Each row holds a country,
a date and six measurements: temperature, CO2 emissions, sea level rise, precipitation,
humidity and wind speed. Most of the page is rendering. This project models the small,
sequential rules that decide what the charts show, and proves their properties in Dafny:

- **Loading** (`Observations`): a row's year, month and month name come from its date.
  All three are missing when the date does not parse.
- **Filtering** (`Filtering`): the sidebar filter keeps a row when its year lies in the
  inclusive range. When any countries are selected, its country must also be one of them.
  The code filters in two passes. `Select` is a one-predicate reference definition, and
  the two are proved equal.
- **Normalisation** (`Normalization`): `(v - min) / (max - min + 1e-9)` over reals. It is
  applied to the yearly means, where a mean may be missing, and to the box-plot columns
  after their missing cells are dropped.
- **Correlation details** (`Correlation`): the nested loops enumerate every pair of
  distinct columns. Each pair's correlation gets a strength label, and the table is
  ordered by decreasing absolute correlation.
- **Country ranking** (`Ranking`): `nlargest(15)` and `nsmallest(15)` over the
  per-country averages.
- **Violin years** (`YearSampling`): the distinct years in increasing order. When there
  are more than six, every `max(1, n // 6)`-th year is kept.
- **Monthly chart** (`MonthlyOrder`): the per-month means reindexed Jan..Dec.

pandas writes a missing value as NaN. The model writes it as `Option.None`: an
unparseable date, an undefined correlation, or a group mean with no values. A comparison
against NaN is false in pandas, and the model follows that in every such place:

- a row with a missing year never passes the year test;
- an undefined correlation is labelled "Weak";
- an undefined average is still listed in the country charts, after every defined one
  and in row order, as pandas places NaN last.

Some values are taken as inputs because pandas computes them: the correlation matrix,
the per-country averages and the per-month means.

Where the code behaves differently from what its charts suggest, the model follows the code:

- Over exact reals, the normalised values lie in `[0, 1)`, not `[0, 1]`: the epsilon in
  the denominator keeps even the maximum below 1. In floating point a range wider than
  about 1.8e7 rounds the maximum to exactly 1.
- With more than 15 countries, `nlargest`/`nsmallest` break ties between equal averages
  with a stable sort, so the row that comes first in the group-by output wins. That
  output is sorted by country name, so "first" means alphabetically first. The model
  uses the same tie order when there are 15 countries or fewer (see "Left out").
- With 7 to 11 distinct years the sampling step is 1, so every year is kept.
  `UpToElevenYearsAllKept` proves this. With more than six years the sample holds
  between 6 and 11 years (`ThinnedSampleSize`), not at most 6.

## Model

| member | source | states |
|---|---|---|
| Observations.Derive | dashboard.py:222-225 | a date that fails to parse leaves the year, month and month name all missing; a parsed date gives its year, its month in 1..12 and that month's abbreviation |
| Observations.DerivedMonthNameAgrees | dashboard.py:224-225 | a derived row has a month exactly when it has a month name, and the name is the abbreviation of that month number |
| Filtering.FilterByYear | dashboard.py:320 | the year pass keeps a row iff its year is present and within the inclusive range, and never adds rows |
| Filtering.FilterByCountry | dashboard.py:322 | the country pass keeps a row iff its country is among the selected ones |
| Filtering.ApplyFilter | dashboard.py:320-322 | a row is in the result iff it is in the input, its year is present and in range, and either no country is selected or its country is selected; every kept row has a year |
| Filtering.ApplyFilterIsSelect | dashboard.py:320-322 | the two-pass filter equals the single-predicate reference filter, element for element and in order |
| Filtering.FilterIsOrderPreservingSubsequence | dashboard.py:320-322 | the filtered rows are a subsequence of the input: rows removed, order kept |
| Filtering.FilterIdempotent | dashboard.py:320-322 | applying the same filter to its own output changes nothing |
| Filtering.EmptySelectionKeepsAllInRange | dashboard.py:321-322 | with no country selected and every year in range, the filter returns the input unchanged |
| Filtering.EmptySelectionIsYearFilter | dashboard.py:321-322 | with no country selected, the filter returns exactly the year-range-filtered rows |
| Filtering.SelectionOnlyNarrows | dashboard.py:321-322 | selecting countries only removes rows from the year-filtered result, in order |
| Filtering.UnparseableDateNeverKept | dashboard.py:222-223 | a row loaded from an unparseable date is never in the filtered rows |
| Normalization.MinOf | dashboard.py:448 | the series minimum is at most every value and is one of them |
| Normalization.MaxOf | dashboard.py:448 | the series maximum is at least every value and is one of them |
| Normalization.Scale | dashboard.py:448 | a value within the series range scales into `[0, 1)`, and the minimum scales to 0 |
| Normalization.ScaleInverse | dashboard.py:448 | scaling is undone by `lo + x * (hi - lo + 1e-9)`, so no value is lost |
| Normalization.ScaleMonotone | dashboard.py:448 | scaling keeps and reflects the order of two values |
| Normalization.Normalize | dashboard.py:673 | one output per input, each in `[0, 1)`; every minimal value maps to 0; a constant series maps to all zeros, without dividing by zero |
| Normalization.NormalizePreservesOrder | dashboard.py:673 | `s[i] <= s[j]` iff their normalised values are in the same order |
| Normalization.NormalizeInvertible | dashboard.py:673 | each input value is recovered from its normalised value and the series minimum and maximum |
| Normalization.Present | dashboard.py:672 | the dropped-NaN column holds each present value exactly as often as it occurs among the cells |
| Normalization.PresentOfConcat | dashboard.py:672 | dropping missing cells works piecewise on concatenated columns, so the present values keep their cells' order |
| Normalization.NormalizeSeries | dashboard.py:447-448 | with missing yearly means, a missing value stays missing, a present one lands in `[0, 1)`, the length is kept; the smallest present mean maps to 0, and constant present means all map to 0, since the minimum and maximum skip missing cells |
| Normalization.NormalizeSeriesInvertible | dashboard.py:447-448 | each present yearly mean is recovered from its normalised value and the minimum and maximum of the present means |
| Normalization.NormalizeSeriesPreservesOrder | dashboard.py:447-448 | among present values, the order is kept and reflected |
| Normalization.NormalizeSeriesWithoutMissing | dashboard.py:447-448 | on a column with no missing value, the NaN-aware normalisation equals the plain one |
| Normalization.NormalizeColumn | dashboard.py:672-673 | one box-plot value per present cell, each in `[0, 1)`; the smallest present value maps to 0; a constant column maps to all zeros; no values when every cell is missing |
| Normalization.NormalizeColumnPreservesOrder | dashboard.py:672-673 | the box-plot values keep and reflect the order of the present cells |
| Correlation.StrengthOf | dashboard.py:518-519 | "Strong" iff abs(r) > 0.5, "Moderate" iff 0.3 < abs(r) <= 0.5, "Weak" iff abs(r) <= 0.3; an undefined correlation is "Weak" |
| Correlation.StrengthDependsOnlyOnAbs | dashboard.py:518-519 | correlations with equal absolute value, including r and -r, get the same label |
| Correlation.StrengthMonotone | dashboard.py:518-519 | a larger absolute correlation never gets a weaker label |
| Correlation.CorrelationPairs | dashboard.py:512-520 | the loops emit n(n-1)/2 rows in the reference pair order; the row for pair (i, j) names columns i and j, carries matrix entry (i, j) and that entry's label |
| Correlation.IndexPairsExactlyOnce | dashboard.py:512-513 | the enumeration has n(n-1)/2 entries; (i, j) occurs iff i < j < n; no pair occurs twice |
| Correlation.SixColumnsGiveFifteenPairs | dashboard.py:300-301 | the six numeric columns give 15 pairs |
| Correlation.SortByStrength | dashboard.py:521 | the ordered table is a permutation of the rows, in non-increasing absolute correlation, with undefined correlations last and in their input order |
| Correlation.InsertKeepsUndefinedOrder | dashboard.py:521 | inserting a row keeps the undefined rows in order, an inserted undefined row going in front of them |
| Correlation.UndefinedListedLast | dashboard.py:521 | after sorting, nothing with a defined correlation follows a row whose correlation is undefined |
| Ranking.Defined | dashboard.py:552 | exactly the countries with a defined average are rankable, listed in increasing row order |
| Ranking.ChartOrderFacts | dashboard.py:558 | the full chart order lists every row exactly once: rows with a defined average in rank order, then rows with an undefined average in row order |
| Ranking.RankIndices | dashboard.py:558 | min(n, #rows) rows in chart order (defined averages ranked first, ties by earlier row, then undefined averages in row order); every row left out is listed after every row shown; with at most n rows all are shown |
| Ranking.DistinctRowsSubMultiset | dashboard.py:558 | rows taken at distinct indices form a sub-multiset of the table: no country is shown twice |
| Ranking.NLargest | dashboard.py:558 | min(n, #countries) distinct input rows, no row more often than in the table; no undefined average precedes a defined one; the defined averages are non-increasing; no omitted country has a larger average than a shown one, and every shown one then has an average; with at most n countries all are shown |
| Ranking.NSmallest | dashboard.py:578 | min(n, #countries) distinct input rows, no row more often than in the table; no undefined average precedes a defined one; the defined averages are non-decreasing; no omitted country has a smaller average than a shown one, and every shown one then has an average; with at most n countries all are shown |
| Ranking.TopCountries | dashboard.py:558 | the top chart holds min(15, #countries) distinct rows of the table, and every country when there are at most 15 |
| Ranking.BottomCountries | dashboard.py:578 | the bottom chart holds min(15, #countries) distinct rows of the table, and every country when there are at most 15 |
| Ranking.SmallestIsLargestOfNegated | dashboard.py:578 | the bottom ranking equals the top ranking of the table with every average negated: the same rows, in the same order |
| YearSampling.SortedDistinct | dashboard.py:685 | the distinct years are strictly increasing and contain exactly the years that occur |
| YearSampling.Stride | dashboard.py:688 | the slice is no longer than its input and starts with its first element |
| YearSampling.StrideAt | dashboard.py:688 | the k-th element of `s[::step]` is `s[k * step]` |
| YearSampling.StrideLength | dashboard.py:688 | `s[::step]` has ceil(\|s\| / step) elements |
| YearSampling.SampleYears | dashboard.py:685-688 | at most six distinct years are returned unchanged; with more, the sample is the sorted distinct years sliced with step max(1, n // 6); every sampled year occurs in the data |
| YearSampling.ThinnedSampleAt | dashboard.py:686-688 | with more than six distinct years, the k-th sampled year is the sorted year at position k * max(1, n // 6) |
| YearSampling.SampleAscendingFromEarliest | dashboard.py:685-688 | the sample is strictly increasing, starts with the earliest year, and is non-empty when there is any year |
| YearSampling.ThinnedSampleSize | dashboard.py:686-688 | with more than six distinct years, between 6 and 11 are sampled |
| YearSampling.UpToElevenYearsAllKept | dashboard.py:686-688 | with 7 to 11 distinct years every year is sampled |
| MonthlyOrder.CalendarOrder | dashboard.py:460-462 | twelve slots in calendar order; slot k is defined iff month k has a mean, and then holds that mean |
| MonthlyOrder.MonthInItsSlot | dashboard.py:460-462 | month m's mean, or its absence, is in slot m - 1 |
| MonthlyOrder.NoMeanLost | dashboard.py:460-462 | when every key is a month abbreviation, each mean appears in exactly one slot, its month's |

## Left out

- Page configuration, CSS, sidebar widgets, tabs and metric-card HTML: user interface only.
- Reading the CSV, the remote dataset download, the local copy and the halt on failure: I/O and a network client. Only the date-parsing outcome is modelled (`Observations.Derive`). The date parser itself is an input: a cell either parses to a date or is missing.
- Plotly figures, the layout helper, the linear trendline and the kernel density estimate: rendering and floating-point numerics inside external libraries.
- The Pearson correlation matrix and the `describe()` summary: floating-point statistics computed by pandas. The matrix is an input to `Correlation.CorrelationPairs`.
- The group-by means, per year, per month and per country: floating-point means computed by pandas. They are inputs to the normalisation, the monthly reindex and the ranking.
- The radar-chart normalisation against the column minimum and maximum: a further use of the same formula on country means, left out together with the radar chart.
- Ridge regression, feature scaling, the train/test split, MAE and RMSE: library internals, a random split and floating-point numerics. The reported R² is a constant in the code, not a computed metric.
- The random scatter sample and the CSV export: library randomness and serialisation.
- Floating point: all arithmetic is over exact reals. Rounding in the normalisation is not modelled, and neither is NaN arising inside a computation.
- Correlation.SortByStrength: pandas' default sort is not stable, so the order among rows with equal defined absolute correlation is not fixed; the model proves the ordering and permutation properties and chooses one tie order there. Rows whose correlation is undefined are not affected: they come last in their input order, as pandas places them, and the model proves that order.
- Ranking.RankIndices: with 15 countries or fewer, pandas sorts with its default sort, which is not stable, so the order among equal averages is not fixed there. The model always lists the earlier row first, which is the order the stable sort gives for more than 15 countries.
