/** The country comparison bars: the per-country averages of the selected variable,
    and the first 15 of `nlargest` or of `nsmallest`. The averages are given in the
    order the group-by produced them. pandas documents both as `sort_values(...).head(n)`
    with NaN placed last, so a country whose average is undefined is still listed, after
    every country with a defined average and in row order. Among equal averages the
    model lists the earlier row first. */
module Ranking {
  import opened Options

  /** How many countries each bar chart shows. */
  const ChartSize: nat := 15

  /** One row of the per-country averages table. */
  datatype CountryAverage = CountryAverage(country: string, average: Option<real>)

  function Min(a: nat, b: nat): nat {
    if a <= b then a else b
  }

  /** Row `i` exists and has a defined average. */
  predicate Ranked(avgs: seq<CountryAverage>, i: nat) {
    i < |avgs| && avgs[i].average.Some?
  }

  /** Row `i` is listed before row `j`: a larger average first when `largest`, a smaller
      one first otherwise, and between equal averages the earlier row first. */
  predicate Ahead(avgs: seq<CountryAverage>, largest: bool, i: nat, j: nat) {
    && Ranked(avgs, i) && Ranked(avgs, j)
    && var vi, vj := avgs[i].average.value, avgs[j].average.value;
       if largest then vi > vj || (vi == vj && i < j)
       else vi < vj || (vi == vj && i < j)
  }

  predicate InRankOrder(avgs: seq<CountryAverage>, largest: bool, s: seq<nat>) {
    forall a, b :: 0 <= a < b < |s| ==> Ahead(avgs, largest, s[a], s[b])
  }

  /** The indices from `k` on of the rows with a defined average, in increasing order. */
  function DefinedFrom(avgs: seq<CountryAverage>, k: nat): (d: seq<nat>)
    ensures forall i :: i in d <==> k <= i && Ranked(avgs, i)
    ensures forall a :: 0 <= a < |d| ==> k <= d[a]
    ensures forall a, b :: 0 <= a < b < |d| ==> d[a] < d[b]
    decreases |avgs| - k
  {
    if k >= |avgs| then []
    else if avgs[k].average.Some? then [k] + DefinedFrom(avgs, k + 1)
    else DefinedFrom(avgs, k + 1)
  }

  /** The indices of the rows with a defined average, in increasing order. */
  function Defined(avgs: seq<CountryAverage>): (d: seq<nat>)
    ensures forall i :: i in d <==> Ranked(avgs, i)
    ensures forall a, b :: 0 <= a < b < |d| ==> d[a] < d[b]
  {
    DefinedFrom(avgs, 0)
  }

  /** The indices from `k` on of the rows whose average is undefined, in increasing order. */
  function UndefinedFrom(avgs: seq<CountryAverage>, k: nat): (u: seq<nat>)
    ensures forall i :: i in u <==> k <= i < |avgs| && avgs[i].average.None?
    ensures forall a :: 0 <= a < |u| ==> k <= u[a]
    ensures forall a, b :: 0 <= a < b < |u| ==> u[a] < u[b]
    decreases |avgs| - k
  {
    if k >= |avgs| then []
    else if avgs[k].average.None? then [k] + UndefinedFrom(avgs, k + 1)
    else UndefinedFrom(avgs, k + 1)
  }

  /** Every row from `k` on is either rankable or undefined, and not both. */
  lemma {:induction false} SplitCount(avgs: seq<CountryAverage>, k: nat)
    requires k <= |avgs|
    ensures |DefinedFrom(avgs, k)| + |UndefinedFrom(avgs, k)| == |avgs| - k
    decreases |avgs| - k
  {
    if k < |avgs| {
      SplitCount(avgs, k + 1);
    }
  }

  lemma AheadTransitive(avgs: seq<CountryAverage>, largest: bool, i: nat, j: nat, k: nat)
    requires Ahead(avgs, largest, i, j) && Ahead(avgs, largest, j, k)
    ensures Ahead(avgs, largest, i, k)
  {
  }

  /** Any two distinct rankable rows are ordered one way or the other. */
  lemma AheadTotal(avgs: seq<CountryAverage>, largest: bool, i: nat, j: nat)
    requires Ranked(avgs, i) && Ranked(avgs, j) && i != j
    ensures Ahead(avgs, largest, i, j) != Ahead(avgs, largest, j, i)
  {
  }

  /** A row ahead of every row of a list in rank order may be put in front of it. */
  lemma PrependInOrder(avgs: seq<CountryAverage>, largest: bool, x: nat, s: seq<nat>)
    requires InRankOrder(avgs, largest, s)
    requires forall k :: 0 <= k < |s| ==> Ahead(avgs, largest, x, s[k])
    ensures InRankOrder(avgs, largest, [x] + s)
  {
    var r := [x] + s;
    forall a, b | 0 <= a < b < |r|
      ensures Ahead(avgs, largest, r[a], r[b])
    {
      assert r[b] == s[b - 1];
      if a > 0 {
        assert r[a] == s[a - 1];
      }
    }
  }

  /** A row ahead of the head of a list in rank order is ahead of all of it. */
  lemma AheadOfHead(avgs: seq<CountryAverage>, largest: bool, x: nat, s: seq<nat>)
    requires InRankOrder(avgs, largest, s) && |s| > 0
    requires Ahead(avgs, largest, x, s[0])
    ensures forall k :: 0 <= k < |s| ==> Ahead(avgs, largest, x, s[k])
  {
    forall k | 0 < k < |s|
      ensures Ahead(avgs, largest, x, s[k])
    {
      AheadTransitive(avgs, largest, x, s[0], s[k]);
    }
  }

  /** The tail of a list of rankable rows in rank order is one too. */
  lemma TailInOrder(avgs: seq<CountryAverage>, largest: bool, s: seq<nat>)
    requires |s| > 0 && InRankOrder(avgs, largest, s)
    requires forall k :: 0 <= k < |s| ==> Ranked(avgs, s[k])
    ensures InRankOrder(avgs, largest, s[1..])
    ensures forall k :: 0 <= k < |s| - 1 ==> Ranked(avgs, s[1..][k])
    ensures forall k :: 0 <= k < |s| - 1 ==> Ahead(avgs, largest, s[0], s[1..][k])
  {
    var tail := s[1..];
    assert forall k :: 0 <= k < |tail| ==> tail[k] == s[k + 1];
  }

  /** Putting the head back in front of the tail with `x` inserted keeps rank order,
      when the head is ahead of `x`. */
  lemma HeadBeforeInserted(avgs: seq<CountryAverage>, largest: bool, x: nat, s: seq<nat>, rest: seq<nat>)
    requires |s| > 0
    requires forall k :: 0 <= k < |s| - 1 ==> Ahead(avgs, largest, s[0], s[1..][k])
    requires Ahead(avgs, largest, s[0], x)
    requires multiset(rest) == multiset(s[1..]) + multiset{x}
    requires InRankOrder(avgs, largest, rest)
    ensures InRankOrder(avgs, largest, [s[0]] + rest)
  {
    var tail := s[1..];
    forall k | 0 <= k < |rest|
      ensures Ahead(avgs, largest, s[0], rest[k])
    {
      assert rest[k] in multiset(rest);
      if rest[k] != x {
        assert rest[k] in multiset(tail);
        var q :| 0 <= q < |tail| && tail[q] == rest[k];
      }
    }
    PrependInOrder(avgs, largest, s[0], rest);
  }

  function Insert(avgs: seq<CountryAverage>, largest: bool, x: nat, s: seq<nat>): (r: seq<nat>)
    requires Ranked(avgs, x) && x !in s
    requires forall k :: 0 <= k < |s| ==> Ranked(avgs, s[k])
    requires InRankOrder(avgs, largest, s)
    ensures InRankOrder(avgs, largest, r)
    ensures multiset(r) == multiset(s) + multiset{x}
    ensures forall k :: 0 <= k < |r| ==> Ranked(avgs, r[k])
  {
    if |s| == 0 then [x]
    else if Ahead(avgs, largest, x, s[0]) then
      AheadOfHead(avgs, largest, x, s);
      PrependInOrder(avgs, largest, x, s);
      [x] + s
    else
      assert s == [s[0]] + s[1..];
      AheadTotal(avgs, largest, x, s[0]);
      TailInOrder(avgs, largest, s);
      var rest := Insert(avgs, largest, x, s[1..]);
      HeadBeforeInserted(avgs, largest, x, s, rest);
      [s[0]] + rest
  }

  /** Insertion sort of distinct rankable row indices into rank order. */
  function Sort(avgs: seq<CountryAverage>, largest: bool, s: seq<nat>): (r: seq<nat>)
    requires forall k :: 0 <= k < |s| ==> Ranked(avgs, s[k])
    requires forall a, b :: 0 <= a < b < |s| ==> s[a] != s[b]
    ensures InRankOrder(avgs, largest, r)
    ensures multiset(r) == multiset(s)
    ensures forall k :: 0 <= k < |r| ==> Ranked(avgs, r[k])
  {
    if |s| == 0 then []
    else
      var rest := Sort(avgs, largest, s[1..]);
      assert s == [s[0]] + s[1..];
      assert s[0] !in multiset(s[1..]);
      Insert(avgs, largest, s[0], rest)
  }

  /** Row `i` is listed before row `j` in a chart: the rankable rows in rank order, then
      the rows whose average is undefined, in row order (pandas' `na_position='last'`). */
  predicate Before(avgs: seq<CountryAverage>, largest: bool, i: nat, j: nat) {
    && i < |avgs| && j < |avgs|
    && if Ranked(avgs, i) && Ranked(avgs, j) then Ahead(avgs, largest, i, j)
       else if Ranked(avgs, i) || Ranked(avgs, j) then Ranked(avgs, i)
       else i < j
  }

  predicate InChartOrder(avgs: seq<CountryAverage>, largest: bool, s: seq<nat>) {
    forall a, b :: 0 <= a < b < |s| ==> Before(avgs, largest, s[a], s[b])
  }

  lemma SameMultisetSameLength(a: seq<nat>, b: seq<nat>)
    requires multiset(a) == multiset(b)
    ensures |a| == |b|
  {
    assert |multiset(a)| == |a| && |multiset(b)| == |b|;
  }

  /** The rankable rows in rank order followed by the undefined rows in row order are
      in chart order. */
  lemma ConcatInChartOrder(avgs: seq<CountryAverage>, largest: bool, sorted: seq<nat>, u: seq<nat>)
    requires InRankOrder(avgs, largest, sorted)
    requires forall k :: 0 <= k < |sorted| ==> Ranked(avgs, sorted[k])
    requires forall k :: 0 <= k < |u| ==> u[k] < |avgs| && !Ranked(avgs, u[k])
    requires forall a, b :: 0 <= a < b < |u| ==> u[a] < u[b]
    ensures InChartOrder(avgs, largest, sorted + u)
  {
    var order := sorted + u;
    forall a, b | 0 <= a < b < |order|
      ensures Before(avgs, largest, order[a], order[b])
    {
      if b < |sorted| {
        assert order[a] == sorted[a] && order[b] == sorted[b];
      } else if a < |sorted| {
        assert order[a] == sorted[a] && order[b] == u[b - |sorted|];
      } else {
        assert order[a] == u[a - |sorted|] && order[b] == u[b - |sorted|];
      }
    }
  }

  /** Every row index, in chart order: the rankable rows sorted, then the undefined ones. */
  function ChartOrder(avgs: seq<CountryAverage>, largest: bool): seq<nat> {
    Sort(avgs, largest, Defined(avgs)) + UndefinedFrom(avgs, 0)
  }

  /** The chart order lists every row exactly once, in chart order. */
  lemma ChartOrderFacts(avgs: seq<CountryAverage>, largest: bool)
    ensures |ChartOrder(avgs, largest)| == |avgs|
    ensures forall i :: i in ChartOrder(avgs, largest) <==> 0 <= i < |avgs|
    ensures InChartOrder(avgs, largest, ChartOrder(avgs, largest))
  {
    var d := Defined(avgs);
    var sorted := Sort(avgs, largest, d);
    var u := UndefinedFrom(avgs, 0);
    SameMultisetSameLength(sorted, d);
    SplitCount(avgs, 0);
    UndefinedRows(avgs);
    ConcatInChartOrder(avgs, largest, sorted, u);
    SortedHoldsDefined(avgs, largest, sorted);
    assert ChartOrder(avgs, largest) == sorted + u;
    forall i
      ensures i in sorted + u <==> 0 <= i < |avgs|
    {
      if 0 <= i < |avgs| && avgs[i].average.Some? {
        assert i in sorted;
      } else if 0 <= i < |avgs| {
        assert i in u;
      }
    }
  }

  lemma UndefinedRows(avgs: seq<CountryAverage>)
    ensures forall k :: 0 <= k < |UndefinedFrom(avgs, 0)| ==>
      UndefinedFrom(avgs, 0)[k] < |avgs| && !Ranked(avgs, UndefinedFrom(avgs, 0)[k])
  {
    var u := UndefinedFrom(avgs, 0);
    forall k | 0 <= k < |u|
      ensures u[k] < |avgs| && !Ranked(avgs, u[k])
    {
      assert u[k] in u;
    }
  }

  /** The sorted rankable rows are exactly the rankable rows. */
  lemma SortedHoldsDefined(avgs: seq<CountryAverage>, largest: bool, sorted: seq<nat>)
    requires multiset(sorted) == multiset(Defined(avgs))
    ensures forall i :: i in sorted <==> Ranked(avgs, i)
  {
    forall i
      ensures i in sorted <==> Ranked(avgs, i)
    {
      assert i in sorted <==> i in multiset(sorted);
      assert i in Defined(avgs) <==> i in multiset(Defined(avgs));
    }
  }

  /** The first `m` rows of a list of every row in chart order. */
  lemma PrefixOfChartOrder(avgs: seq<CountryAverage>, largest: bool, order: seq<nat>, m: nat)
    requires |order| == |avgs| && m <= |order|
    requires forall i :: i in order <==> 0 <= i < |avgs|
    requires InChartOrder(avgs, largest, order)
    ensures forall k :: 0 <= k < m ==> order[..m][k] < |avgs|
    ensures InChartOrder(avgs, largest, order[..m])
    ensures forall j, k :: 0 <= j < |avgs| && j !in order[..m] && 0 <= k < m ==> Before(avgs, largest, order[..m][k], j)
    ensures m == |order| ==> forall j :: 0 <= j < |avgs| ==> j in order[..m]
  {
    var ix := order[..m];
    forall k | 0 <= k < m
      ensures ix[k] == order[k] && ix[k] < |avgs|
    {
      assert order[k] in order;
    }
    assert m == |order| ==> ix == order;
    forall j, k | 0 <= j < |avgs| && j !in ix && 0 <= k < m
      ensures Before(avgs, largest, ix[k], j)
    {
      OmittedListedBehind(avgs, largest, order, m, j, k);
    }
  }

  /** In a list in chart order, an element past the first `m` is listed after each of them. */
  lemma OmittedListedBehind(avgs: seq<CountryAverage>, largest: bool, order: seq<nat>, m: nat, j: nat, k: nat)
    requires InChartOrder(avgs, largest, order)
    requires k < m <= |order| && j in order && j !in order[..m]
    ensures Before(avgs, largest, order[k], j)
  {
    var p :| 0 <= p < |order| && order[p] == j;
    assert forall q :: 0 <= q < m ==> order[..m][q] == order[q];
    assert k < p;
  }

  /** The row indices shown in a chart of at most `n` countries: as many as there are
      rows, up to `n`, in chart order, and every row left out is listed after every row
      shown. With no more rows than `n`, every row is shown. */
  function RankIndices(avgs: seq<CountryAverage>, largest: bool, n: nat): (ix: seq<nat>)
    ensures |ix| == Min(n, |avgs|)
    ensures forall k :: 0 <= k < |ix| ==> ix[k] < |avgs|
    ensures InChartOrder(avgs, largest, ix)
    ensures forall a, b :: 0 <= a < b < |ix| ==> ix[a] != ix[b]
    ensures forall j, k :: 0 <= j < |avgs| && j !in ix && 0 <= k < |ix| ==> Before(avgs, largest, ix[k], j)
    ensures |avgs| <= n ==> forall j :: 0 <= j < |avgs| ==> j in ix
  {
    var order := ChartOrder(avgs, largest);
    ChartOrderFacts(avgs, largest);
    PrefixOfChartOrder(avgs, largest, order, Min(n, |order|));
    order[..Min(n, |order|)]
  }

  function Rows(avgs: seq<CountryAverage>, ix: seq<nat>): (r: seq<CountryAverage>)
    requires forall k :: 0 <= k < |ix| ==> ix[k] < |avgs|
    ensures |r| == |ix|
    ensures forall k :: 0 <= k < |ix| ==> r[k] == avgs[ix[k]]
  {
    seq(|ix|, k requires 0 <= k < |ix| => avgs[ix[k]])
  }

  lemma RowsOfConcat(avgs: seq<CountryAverage>, a: seq<nat>, b: seq<nat>)
    requires forall k :: 0 <= k < |a| ==> a[k] < |avgs|
    requires forall k :: 0 <= k < |b| ==> b[k] < |avgs|
    ensures forall k :: 0 <= k < |a + b| ==> (a + b)[k] < |avgs|
    ensures Rows(avgs, a + b) == Rows(avgs, a) + Rows(avgs, b)
  {
  }

  /** Rows taken by indices below `m` are the same in the table and in its first `m` rows. */
  lemma RowsOfPrefix(avgs: seq<CountryAverage>, m: nat, ix: seq<nat>)
    requires m <= |avgs|
    requires forall k :: 0 <= k < |ix| ==> ix[k] < m
    ensures Rows(avgs[..m], ix) == Rows(avgs, ix)
  {
  }

  /** Taking index `p` out of a list of distinct indices takes one copy of its row out
      of the rows. */
  lemma RemoveIndex(avgs: seq<CountryAverage>, ix: seq<nat>, p: nat)
    requires p < |ix|
    requires forall k :: 0 <= k < |ix| ==> ix[k] < |avgs|
    requires forall a, b :: 0 <= a < b < |ix| ==> ix[a] != ix[b]
    ensures var rest := ix[..p] + ix[p + 1..];
      && (forall k :: 0 <= k < |rest| ==> rest[k] < |avgs| && rest[k] != ix[p])
      && (forall a, b :: 0 <= a < b < |rest| ==> rest[a] != rest[b])
      && multiset(Rows(avgs, ix)) == multiset(Rows(avgs, rest)) + multiset{avgs[ix[p]]}
  {
    var before, after := ix[..p], ix[p + 1..];
    var rest := before + after;
    assert ix == before + [ix[p]] + after;
    forall k | 0 <= k < |rest|
      ensures rest[k] == ix[if k < p then k else k + 1]
    {
    }
    RowsOfConcat(avgs, before, [ix[p]]);
    RowsOfConcat(avgs, before + [ix[p]], after);
    RowsOfConcat(avgs, before, after);
    assert Rows(avgs, [ix[p]]) == [avgs[ix[p]]];
  }

  /** Rows taken at distinct indices are a sub-multiset of the table: no row is shown
      more often than it occurs. */
  lemma {:induction false} DistinctRowsSubMultiset(avgs: seq<CountryAverage>, ix: seq<nat>)
    requires forall k :: 0 <= k < |ix| ==> ix[k] < |avgs|
    requires forall a, b :: 0 <= a < b < |ix| ==> ix[a] != ix[b]
    ensures multiset(Rows(avgs, ix)) <= multiset(avgs)
    decreases |avgs|
  {
    if |ix| > 0 {
      assert ix[0] < |avgs|;
      var m := |avgs| - 1;
      var init := avgs[..m];
      assert avgs == init + [avgs[m]];
      if p :| 0 <= p < |ix| && ix[p] == m {
        RemoveIndex(avgs, ix, p);
        var rest := ix[..p] + ix[p + 1..];
        RowsOfPrefix(avgs, m, rest);
        DistinctRowsSubMultiset(init, rest);
      } else {
        forall k | 0 <= k < |ix|
          ensures ix[k] < m
        {
        }
        RowsOfPrefix(avgs, m, ix);
        DistinctRowsSubMultiset(init, ix);
      }
    }
  }

  /** A row with a defined average that is not shown ranks behind every row shown, and
      so every row shown has a defined average. */
  lemma OmittedRowBehind(avgs: seq<CountryAverage>, largest: bool, n: nat, e: CountryAverage, k: nat)
    requires e in avgs && e.average.Some?
    requires e !in Rows(avgs, RankIndices(avgs, largest, n))
    requires k < |RankIndices(avgs, largest, n)|
    ensures var r := Rows(avgs, RankIndices(avgs, largest, n));
      && r[k].average.Some?
      && if largest then e.average.value <= r[k].average.value
         else e.average.value >= r[k].average.value
  {
    var ix := RankIndices(avgs, largest, n);
    var r := Rows(avgs, ix);
    var j :| 0 <= j < |avgs| && avgs[j] == e;
    assert forall p :: 0 <= p < |ix| ==> r[p] == avgs[ix[p]];
    assert j !in ix;
    assert Before(avgs, largest, ix[k], j);
  }

  /** The rows shown hold every row when there are at most `n`. */
  lemma AllRowsShown(avgs: seq<CountryAverage>, largest: bool, n: nat, e: CountryAverage)
    requires |avgs| <= n && e in avgs
    ensures e in Rows(avgs, RankIndices(avgs, largest, n))
  {
    var ix := RankIndices(avgs, largest, n);
    var j :| 0 <= j < |avgs| && avgs[j] == e;
    assert j in ix;
    var p :| 0 <= p < |ix| && ix[p] == j;
    assert Rows(avgs, ix)[p] == e;
  }

  /** Read back as rows, a list in chart order has the defined averages first, in
      non-increasing (`largest`) or non-decreasing order. */
  lemma RowsInChartOrder(avgs: seq<CountryAverage>, largest: bool, ix: seq<nat>, a: nat, b: nat)
    requires forall k :: 0 <= k < |ix| ==> ix[k] < |avgs|
    requires InChartOrder(avgs, largest, ix)
    requires a < b < |ix| && Rows(avgs, ix)[b].average.Some?
    ensures var r := Rows(avgs, ix);
      && r[a].average.Some?
      && if largest then r[a].average.value >= r[b].average.value
         else r[a].average.value <= r[b].average.value
  {
    assert Before(avgs, largest, ix[a], ix[b]);
  }

  /** `nlargest(n, "Average")`: up to `n` countries, those with a defined average first,
      largest first; no country left out has a larger average than one shown. */
  function NLargest(avgs: seq<CountryAverage>, n: nat): (r: seq<CountryAverage>)
    ensures |r| == Min(n, |avgs|)
    ensures forall k :: 0 <= k < |r| ==> r[k] in avgs
    ensures multiset(r) <= multiset(avgs)
    ensures |avgs| <= n ==> forall e :: e in avgs ==> e in r
    ensures forall a, b :: 0 <= a < b < |r| && r[b].average.Some? ==> r[a].average.Some?
    ensures forall a, b :: 0 <= a < b < |r| && r[b].average.Some? ==>
              r[a].average.value >= r[b].average.value
    ensures forall e, k :: e in avgs && e.average.Some? && e !in r && 0 <= k < |r| ==>
              r[k].average.Some? && e.average.value <= r[k].average.value
  {
    var ix := RankIndices(avgs, true, n);
    var r := Rows(avgs, ix);
    DistinctRowsSubMultiset(avgs, ix);
    forall a, b | 0 <= a < b < |r| && r[b].average.Some?
      ensures r[a].average.Some? && r[a].average.value >= r[b].average.value
    {
      RowsInChartOrder(avgs, true, ix, a, b);
    }
    forall e | |avgs| <= n && e in avgs
      ensures e in r
    {
      AllRowsShown(avgs, true, n, e);
    }
    forall e, k | e in avgs && e.average.Some? && e !in r && 0 <= k < |r|
      ensures r[k].average.Some? && e.average.value <= r[k].average.value
    {
      OmittedRowBehind(avgs, true, n, e, k);
    }
    r
  }

  /** `nsmallest(n, "Average")`: up to `n` countries, those with a defined average first,
      smallest first; no country left out has a smaller average than one shown. */
  function NSmallest(avgs: seq<CountryAverage>, n: nat): (r: seq<CountryAverage>)
    ensures |r| == Min(n, |avgs|)
    ensures forall k :: 0 <= k < |r| ==> r[k] in avgs
    ensures multiset(r) <= multiset(avgs)
    ensures |avgs| <= n ==> forall e :: e in avgs ==> e in r
    ensures forall a, b :: 0 <= a < b < |r| && r[b].average.Some? ==> r[a].average.Some?
    ensures forall a, b :: 0 <= a < b < |r| && r[b].average.Some? ==>
              r[a].average.value <= r[b].average.value
    ensures forall e, k :: e in avgs && e.average.Some? && e !in r && 0 <= k < |r| ==>
              r[k].average.Some? && e.average.value >= r[k].average.value
  {
    var ix := RankIndices(avgs, false, n);
    var r := Rows(avgs, ix);
    DistinctRowsSubMultiset(avgs, ix);
    forall a, b | 0 <= a < b < |r| && r[b].average.Some?
      ensures r[a].average.Some? && r[a].average.value <= r[b].average.value
    {
      RowsInChartOrder(avgs, false, ix, a, b);
    }
    forall e | |avgs| <= n && e in avgs
      ensures e in r
    {
      AllRowsShown(avgs, false, n, e);
    }
    forall e, k | e in avgs && e.average.Some? && e !in r && 0 <= k < |r|
      ensures r[k].average.Some? && e.average.value >= r[k].average.value
    {
      OmittedRowBehind(avgs, false, n, e, k);
    }
    r
  }

  /** The two bar charts of the country tab: fifteen distinct rows of the table, or all
      of them when there are fewer. */
  function TopCountries(avgs: seq<CountryAverage>): (r: seq<CountryAverage>)
    ensures |r| == Min(ChartSize, |avgs|)
    ensures forall k :: 0 <= k < |r| ==> r[k] in avgs
    ensures multiset(r) <= multiset(avgs)
    ensures |avgs| <= ChartSize ==> forall e :: e in avgs ==> e in r
  {
    NLargest(avgs, ChartSize)
  }

  function BottomCountries(avgs: seq<CountryAverage>): (r: seq<CountryAverage>)
    ensures |r| == Min(ChartSize, |avgs|)
    ensures forall k :: 0 <= k < |r| ==> r[k] in avgs
    ensures multiset(r) <= multiset(avgs)
    ensures |avgs| <= ChartSize ==> forall e :: e in avgs ==> e in r
  {
    NSmallest(avgs, ChartSize)
  }

  // ---------------------------------------------------------------------------
  // The smallest averages are the largest averages of the negated table

  function Negate(avgs: seq<CountryAverage>): (neg: seq<CountryAverage>)
    ensures |neg| == |avgs|
    ensures forall i :: 0 <= i < |avgs| ==> neg[i].country == avgs[i].country
    ensures forall i :: 0 <= i < |avgs| ==>
      neg[i].average == (match avgs[i].average case None => None case Some(v) => Some(-v))
  {
    seq(|avgs|, i requires 0 <= i < |avgs| =>
      CountryAverage(avgs[i].country, match avgs[i].average case None => None case Some(v) => Some(-v)))
  }

  lemma {:induction false} DefinedFromOfNegate(avgs: seq<CountryAverage>, k: nat)
    ensures DefinedFrom(Negate(avgs), k) == DefinedFrom(avgs, k)
    ensures UndefinedFrom(Negate(avgs), k) == UndefinedFrom(avgs, k)
    decreases |avgs| - k
  {
    if k < |avgs| {
      DefinedFromOfNegate(avgs, k + 1);
    }
  }

  lemma {:induction false} InsertOfNegate(avgs: seq<CountryAverage>, x: nat, s: seq<nat>)
    requires Ranked(avgs, x) && x !in s
    requires forall k :: 0 <= k < |s| ==> Ranked(avgs, s[k])
    requires InRankOrder(avgs, false, s)
    ensures Ranked(Negate(avgs), x) && forall k :: 0 <= k < |s| ==> Ranked(Negate(avgs), s[k])
    ensures InRankOrder(Negate(avgs), true, s)
    ensures Insert(Negate(avgs), true, x, s) == Insert(avgs, false, x, s)
  {
    var neg := Negate(avgs);
    assert forall i, j :: Ahead(neg, true, i, j) == Ahead(avgs, false, i, j);
    if |s| > 0 && !Ahead(avgs, false, x, s[0]) {
      InsertOfNegate(avgs, x, s[1..]);
    }
  }

  lemma {:induction false} SortOfNegate(avgs: seq<CountryAverage>, s: seq<nat>)
    requires forall k :: 0 <= k < |s| ==> Ranked(avgs, s[k])
    requires forall a, b :: 0 <= a < b < |s| ==> s[a] != s[b]
    ensures forall k :: 0 <= k < |s| ==> Ranked(Negate(avgs), s[k])
    ensures Sort(Negate(avgs), true, s) == Sort(avgs, false, s)
  {
    if |s| > 0 {
      SortOfNegate(avgs, s[1..]);
      var rest := Sort(avgs, false, s[1..]);
      assert s == [s[0]] + s[1..];
      assert s[0] !in multiset(s[1..]);
      InsertOfNegate(avgs, s[0], rest);
    }
  }

  /** The bottom chart shows the same countries, in the same order, as the top chart of
      the table with every average negated. */
  lemma SmallestIsLargestOfNegated(avgs: seq<CountryAverage>, n: nat)
    ensures RankIndices(avgs, false, n) == RankIndices(Negate(avgs), true, n)
  {
    DefinedFromOfNegate(avgs, 0);
    SortOfNegate(avgs, Defined(avgs));
  }
}
