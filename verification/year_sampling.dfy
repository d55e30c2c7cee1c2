/** The years drawn as violins: the distinct years of the filtered rows in increasing
    order, thinned to every `max(1, n // 6)`-th year when there are more than six. */
module YearSampling {

  /** Above this many distinct years the list is thinned. */
  const MaxViolins: nat := 6

  predicate StrictlyIncreasing(s: seq<int>) {
    forall a, b :: 0 <= a < b < |s| ==> s[a] < s[b]
  }

  function InsertDistinct(y: int, s: seq<int>): (r: seq<int>)
    requires StrictlyIncreasing(s)
    ensures StrictlyIncreasing(r)
    ensures forall x :: x in r <==> x == y || x in s
  {
    if |s| == 0 then [y]
    else
      var head, tail := s[0], s[1..];
      assert s == [head] + tail;
      assert forall k :: 0 <= k < |tail| ==> head < tail[k];
      if y < head then
        assert forall k :: 0 <= k < |s| ==> y < s[k];
        [y] + s
      else if y == head then s
      else
        var rest := InsertDistinct(y, tail);
        forall k | 0 <= k < |rest|
          ensures head < rest[k]
        {
          assert rest[k] in rest;
        }
        [head] + rest
  }

  /** `sorted(years.unique())`: each year once, in increasing order. */
  function SortedDistinct(years: seq<int>): (r: seq<int>)
    ensures StrictlyIncreasing(r)
    ensures forall y :: y in r <==> y in years
  {
    if |years| == 0 then []
    else InsertDistinct(years[0], SortedDistinct(years[1..]))
  }

  function Max(a: int, b: int): int {
    if a >= b then a else b
  }

  /** The slice `s[::step]`: the elements at positions `0, step, 2*step, ...`. */
  function Stride(s: seq<int>, step: nat): (r: seq<int>)
    requires step >= 1
    ensures |r| <= |s|
    ensures |s| > 0 ==> |r| > 0 && r[0] == s[0]
    ensures forall x :: x in r ==> x in s
    decreases |s|
  {
    if |s| == 0 then []
    else if step > |s| then [s[0]]
    else [s[0]] + Stride(s[step..], step)
  }

  /** The `k`-th element of the slice is the element at position `k * step`. */
  lemma {:induction false} StrideAt(s: seq<int>, step: nat, k: nat)
    requires step >= 1 && k < |Stride(s, step)|
    ensures k * step < |s| && Stride(s, step)[k] == s[k * step]
    decreases |s|
  {
    if k > 0 {
      var tail := s[step..];
      var j := (k - 1) * step;
      StrideAt(tail, step, k - 1);
      assert Stride(s, step)[k] == Stride(tail, step)[k - 1] == tail[j];
      MulStep(k, step);
    }
  }

  lemma MulStep(k: int, step: int)
    ensures (k - 1) * step + step == k * step
  {
  }

  lemma MulMonotone(a: int, b: int, step: int)
    requires 0 <= a < b && step >= 1
    ensures a * step < b * step
  {
    assert b * step - a * step == (b - a) * step;
  }

  /** The slice has `ceil(|s| / step)` elements: the last one taken is within one step
      of the end. */
  lemma {:induction false} StrideLength(s: seq<int>, step: nat)
    requires step >= 1
    ensures |Stride(s, step)| * step >= |s|
    ensures |s| > 0 ==> (|Stride(s, step)| - 1) * step < |s|
    decreases |s|
  {
    if |s| > 0 && step <= |s| {
      var m := |Stride(s[step..], step)|;
      StrideLength(s[step..], step);
      assert |Stride(s, step)| == m + 1;
      MulStep(m + 1, step);
    }
  }

  /** The thinning step for `n` distinct years, `max(1, n // 6)`. */
  function ThinningStep(n: nat): (step: nat)
    ensures step >= 1
  {
    Max(1, n / MaxViolins)
  }

  /** The sample of years: unchanged when there are at most six distinct years,
      otherwise every `max(1, n // 6)`-th of the `n` sorted distinct years. Every
      sampled year occurs in the data. */
  function SampleYears(years: seq<int>): (r: seq<int>)
    ensures |SortedDistinct(years)| <= MaxViolins ==> r == SortedDistinct(years)
    ensures |SortedDistinct(years)| > MaxViolins ==>
      r == Stride(SortedDistinct(years), ThinningStep(|SortedDistinct(years)|))
    ensures forall y :: y in r ==> y in years
  {
    var sorted := SortedDistinct(years);
    if |sorted| > MaxViolins then Stride(sorted, ThinningStep(|sorted|)) else sorted
  }

  /** With more than six distinct years, the `k`-th sampled year is the year at
      position `k * max(1, n // 6)` of the sorted distinct years. */
  lemma ThinnedSampleAt(years: seq<int>, k: nat)
    requires |SortedDistinct(years)| > MaxViolins
    requires k < |SampleYears(years)|
    ensures var sorted := SortedDistinct(years);
      k * ThinningStep(|sorted|) < |sorted| && SampleYears(years)[k] == sorted[k * ThinningStep(|sorted|)]
  {
    var sorted := SortedDistinct(years);
    StrideAt(sorted, ThinningStep(|sorted|), k);
  }

  lemma StrideIncreasing(s: seq<int>, step: nat)
    requires step >= 1 && StrictlyIncreasing(s)
    ensures StrictlyIncreasing(Stride(s, step))
  {
    var r := Stride(s, step);
    forall a, b | 0 <= a < b < |r|
      ensures r[a] < r[b]
    {
      StrideAt(s, step, a);
      StrideAt(s, step, b);
      MulMonotone(a, b, step);
    }
  }

  /** The sample is in increasing order, has no year twice, starts with the earliest
      year and is empty only when there are no years at all. */
  lemma SampleAscendingFromEarliest(years: seq<int>)
    ensures StrictlyIncreasing(SampleYears(years))
    ensures |years| > 0 ==> |SampleYears(years)| > 0
    ensures |years| > 0 ==> forall y :: y in years ==> SampleYears(years)[0] <= y
  {
    var sorted := SortedDistinct(years);
    var r := SampleYears(years);
    if |sorted| > MaxViolins {
      StrideIncreasing(sorted, ThinningStep(|sorted|));
    }
    if |years| > 0 {
      assert years[0] in sorted;
      assert r[0] == sorted[0];
      forall y | y in years
        ensures r[0] <= y
      {
        assert y in sorted;
      }
    }
  }

  lemma ThinnedSizeArithmetic(n: int, m: int)
    requires n > 6
    requires m * (n / 6) >= n && (m - 1) * (n / 6) < n
    ensures 6 <= m <= 11
  {
    var q := n / 6;
    assert n == 6 * q + n % 6 && n % 6 <= 5 && q >= 1;
    assert m * q >= 6 * q;
    assert (m - 1) * q < 11 * q;
  }

  /** With more than six distinct years the sample holds between six and eleven of them;
      eleven is reached, since with seven to eleven years the step is one. */
  lemma ThinnedSampleSize(years: seq<int>)
    requires |SortedDistinct(years)| > MaxViolins
    ensures 6 <= |SampleYears(years)| <= 11
  {
    var sorted := SortedDistinct(years);
    var n := |sorted|;
    var step := n / MaxViolins;
    assert step >= 1 && ThinningStep(n) == step;
    var m := |Stride(sorted, step)|;
    assert |SampleYears(years)| == m;
    StrideLength(sorted, step);
    ThinnedSizeArithmetic(n, m);
  }

  lemma {:induction false} StrideOne(s: seq<int>)
    ensures Stride(s, 1) == s
  {
    if |s| > 0 {
      StrideOne(s[1..]);
    }
  }

  /** With seven to eleven distinct years every year is kept. */
  lemma UpToElevenYearsAllKept(years: seq<int>)
    requires MaxViolins < |SortedDistinct(years)| < 12
    ensures SampleYears(years) == SortedDistinct(years)
  {
    var sorted := SortedDistinct(years);
    assert |sorted| / MaxViolins == 1;
    StrideOne(sorted);
  }
}
