/** Min-max normalisation `(v - min) / (max - min + 1e-9)`, used to put the yearly
    means of all six variables on one axis and to draw the normalised box plots. */
module Normalization {
  import opened Options

  /** The guard added to the range so that a constant series does not divide by zero. */
  const Epsilon: real := 0.000000001

  function MinOf(s: seq<real>): (m: real)
    requires |s| > 0
    ensures forall i :: 0 <= i < |s| ==> m <= s[i]
    ensures exists i :: 0 <= i < |s| && s[i] == m
  {
    if |s| == 1 then s[0]
    else
      var rest := MinOf(s[1..]);
      if s[0] <= rest then s[0] else rest
  }

  function MaxOf(s: seq<real>): (m: real)
    requires |s| > 0
    ensures forall i :: 0 <= i < |s| ==> s[i] <= m
    ensures exists i :: 0 <= i < |s| && s[i] == m
  {
    if |s| == 1 then s[0]
    else
      var rest := MaxOf(s[1..]);
      if s[0] >= rest then s[0] else rest
  }

  /** One value scaled against the range `[lo, hi]` of its series. */
  function Scale(v: real, lo: real, hi: real): (x: real)
    requires lo <= v <= hi
    ensures 0.0 <= x < 1.0
    ensures v == lo ==> x == 0.0
  {
    var d := hi - lo + Epsilon;
    var x := (v - lo) / d;
    assert x * d == v - lo;
    x
  }

  /** The inverse of `Scale` for the same range. */
  function Unscale(x: real, lo: real, hi: real): real {
    lo + x * (hi - lo + Epsilon)
  }

  /** Scaling loses nothing: the value is recovered from its scaled value and the range. */
  lemma ScaleInverse(v: real, lo: real, hi: real)
    requires lo <= v <= hi
    ensures Unscale(Scale(v, lo, hi), lo, hi) == v
  {
    var d := hi - lo + Epsilon;
    assert Scale(v, lo, hi) * d == v - lo;
  }

  /** Scaling against the same range keeps the order of the values, in both directions. */
  lemma ScaleMonotone(v: real, w: real, lo: real, hi: real)
    requires lo <= v <= hi && lo <= w <= hi
    ensures v <= w <==> Scale(v, lo, hi) <= Scale(w, lo, hi)
  {
    var d := hi - lo + Epsilon;
    assert Scale(v, lo, hi) * d == v - lo;
    assert Scale(w, lo, hi) * d == w - lo;
    if v <= w {
      assert (Scale(w, lo, hi) - Scale(v, lo, hi)) * d == w - v;
    } else {
      assert (Scale(v, lo, hi) - Scale(w, lo, hi)) * d == v - w;
    }
  }

  /** Normalises a series with no missing values. Every result lies in `[0, 1)`, the
      order of the values is kept, the minimum maps to 0 and a constant series maps
      to all zeros. The empty series stays empty. */
  function Normalize(s: seq<real>): (r: seq<real>)
    ensures |r| == |s|
    ensures forall i :: 0 <= i < |r| ==> 0.0 <= r[i] < 1.0
    ensures forall i :: 0 <= i < |s| && (forall j :: 0 <= j < |s| ==> s[i] <= s[j]) ==> r[i] == 0.0
    ensures (forall i, j :: 0 <= i < |s| && 0 <= j < |s| ==> s[i] == s[j]) ==>
              forall i :: 0 <= i < |r| ==> r[i] == 0.0
  {
    if |s| == 0 then []
    else
      var lo, hi := MinOf(s), MaxOf(s);
      seq(|s|, i requires 0 <= i < |s| => Scale(s[i], lo, hi))
  }

  /** Normalisation keeps and reflects the order of any two values. */
  lemma NormalizePreservesOrder(s: seq<real>, i: int, j: int)
    requires 0 <= i < |s| && 0 <= j < |s|
    ensures s[i] <= s[j] <==> Normalize(s)[i] <= Normalize(s)[j]
  {
    ScaleMonotone(s[i], s[j], MinOf(s), MaxOf(s));
  }

  /** Normalisation loses nothing: each value is recovered from its normalised value
      and the series' minimum and maximum. */
  lemma NormalizeInvertible(s: seq<real>, i: int)
    requires 0 <= i < |s|
    ensures Unscale(Normalize(s)[i], MinOf(s), MaxOf(s)) == s[i]
  {
    var lo, hi := MinOf(s), MaxOf(s);
    assert Normalize(s)[i] == Scale(s[i], lo, hi);
    ScaleInverse(s[i], lo, hi);
  }

  /** The values present in a column, in order: pandas' `dropna()`. Every present cell
      survives, as often as it occurs. */
  function Present(s: seq<Option<real>>): (p: seq<real>)
    ensures |p| <= |s|
    ensures forall v :: v in p <==> Some(v) in s
    ensures forall v :: multiset(p)[v] == multiset(s)[Some(v)]
  {
    if |s| == 0 then []
    else
      assert s == [s[0]] + s[1..];
      if s[0].Some? then [s[0].value] + Present(s[1..])
      else Present(s[1..])
  }

  /** Dropping the missing cells works piecewise, so the present values keep the order
      of their cells. */
  lemma {:induction false} PresentOfConcat(a: seq<Option<real>>, b: seq<Option<real>>)
    ensures Present(a + b) == Present(a) + Present(b)
  {
    if |a| > 0 {
      var head: seq<real> := if a[0].Some? then [a[0].value] else [];
      assert (a + b)[0] == a[0] && (a + b)[1..] == a[1..] + b;
      assert Present(a + b) == head + Present(a[1..] + b);
      PresentOfConcat(a[1..], b);
      assert Present(a) == head + Present(a[1..]);
    } else {
      assert a + b == b;
    }
  }

  /** Normalises a column that may hold missing values, as pandas does: the minimum
      and maximum skip missing cells and a missing cell stays missing. */
  function NormalizeSeries(s: seq<Option<real>>): (r: seq<Option<real>>)
    ensures |r| == |s|
    ensures forall i :: 0 <= i < |s| ==> (r[i].Some? <==> s[i].Some?)
    ensures forall i :: 0 <= i < |r| && r[i].Some? ==> 0.0 <= r[i].value < 1.0
    ensures forall i :: 0 <= i < |s| && IsSmallestPresent(s, i) ==> r[i] == Some(0.0)
    ensures (forall i, j :: 0 <= i < |s| && 0 <= j < |s| && s[i].Some? && s[j].Some? ==> s[i].value == s[j].value) ==>
              forall i :: 0 <= i < |s| && s[i].Some? ==> r[i] == Some(0.0)
  {
    var p := Present(s);
    if |p| == 0 then s
    else
      var lo, hi := MinOf(p), MaxOf(p);
      var r := seq(|s|, i requires 0 <= i < |s| =>
        match s[i]
        case None => None
        case Some(v) => assert v in p; Some(Scale(v, lo, hi)));
      forall i | 0 <= i < |s| && IsSmallestPresent(s, i)
        ensures r[i] == Some(0.0)
      {
        SmallestPresentIsMin(s, i);
      }
      r
  }

  /** Cell `i` holds a value no larger than any other present value. */
  predicate IsSmallestPresent(s: seq<Option<real>>, i: int)
    requires 0 <= i < |s|
  {
    s[i].Some? && forall j :: 0 <= j < |s| && s[j].Some? ==> s[i].value <= s[j].value
  }

  /** The minimum that pandas takes while skipping missing cells is the smallest present value. */
  lemma SmallestPresentIsMin(s: seq<Option<real>>, i: int)
    requires 0 <= i < |s| && IsSmallestPresent(s, i)
    ensures |Present(s)| > 0 && MinOf(Present(s)) == s[i].value
  {
    var p := Present(s);
    assert s[i].value in p;
    var k :| 0 <= k < |p| && p[k] == MinOf(p);
    assert Some(p[k]) in s;
  }

  /** Normalisation of a column with missing cells loses nothing: each present value is
      recovered from its normalised value and the minimum and maximum of the present values. */
  lemma NormalizeSeriesInvertible(s: seq<Option<real>>, i: int)
    requires 0 <= i < |s| && s[i].Some?
    ensures |Present(s)| > 0 && NormalizeSeries(s)[i].Some?
    ensures Unscale(NormalizeSeries(s)[i].value, MinOf(Present(s)), MaxOf(Present(s))) == s[i].value
  {
    var p := Present(s);
    NormalizeSeriesAt(s, i);
    assert s[i].value in p;
    ScaleInverse(s[i].value, MinOf(p), MaxOf(p));
  }

  /** Within a column with missing cells, the present values keep their order. */
  lemma NormalizeSeriesPreservesOrder(s: seq<Option<real>>, i: int, j: int)
    requires 0 <= i < |s| && 0 <= j < |s| && s[i].Some? && s[j].Some?
    ensures s[i].value <= s[j].value <==> NormalizeSeries(s)[i].value <= NormalizeSeries(s)[j].value
  {
    var p := Present(s);
    assert s[i].value in p && s[j].value in p;
    ScaleMonotone(s[i].value, s[j].value, MinOf(p), MaxOf(p));
  }

  lemma {:induction false} PresentOfAllPresent(s: seq<Option<real>>)
    requires forall i :: 0 <= i < |s| ==> s[i].Some?
    ensures |Present(s)| == |s|
    ensures forall i :: 0 <= i < |s| ==> Present(s)[i] == s[i].value
  {
    if |s| > 0 {
      PresentOfAllPresent(s[1..]);
    }
  }

  /** On a column with no missing cell, the NaN-aware normalisation is the plain one. */
  lemma NormalizeSeriesWithoutMissing(s: seq<Option<real>>)
    requires forall i :: 0 <= i < |s| ==> s[i].Some?
    ensures |Present(s)| == |s|
    ensures forall i :: 0 <= i < |s| ==> NormalizeSeries(s)[i] == Some(Normalize(Present(s))[i])
  {
    PresentOfAllPresent(s);
    var p := Present(s);
    forall i | 0 <= i < |s|
      ensures NormalizeSeries(s)[i] == Some(Normalize(p)[i])
    {
      NormalizeSeriesAt(s, i);
      NormalizeAt(p, i);
    }
  }

  lemma NormalizeAt(s: seq<real>, i: int)
    requires 0 <= i < |s|
    ensures Normalize(s)[i] == Scale(s[i], MinOf(s), MaxOf(s))
  {
  }

  lemma NormalizeSeriesAt(s: seq<Option<real>>, i: int)
    requires 0 <= i < |s| && s[i].Some?
    ensures |Present(s)| > 0
    ensures NormalizeSeries(s)[i] == Some(Scale(s[i].value, MinOf(Present(s)), MaxOf(Present(s))))
  {
    assert s[i].value in Present(s);
  }

  /** The box-plot normalisation: the missing cells are dropped first, then the
      remaining values are normalised. One value per present cell, each in `[0, 1)`;
      the smallest present value maps to 0 and a constant column to all zeros. */
  function NormalizeColumn(vals: seq<Option<real>>): (r: seq<real>)
    ensures |r| == |Present(vals)|
    ensures forall k :: 0 <= k < |r| ==> 0.0 <= r[k] < 1.0
    ensures forall k :: 0 <= k < |r| && (forall m :: 0 <= m < |r| ==> Present(vals)[k] <= Present(vals)[m]) ==>
              r[k] == 0.0
    ensures (forall k, m :: 0 <= k < |r| && 0 <= m < |r| ==> Present(vals)[k] == Present(vals)[m]) ==>
              forall k :: 0 <= k < |r| ==> r[k] == 0.0
    ensures (forall i :: 0 <= i < |vals| ==> vals[i].None?) ==> r == []
  {
    var p := Present(vals);
    assert |p| > 0 ==> Some(p[0]) in vals;
    Normalize(p)
  }

  /** Within a box, the normalised values keep the order of the present cells. */
  lemma NormalizeColumnPreservesOrder(vals: seq<Option<real>>, k: int, m: int)
    requires 0 <= k < |Present(vals)| && 0 <= m < |Present(vals)|
    ensures Present(vals)[k] <= Present(vals)[m] <==> NormalizeColumn(vals)[k] <= NormalizeColumn(vals)[m]
  {
    NormalizePreservesOrder(Present(vals), k, m);
  }
}
