/** The correlation details table: every pair of distinct numeric columns with their
    correlation and a strength label, listed by decreasing absolute correlation. The
    correlation values themselves are given (pandas computes them); an undefined
    correlation, NaN in pandas, is `None`. */
module Correlation {
  import opened Options

  /** The six numeric columns of the table, in the order the dashboard lists them. */
  const NumericColumns: seq<string> :=
    ["Temperature", "CO2 Emissions", "Sea Level Rise", "Precipitation", "Humidity", "Wind Speed"]

  datatype Strength = Weak | Moderate | Strong

  const StrongAbove: real := 0.5
  const ModerateAbove: real := 0.3

  function Abs(x: real): (a: real)
    ensures a >= 0.0 && (a == x || a == -x)
  {
    if x < 0.0 then -x else x
  }

  /** The label of one correlation. An undefined correlation fails both comparisons
      and is labelled `Weak`. */
  function StrengthOf(c: Option<real>): (s: Strength)
    ensures c.None? ==> s == Weak
    ensures c.Some? ==> (s == Strong <==> Abs(c.value) > StrongAbove)
    ensures c.Some? ==> (s == Moderate <==> ModerateAbove < Abs(c.value) <= StrongAbove)
    ensures c.Some? ==> (s == Weak <==> Abs(c.value) <= ModerateAbove)
  {
    match c
    case None => Weak
    case Some(r) =>
      if Abs(r) > StrongAbove then Strong
      else if Abs(r) > ModerateAbove then Moderate
      else Weak
  }

  /** The labels in increasing order of strength. */
  function Level(s: Strength): nat {
    match s
    case Weak => 0
    case Moderate => 1
    case Strong => 2
  }

  /** The label depends on the correlation only through its absolute value. */
  lemma StrengthDependsOnlyOnAbs(x: real, y: real)
    requires Abs(x) == Abs(y)
    ensures StrengthOf(Some(x)) == StrengthOf(Some(y))
    ensures StrengthOf(Some(x)) == StrengthOf(Some(-x))
  {
  }

  /** A larger absolute correlation never gets a weaker label. */
  lemma StrengthMonotone(x: real, y: real)
    requires Abs(x) <= Abs(y)
    ensures Level(StrengthOf(Some(x))) <= Level(StrengthOf(Some(y)))
  {
  }

  // ---------------------------------------------------------------------------
  // Pair enumeration

  /** The pairs `(i, k)` for `lo <= k < hi`, in increasing `k`: one pass of the inner loop. */
  function Row(i: nat, lo: nat, hi: nat): seq<(nat, nat)>
    decreases hi
  {
    if hi <= lo then [] else Row(i, lo, hi - 1) + [(i, hi - 1)]
  }

  /** The pairs the nested loops produce before the outer index reaches `i`. */
  function PairsBefore(i: nat, n: nat): seq<(nat, nat)> {
    if i == 0 then [] else PairsBefore(i - 1, n) + Row(i - 1, i, n)
  }

  /** Reference enumeration: all index pairs `(i, j)` of `n` columns with `i < j`,
      outer index first. */
  function IndexPairs(n: nat): seq<(nat, nat)> {
    PairsBefore(n, n)
  }

  /** Lexicographic order on index pairs. */
  predicate PairLess(p: (nat, nat), q: (nat, nat)) {
    p.0 < q.0 || (p.0 == q.0 && p.1 < q.1)
  }

  predicate StrictlyIncreasingPairs(s: seq<(nat, nat)>) {
    forall a, b :: 0 <= a < b < |s| ==> PairLess(s[a], s[b])
  }

  lemma {:induction false} RowLength(i: nat, lo: nat, hi: nat)
    ensures |Row(i, lo, hi)| == if hi <= lo then 0 else hi - lo
    decreases hi
  {
    if hi > lo {
      RowLength(i, lo, hi - 1);
    }
  }

  lemma {:induction false} RowContents(i: nat, lo: nat, hi: nat)
    ensures forall p :: p in Row(i, lo, hi) <==> p.0 == i && lo <= p.1 < hi
    decreases hi
  {
    if hi > lo {
      RowContents(i, lo, hi - 1);
    }
  }

  lemma {:induction false} RowIncreasing(i: nat, lo: nat, hi: nat)
    ensures StrictlyIncreasingPairs(Row(i, lo, hi))
    decreases hi
  {
    if hi > lo {
      RowIncreasing(i, lo, hi - 1);
      RowContents(i, lo, hi - 1);
      var prev := Row(i, lo, hi - 1);
      forall a | 0 <= a < |prev|
        ensures PairLess(prev[a], (i, hi - 1))
      {
        assert prev[a] in prev;
      }
    }
  }

  lemma RowStepArithmetic(i: int, n: int)
    ensures (i - 1) * (2 * n - i) + 2 * (n - i) == i * (2 * n - i - 1)
  {
  }

  lemma {:induction false} PairsBeforeLength(i: nat, n: nat)
    requires i <= n
    ensures 2 * |PairsBefore(i, n)| == i * (2 * n - i - 1)
  {
    if i > 0 {
      PairsBeforeLength(i - 1, n);
      RowLength(i - 1, i, n);
      RowStepArithmetic(i, n);
    }
  }

  lemma {:induction false} PairsBeforeContents(i: nat, n: nat)
    ensures forall p :: p in PairsBefore(i, n) <==> p.0 < i && p.0 < p.1 < n
  {
    if i > 0 {
      PairsBeforeContents(i - 1, n);
      RowContents(i - 1, i, n);
    }
  }

  lemma ConcatIncreasing(x: seq<(nat, nat)>, y: seq<(nat, nat)>)
    requires StrictlyIncreasingPairs(x) && StrictlyIncreasingPairs(y)
    requires forall a, b :: 0 <= a < |x| && 0 <= b < |y| ==> PairLess(x[a], y[b])
    ensures StrictlyIncreasingPairs(x + y)
  {
    var all := x + y;
    forall a, b | 0 <= a < b < |all|
      ensures PairLess(all[a], all[b])
    {
      if b < |x| {
        assert all[a] == x[a] && all[b] == x[b];
      } else if a >= |x| {
        assert all[a] == y[a - |x|] && all[b] == y[b - |x|];
      } else {
        assert all[a] == x[a] && all[b] == y[b - |x|];
      }
    }
  }

  lemma {:induction false} PairsBeforeIncreasing(i: nat, n: nat)
    ensures StrictlyIncreasingPairs(PairsBefore(i, n))
  {
    if i > 0 {
      var prev, row := PairsBefore(i - 1, n), Row(i - 1, i, n);
      PairsBeforeIncreasing(i - 1, n);
      RowIncreasing(i - 1, i, n);
      PairsBeforeContents(i - 1, n);
      RowContents(i - 1, i, n);
      forall a, b | 0 <= a < |prev| && 0 <= b < |row|
        ensures PairLess(prev[a], row[b])
      {
        assert prev[a] in prev && row[b] in row;
      }
      ConcatIncreasing(prev, row);
    }
  }

  /** `n` columns give `n(n-1)/2` pairs; every pair `i < j < n` occurs, nothing else
      does, and no pair occurs twice. */
  lemma IndexPairsExactlyOnce(n: nat)
    ensures 2 * |IndexPairs(n)| == n * (n - 1)
    ensures forall p :: p in IndexPairs(n) <==> p.0 < p.1 < n
    ensures forall a, b :: 0 <= a < b < |IndexPairs(n)| ==> IndexPairs(n)[a] != IndexPairs(n)[b]
  {
    PairsBeforeLength(n, n);
    PairsBeforeContents(n, n);
    PairsBeforeIncreasing(n, n);
  }

  /** The dashboard's six columns give fifteen pairs. */
  lemma SixColumnsGiveFifteenPairs()
    ensures |IndexPairs(|NumericColumns|)| == 15
  {
    IndexPairsExactlyOnce(6);
  }

  /** One row of the details table. */
  datatype CorrPair = CorrPair(first: string, second: string, corr: Option<real>, strength: Strength)

  /** A square matrix indexed by `n` columns, as `.corr()` returns. */
  predicate IsSquare(m: seq<seq<Option<real>>>, n: nat) {
    |m| == n && forall r :: 0 <= r < n ==> |m[r]| == n
  }

  function Describe(cols: seq<string>, m: seq<seq<Option<real>>>, i: nat, j: nat): CorrPair
    requires IsSquare(m, |cols|) && i < |cols| && j < |cols|
  {
    CorrPair(cols[i], cols[j], m[i][j], StrengthOf(m[i][j]))
  }

  /** `pairs` lists, position by position, the table rows of the index pairs `idx`. */
  ghost predicate Describes(pairs: seq<CorrPair>, cols: seq<string>, m: seq<seq<Option<real>>>, idx: seq<(nat, nat)>)
    requires IsSquare(m, |cols|)
  {
    && |pairs| == |idx|
    && forall k :: 0 <= k < |idx| ==>
         idx[k].0 < idx[k].1 < |cols| && pairs[k] == Describe(cols, m, idx[k].0, idx[k].1)
  }

  /** The nested loops building the details table: one row per pair of columns
      `i < j`, in the order of the reference enumeration, each carrying the matrix
      entry at `(i, j)` and its label; `n(n-1)/2` rows in all. */
  method CorrelationPairs(cols: seq<string>, m: seq<seq<Option<real>>>) returns (pairs: seq<CorrPair>)
    requires IsSquare(m, |cols|)
    ensures 2 * |pairs| == |cols| * (|cols| - 1)
    ensures |pairs| == |IndexPairs(|cols|)|
    ensures forall k :: 0 <= k < |pairs| ==>
      var p := IndexPairs(|cols|)[k];
      p.0 < p.1 < |cols| && pairs[k] == Describe(cols, m, p.0, p.1)
  {
    var n := |cols|;
    pairs := [];
    var i := 0;
    while i < n
      invariant 0 <= i <= n
      invariant Describes(pairs, cols, m, PairsBefore(i, n))
    {
      var j := i + 1;
      ghost var done := PairsBefore(i, n);
      while j < n
        invariant i + 1 <= j <= n
        invariant Describes(pairs, cols, m, done + Row(i, i + 1, j))
      {
        assert Row(i, i + 1, j + 1) == Row(i, i + 1, j) + [(i, j)];
        assert done + Row(i, i + 1, j + 1) == (done + Row(i, i + 1, j)) + [(i, j)];
        pairs := pairs + [Describe(cols, m, i, j)];
        j := j + 1;
      }
      assert PairsBefore(i + 1, n) == done + Row(i, i + 1, n);
      i := i + 1;
    }
    PairsBeforeLength(n, n);
  }

  // ---------------------------------------------------------------------------
  // Ordering the table by absolute correlation

  /** The sort key: the absolute correlation, with an undefined one below all others
      so that it is listed last. */
  function SortKey(p: CorrPair): real {
    match p.corr
    case None => -1.0
    case Some(r) => Abs(r)
  }

  predicate ByDecreasingStrength(s: seq<CorrPair>) {
    forall a, b :: 0 <= a < b < |s| ==> SortKey(s[a]) >= SortKey(s[b])
  }

  /** The rows whose correlation is undefined, in their order. */
  function UndefinedRows(s: seq<CorrPair>): seq<CorrPair> {
    if |s| == 0 then []
    else (if s[0].corr.None? then [s[0]] else []) + UndefinedRows(s[1..])
  }

  lemma UndefinedRowsOfCons(x: CorrPair, s: seq<CorrPair>)
    ensures UndefinedRows([x] + s) == (if x.corr.None? then [x] else []) + UndefinedRows(s)
  {
    assert ([x] + s)[0] == x && ([x] + s)[1..] == s;
  }

  function InsertByKey(x: CorrPair, s: seq<CorrPair>): (r: seq<CorrPair>)
    requires ByDecreasingStrength(s)
    ensures ByDecreasingStrength(r)
    ensures multiset(r) == multiset(s) + multiset{x}
  {
    if |s| == 0 then [x]
    else if SortKey(s[0]) <= SortKey(x) then [x] + s
    else
      var rest := InsertByKey(x, s[1..]);
      assert s == [s[0]] + s[1..];
      forall c | c in rest
        ensures SortKey(c) <= SortKey(s[0])
      {
        assert c in multiset(rest);
        assert c == x || c in multiset(s[1..]);
      }
      [s[0]] + rest
  }

  /** Inserting a row puts it before the rows of equal key, so an undefined row goes in
      front of the undefined rows already there and they keep their order. */
  lemma {:induction false} InsertKeepsUndefinedOrder(x: CorrPair, s: seq<CorrPair>)
    requires ByDecreasingStrength(s)
    ensures UndefinedRows(InsertByKey(x, s)) == (if x.corr.None? then [x] else []) + UndefinedRows(s)
  {
    if |s| == 0 || SortKey(s[0]) <= SortKey(x) {
      assert InsertByKey(x, s) == [x] + s;
      UndefinedRowsOfCons(x, s);
    } else {
      var tail := s[1..];
      TailDecreasing(s);
      var rest := InsertByKey(x, tail);
      assert InsertByKey(x, s) == [s[0]] + rest;
      InsertKeepsUndefinedOrder(x, tail);
      assert s == [s[0]] + tail;
      UndefinedRowsOfCons(s[0], tail);
      UndefinedRowsOfCons(s[0], rest);
      if x.corr.None? {
        assert s[0].corr.Some?;
      }
    }
  }

  lemma TailDecreasing(s: seq<CorrPair>)
    requires |s| > 0 && ByDecreasingStrength(s)
    ensures ByDecreasingStrength(s[1..])
  {
  }

  /** The table ordered by decreasing absolute correlation, undefined correlations
      last and in their input order; the rows are the same rows, each as many times as
      before. */
  function SortByStrength(s: seq<CorrPair>): (r: seq<CorrPair>)
    ensures ByDecreasingStrength(r)
    ensures multiset(r) == multiset(s)
    ensures UndefinedRows(r) == UndefinedRows(s)
  {
    if |s| == 0 then []
    else
      assert s == [s[0]] + s[1..];
      UndefinedRowsOfCons(s[0], s[1..]);
      InsertKeepsUndefinedOrder(s[0], SortByStrength(s[1..]));
      InsertByKey(s[0], SortByStrength(s[1..]))
  }

  /** After sorting, every row with a defined correlation precedes every row without one. */
  lemma UndefinedListedLast(s: seq<CorrPair>, a: int, b: int)
    requires 0 <= a < b < |SortByStrength(s)|
    requires SortByStrength(s)[a].corr.None?
    ensures SortByStrength(s)[b].corr.None?
  {
  }
}
