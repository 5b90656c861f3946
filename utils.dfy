/**
 * hooks/metrics/utils.ts (and the identical `utils` object of
 * _backup/App.js): the trailing moving average, the display range and the
 * standard deviation, together with the sequence helpers they are built on
 * (`reduce` summation, `Math.max(...)`, `Math.min(...)`, `slice(-n)`).
 */
module Utils {
  import opened Types

  function Abs(x: real): (r: real)
    ensures r >= 0.0 && (r == x || r == -x)
  {
    if x < 0.0 then -x else x
  }

  /** `s.reduce((sum, val) => sum + val, 0)`: a left fold, so the last
      element is added last. */
  function Sum(s: seq<real>): real {
    if s == [] then 0.0 else Sum(s[..|s| - 1]) + s[|s| - 1]
  }

  /** `Math.max(...s)` on a non-empty array. */
  function SeqMax(s: seq<real>): (r: real)
    requires |s| > 0
    ensures r in s
    ensures forall i :: 0 <= i < |s| ==> s[i] <= r
  {
    if |s| == 1 then s[0]
    else
      var m := SeqMax(s[1..]);
      assert forall i :: 1 <= i < |s| ==> s[i] == s[1..][i - 1];
      if s[0] >= m then s[0] else m
  }

  /** `Math.min(...s)` on a non-empty array. */
  function SeqMin(s: seq<real>): (r: real)
    requires |s| > 0
    ensures r in s
    ensures forall i :: 0 <= i < |s| ==> r <= s[i]
  {
    if |s| == 1 then s[0]
    else
      var m := SeqMin(s[1..]);
      assert forall i :: 1 <= i < |s| ==> s[i] == s[1..][i - 1];
      if s[0] <= m then s[0] else m
  }

  /** `s.slice(-n)`: the last `n` elements, or all of `s` when it is
      shorter. `slice(-0)` is `slice(0)`, the whole array. */
  function LastN<T>(s: seq<T>, n: nat): (r: seq<T>)
    ensures |r| == if n == 0 || n >= |s| then |s| else n
    ensures r == s[|s| - |r|..]
  {
    if n == 0 || n >= |s| then s else s[|s| - n..]
  }

  /** calculateMA: the sum of the last `window` samples divided by `window`,
      also when fewer than `window` samples exist. Once the buffer holds at
      least `window` samples this is their mean, so it lies between the
      least and the greatest of them. */
  function CalculateMA(data: seq<real>, window: nat): (r: real)
    requires window >= 1
    ensures |data| >= window ==> SeqMin(LastN(data, window)) <= r <= SeqMax(LastN(data, window))
  {
    var tail := LastN(data, window);
    assert |data| >= window ==> SeqMin(tail) <= Sum(tail) / (window as real) <= SeqMax(tail) by {
      if |data| >= window {
        AverageBounds(tail, SeqMin(tail), SeqMax(tail));
      }
    }
    Sum(tail) / (window as real)
  }

  lemma {:induction false} SumConstant(s: seq<real>, c: real)
    requires forall i :: 0 <= i < |s| ==> s[i] == c
    ensures Sum(s) == (|s| as real) * c
  {
    if s != [] {
      SumConstant(s[..|s| - 1], c);
    }
  }

  lemma {:induction false} SumBounds(s: seq<real>, lo: real, hi: real)
    requires forall i :: 0 <= i < |s| ==> lo <= s[i] <= hi
    ensures (|s| as real) * lo <= Sum(s) <= (|s| as real) * hi
  {
    if s != [] {
      SumBounds(s[..|s| - 1], lo, hi);
    }
  }

  /** A window whose last `window` samples all equal `c` averages to `c`. */
  lemma MAOfConstantTail(data: seq<real>, window: nat, c: real)
    requires window >= 1 && |data| >= window
    requires forall i :: |data| - window <= i < |data| ==> data[i] == c
    ensures CalculateMA(data, window) == c
  {
    var tail := LastN(data, window);
    assert forall i :: 0 <= i < |tail| ==> tail[i] == data[|data| - window + i];
    SumConstant(tail, c);
  }

  /** The mean of a non-empty sequence whose elements lie in [lo, hi] lies
      in [lo, hi]. */
  lemma AverageBounds(s: seq<real>, lo: real, hi: real)
    requires |s| > 0
    requires forall i :: 0 <= i < |s| ==> lo <= s[i] <= hi
    ensures lo <= Sum(s) / (|s| as real) <= hi
  {
    SumBounds(s, lo, hi);
    QuotientBounds(Sum(s), |s| as real, lo, hi);
  }

  lemma QuotientBounds(x: real, w: real, lo: real, hi: real)
    requires w > 0.0 && w * lo <= x <= w * hi
    ensures lo <= x / w <= hi
  {
  }

  /** With fewer than `window` samples the sum is still divided by
      `window`: a single sample 1 under a window of 2 averages to 1/2. */
  lemma MAShortBuffer(data: seq<real>, window: nat)
    requires window >= 1 && |data| < window
    ensures CalculateMA(data, window) == Sum(data) / (window as real)
    ensures CalculateMA([1.0], 2) == 0.5
  {
  }

  /** calculateRange: `{-1, 1}` for no data, otherwise the observed extremes
      widened on each side by a tenth of their spread. The NaN/null filter
      has nothing to remove from a sequence of reals. */
  function CalculateRange(data: seq<real>): (r: Range)
    ensures |data| == 0 ==> r == Range(-1.0, 1.0)
    ensures |data| > 0 ==> r.min <= r.max
    ensures forall i :: 0 <= i < |data| ==> r.min <= data[i] <= r.max
  {
    if |data| == 0 then Range(-1.0, 1.0)
    else
      var lo := SeqMin(data);
      var hi := SeqMax(data);
      var margin := (hi - lo) * 0.1;
      Range(lo - margin, hi + margin)
  }

  /** `data[i]` is a least and `data[j]` a greatest element of `data`. */
  predicate LeastAndGreatest(data: seq<real>, i: int, j: int) {
    0 <= i < |data| && 0 <= j < |data| &&
    forall k :: 0 <= k < |data| ==> data[i] <= data[k] <= data[j]
  }

  /** The range is the least element `data[i]` and the greatest element
      `data[j]`, each widened by a tenth of their spread. */
  lemma RangeMargins(data: seq<real>)
    requires |data| > 0
    ensures exists i, j :: LeastAndGreatest(data, i, j) &&
              CalculateRange(data) == Range(data[i] - (data[j] - data[i]) / 10.0, data[j] + (data[j] - data[i]) / 10.0)
  {
    var lo, hi := SeqMin(data), SeqMax(data);
    var i :| 0 <= i < |data| && data[i] == lo;
    var j :| 0 <= j < |data| && data[j] == hi;
    assert LeastAndGreatest(data, i, j);
    assert CalculateRange(data) == Range(data[i] - (data[j] - data[i]) / 10.0, data[j] + (data[j] - data[i]) / 10.0);
  }

  /** A constant non-empty buffer has a zero-width range at its value. */
  lemma RangeOfConstant(data: seq<real>, c: real)
    requires |data| > 0
    requires forall i :: 0 <= i < |data| ==> data[i] == c
    ensures CalculateRange(data) == Range(c, c)
  {
    assert SeqMin(data) in data && SeqMax(data) in data;
  }

  /** `Math.pow(d, 2)`. */
  function Square(d: real): real {
    d * d
  }

  lemma SquareNonNegative(d: real)
    ensures Square(d) >= 0.0
  {
  }

  /** `reduce((sum, val) => sum + Math.pow(val - mean, 2), 0)`. */
  function SumSquares(values: seq<real>, mean: real): real {
    if values == [] then 0.0
    else SumSquares(values[..|values| - 1], mean) + Square(values[|values| - 1] - mean)
  }

  /** The square of calculateStandardDeviation: the population variance of
      `values` around `mean`. The square root is not modelled; see
      StdDevBelow. */
  function Variance(values: seq<real>, mean: real): (r: real)
    requires |values| > 0
    ensures r >= 0.0
  {
    SumSquaresNonNegative(values, mean);
    SumSquares(values, mean) / (|values| as real)
  }

  /** `calculateStandardDeviation(values, mean) < t`. A square root is
      below `t` exactly when `t` is positive and the radicand is below
      `t * t`. */
  predicate StdDevBelow(values: seq<real>, mean: real, t: real)
    requires |values| > 0
  {
    t > 0.0 && Variance(values, mean) < t * t
  }

  lemma {:induction false} SumSquaresNonNegative(values: seq<real>, mean: real)
    ensures SumSquares(values, mean) >= 0.0
  {
    if values != [] {
      SumSquaresNonNegative(values[..|values| - 1], mean);
      SquareNonNegative(values[|values| - 1] - mean);
    }
  }

  lemma {:induction false} SumSquaresOfConstant(values: seq<real>, mean: real)
    requires forall i :: 0 <= i < |values| ==> values[i] == mean
    ensures SumSquares(values, mean) == 0.0
  {
    if values != [] {
      SumSquaresOfConstant(values[..|values| - 1], mean);
    }
  }

  /** The variance is zero when every value equals the mean. */
  lemma VarianceOfConstant(values: seq<real>, mean: real)
    requires |values| > 0
    ensures (forall i :: 0 <= i < |values| ==> values[i] == mean) ==> Variance(values, mean) == 0.0
  {
    if forall i :: 0 <= i < |values| ==> values[i] == mean {
      SumSquaresOfConstant(values, mean);
    }
  }
}
