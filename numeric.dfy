/** Arithmetic helpers the toolkit relies on: Python's `round(x, 2)`, `sum`
    and the guarded mean `round(sum(xs) / len(xs), 2) if xs else 0.00`. */
module Numeric {

  /** Rounding to two decimals, ties rounded up: the nearest multiple of 1/100. */
  function Round2(x: real): real {
    (x * 100.0 + 0.5).Floor as real / 100.0
  }

  lemma Round2Monotone(x: real, y: real)
    requires x <= y
    ensures Round2(x) <= Round2(y)
  {
    var a, b := x * 100.0 + 0.5, y * 100.0 + 0.5;
    assert a <= b;
    assert a.Floor as real <= a < b.Floor as real + 1.0;
  }

  /** A value that already has at most two decimals is left alone. */
  lemma Round2Exact(k: int)
    ensures Round2(k as real / 100.0) == k as real / 100.0
  {
    var a := (k as real / 100.0) * 100.0 + 0.5;
    assert a == k as real + 0.5;
    assert a.Floor as real <= a < a.Floor as real + 1.0;
    assert a.Floor == k;
  }

  /** Rounding moves a value by at most half a hundredth. */
  lemma Round2Close(x: real)
    ensures x - 0.005 <= Round2(x) <= x + 0.005
  {
    var a := x * 100.0 + 0.5;
    assert a - 1.0 < a.Floor as real <= a;
  }

  /** Rounding keeps a value inside [lo, hi] when both ends have two decimals. */
  lemma Round2Within(x: real, lo: int, hi: int)
    requires lo as real / 100.0 <= x <= hi as real / 100.0
    ensures lo as real / 100.0 <= Round2(x) <= hi as real / 100.0
  {
    Round2Monotone(lo as real / 100.0, x);
    Round2Monotone(x, hi as real / 100.0);
    Round2Exact(lo);
    Round2Exact(hi);
  }

  /** Rounding can take the mean below its smallest element: one stored
      quality of 33.333 averages to 33.33. Unlike the other lemmas here,
      this one evaluates the definition of `Round2` rather than using only
      its monotonicity, exactness on hundredths and 0.005 bound; Python's
      `round(33.333, 2)` also gives 33.33. */
  lemma MeanMayUndershoot()
    ensures Mean([33.333]) == 33.33 < 33.333
  {
    var xs := [33.333];
    assert Sum(xs) == 33.333 by { assert xs[1..] == []; }
    var a := 33.333 * 100.0 + 0.5;
    assert a == 3333.8;
    assert a.Floor as real <= a < a.Floor as real + 1.0;
    assert a.Floor == 3333;
  }

  function Sum(xs: seq<real>): real {
    if xs == [] then 0.0 else xs[0] + Sum(xs[1..])
  }

  /** The mean of `xs` rounded to two decimals, and 0 for an empty list. */
  function Mean(xs: seq<real>): real {
    if xs == [] then 0.0 else Round2(Sum(xs) / |xs| as real)
  }

  /** Every element lies in [lo, hi], so the sum lies between |xs|*lo and |xs|*hi. */
  lemma {:induction false} SumBetween(xs: seq<real>, lo: real, hi: real)
    requires forall i :: 0 <= i < |xs| ==> lo <= xs[i] <= hi
    ensures |xs| as real * lo <= Sum(xs) <= |xs| as real * hi
  {
    if xs != [] {
      SumBetween(xs[1..], lo, hi);
      assert |xs| as real * lo == lo + |xs[1..]| as real * lo;
      assert |xs| as real * hi == hi + |xs[1..]| as real * hi;
    }
  }

  /** The unrounded mean of a non-empty list lies between any bounds of its elements. */
  lemma ExactMeanBetween(xs: seq<real>, lo: real, hi: real)
    requires xs != []
    requires forall i :: 0 <= i < |xs| ==> lo <= xs[i] <= hi
    ensures lo <= Sum(xs) / |xs| as real <= hi
  {
    SumBetween(xs, lo, hi);
    var n, s := |xs| as real, Sum(xs);
    assert n * lo <= s <= n * hi;
    DivideBounds(n, n * lo, s);
    DivideBounds(n, s, n * hi);
    MulDiv(n, lo);
    MulDiv(n, hi);
  }

  lemma DivideBounds(n: real, a: real, b: real)
    requires n > 0.0 && a <= b
    ensures a / n <= b / n
  {
    assert b / n - a / n == (b - a) / n;
  }

  lemma MulDiv(n: real, x: real)
    requires n > 0.0
    ensures (n * x) / n == x
  {
  }

  /** The rounded mean stays between the rounded bounds of the elements. */
  lemma MeanBetween(xs: seq<real>, lo: real, hi: real)
    requires xs != []
    requires forall i :: 0 <= i < |xs| ==> lo <= xs[i] <= hi
    ensures Round2(lo) <= Mean(xs) <= Round2(hi)
  {
    ExactMeanBetween(xs, lo, hi);
    Round2Monotone(lo, Sum(xs) / |xs| as real);
    Round2Monotone(Sum(xs) / |xs| as real, hi);
  }

  /** The mean of values in [0, 100] (0 when there are none) is in [0, 100]. */
  lemma MeanPercent(xs: seq<real>)
    requires forall i :: 0 <= i < |xs| ==> 0.0 <= xs[i] <= 100.0
    ensures 0.0 <= Mean(xs) <= 100.0
  {
    if xs != [] {
      MeanBetween(xs, 0.0, 100.0);
      Round2Exact(0);
      Round2Exact(10000);
    }
  }

  lemma {:induction false} SumNonNegative(xs: seq<real>)
    requires forall i :: 0 <= i < |xs| ==> 0.0 <= xs[i]
    ensures 0.0 <= Sum(xs)
  {
    if xs != [] {
      SumNonNegative(xs[1..]);
    }
  }

  /** The mean of non-negative values is non-negative. */
  lemma MeanNonNegative(xs: seq<real>)
    requires forall i :: 0 <= i < |xs| ==> 0.0 <= xs[i]
    ensures 0.0 <= Mean(xs)
  {
    if xs != [] {
      SumNonNegative(xs);
      DivideBounds(|xs| as real, 0.0, Sum(xs));
      Round2Monotone(0.0, Sum(xs) / |xs| as real);
      Round2Exact(0);
    }
  }
}
