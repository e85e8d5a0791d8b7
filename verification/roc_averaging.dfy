/**
 * Mean ROC aggregation of cross-validation (pipeline.py, `Classification.perform_cv`).
 * Each fold contributes its true-positive-rate curve interpolated onto a fixed
 * 100-point false-positive-rate grid; `roc_curve` and the interpolation are
 * library work, so the per-fold interpolated curves are the input here. The
 * curves are summed fold by fold with the first point forced to 0.0 after
 * every fold, the sum is divided by the fold count, and the last point is
 * pinned to 1.0.
 */
module RocAveraging {
  import opened Wrappers
  import opened Sums

  /** Number of points of the false-positive-rate grid (`np.linspace(0, 1, 100)`). */
  const GridPoints: nat := 100

  /** The false-positive-rate grid: 100 evenly spaced points from 0 to 1. */
  function MeanFpr(): (g: seq<real>)
    ensures |g| == GridPoints
    ensures g[0] == 0.0 && g[GridPoints - 1] == 1.0
    ensures forall i, j :: 0 <= i < j < GridPoints ==> g[i] < g[j]
  {
    seq(GridPoints, i requires 0 <= i < GridPoints => i as real / (GridPoints - 1) as real)
  }

  /** Every fold's interpolated curve lies on the grid. */
  ghost predicate OnGrid(curves: seq<seq<real>>)
  {
    forall f :: 0 <= f < |curves| ==> |curves[f]| == GridPoints
  }

  /** The values of grid point `i` across all folds, in fold order. */
  function AtPoint(curves: seq<seq<real>>, i: nat): (c: seq<real>)
    requires OnGrid(curves) && i < GridPoints
    ensures |c| == |curves|
    ensures forall f :: 0 <= f < |curves| ==> c[f] == curves[f][i]
  {
    seq(|curves|, f requires 0 <= f < |curves| => curves[f][i])
  }

  /**
   * The running accumulator after the given folds: each fold's curve is added
   * and then its first point is reset to 0.0. Before any fold pipeline.py's
   * accumulator is the scalar 0.0, which numpy broadcasts to a zero curve.
   */
  function Accumulate(curves: seq<seq<real>>): (acc: seq<real>)
    requires OnGrid(curves)
    ensures |acc| == GridPoints
    ensures acc[0] == 0.0
    ensures forall i :: 0 < i < GridPoints ==> acc[i] == Sum(AtPoint(curves, i))
    decreases |curves|
  {
    if |curves| == 0 then seq(GridPoints, _ => 0.0)
    else
      var n := |curves| - 1;
      var prev := Accumulate(curves[..n]);
      assert forall i :: 0 < i < GridPoints ==> AtPoint(curves, i)[..n] == AtPoint(curves[..n], i);
      Add(prev, curves[n])[0 := 0.0]
  }

  /** Failure of the averaging step: with no fold the accumulator stays a scalar and cannot be indexed. */
  datatype CvError = NoFolds

  /** The mean true-positive-rate curve over all folds. */
  function MeanTpr(curves: seq<seq<real>>): (r: Result<seq<real>, CvError>)
    requires OnGrid(curves)
    ensures r.Failure? <==> |curves| == 0
    ensures r.Success? ==> |r.value| == GridPoints
    ensures r.Success? ==> r.value[0] == 0.0 && r.value[GridPoints - 1] == 1.0
    ensures r.Success? ==>
              forall i :: 0 < i < GridPoints - 1 ==> r.value[i] == Sum(AtPoint(curves, i)) / |curves| as real
  {
    if |curves| == 0 then Failure(NoFolds)
    else Success(Divide(Accumulate(curves), |curves| as real)[GridPoints - 1 := 1.0])
  }

  /** Every value of every fold curve lies in [0, 1], as a true-positive rate does. */
  ghost predicate RatesInUnitInterval(curves: seq<seq<real>>)
    requires OnGrid(curves)
  {
    forall f, i :: 0 <= f < |curves| && 0 <= i < GridPoints ==> 0.0 <= curves[f][i] <= 1.0
  }

  /** Every fold curve is non-decreasing along the grid, as an interpolated ROC curve is. */
  ghost predicate CurvesNonDecreasing(curves: seq<seq<real>>)
    requires OnGrid(curves)
  {
    forall f, i, j :: 0 <= f < |curves| && 0 <= i <= j < GridPoints ==> curves[f][i] <= curves[f][j]
  }

  /** A sum of `|s|` values from [0, 1] lies in [0, |s|]. */
  lemma {:induction false} SumOfRatesBounded(s: seq<real>)
    requires forall k :: 0 <= k < |s| ==> 0.0 <= s[k] <= 1.0
    ensures 0.0 <= Sum(s) <= |s| as real
    decreases |s|
  {
    if |s| > 0 {
      SumOfRatesBounded(s[..|s| - 1]);
    }
  }

  /** Summing two columns term by term preserves a term-wise order. */
  lemma {:induction false} SumMonotone(a: seq<real>, b: seq<real>)
    requires |a| == |b|
    requires forall k :: 0 <= k < |a| ==> a[k] <= b[k]
    ensures Sum(a) <= Sum(b)
    decreases |a|
  {
    if |a| > 0 {
      SumMonotone(a[..|a| - 1], b[..|b| - 1]);
    }
  }

  /** Dividing by a positive count keeps an order and maps [0, n] into [0, 1]. */
  lemma DivideByCount(x: real, y: real, n: real)
    requires n > 0.0 && x <= y
    ensures x / n <= y / n
    ensures 0.0 <= x ==> 0.0 <= x / n
    ensures y <= n ==> y / n <= 1.0
  {
    Quotient(x, n);
    Quotient(y, n);
    var gap := y / n - x / n;
    assert gap * n == y - x;
    NonNegativeFactor(gap, n);
    if 0.0 <= x {
      NonNegativeFactor(x / n, n);
    }
    if y <= n {
      var room := 1.0 - y / n;
      assert room * n == n - y;
      NonNegativeFactor(room, n);
    }
  }

  /** A product with a positive factor is non-negative only when the other factor is. */
  lemma NonNegativeFactor(a: real, n: real)
    requires n > 0.0 && a * n >= 0.0
    ensures a >= 0.0
  {
  }

  /** The mean curve of rates is itself a rate curve: every point in [0, 1]. */
  lemma MeanTprInUnitInterval(curves: seq<seq<real>>)
    requires OnGrid(curves) && |curves| > 0
    requires RatesInUnitInterval(curves)
    ensures forall i :: 0 <= i < GridPoints ==> 0.0 <= MeanTpr(curves).value[i] <= 1.0
  {
    var m := MeanTpr(curves).value;
    var n := |curves| as real;
    forall i | 0 < i < GridPoints - 1
      ensures 0.0 <= m[i] <= 1.0
    {
      var total := Sum(AtPoint(curves, i));
      SumOfRatesBounded(AtPoint(curves, i));
      assert m[i] == total / n;
      DivideByCount(total, total, n);
    }
  }

  /**
   * When every fold curve is a non-decreasing rate curve, so is the mean:
   * the anchored endpoints 0.0 and 1.0 sit below and above every interior point.
   */
  lemma MeanTprNonDecreasing(curves: seq<seq<real>>)
    requires OnGrid(curves) && |curves| > 0
    requires RatesInUnitInterval(curves) && CurvesNonDecreasing(curves)
    ensures forall i, j :: 0 <= i <= j < GridPoints ==> MeanTpr(curves).value[i] <= MeanTpr(curves).value[j]
  {
    var m := MeanTpr(curves).value;
    var n := |curves| as real;
    MeanTprInUnitInterval(curves);
    forall i, j | 0 < i <= j < GridPoints - 1
      ensures m[i] <= m[j]
    {
      SumMonotone(AtPoint(curves, i), AtPoint(curves, j));
      assert m[i] == Sum(AtPoint(curves, i)) / n;
      assert m[j] == Sum(AtPoint(curves, j)) / n;
      DivideByCount(Sum(AtPoint(curves, i)), Sum(AtPoint(curves, j)), n);
    }
  }
}
