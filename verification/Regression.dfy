/** The least squares fit of ir-perf/run_benchmarks.py, over the real numbers. */
module Regression {

  datatype Fit = NoFit | LengthMismatch | Fit(slope: real, intercept: real, rSquared: real)

  // ----- sums over the points

  /** A product, named so that proofs about sums need not look inside it. */
  function Times(a: real, b: real): real {
    a * b
  }

  function Sum(s: seq<real>): real {
    if s == [] then 0.0 else Sum(s[..|s| - 1]) + s[|s| - 1]
  }

  function Dot(x: seq<real>, y: seq<real>): real
    requires |x| == |y|
  {
    if x == [] then 0.0 else Dot(x[..|x| - 1], y[..|y| - 1]) + Times(x[|x| - 1], y[|y| - 1])
  }

  /** How far a point is above the line. */
  function Miss(x: real, y: real, m: real, b: real): real {
    y - (m * x + b)
  }

  function Square(e: real): (r: real)
    ensures r >= 0.0
  {
    e * e
  }

  /** The squared distances of the points from the line. */
  function Errors(x: seq<real>, y: seq<real>, m: real, b: real): (r: real)
    requires |x| == |y|
    ensures r >= 0.0
  {
    if x == [] then 0.0
    else Errors(x[..|x| - 1], y[..|y| - 1], m, b) + Square(Miss(x[|x| - 1], y[|y| - 1], m, b))
  }

  function Denominator(n: real, sx: real, sxx: real): real {
    n * sxx - sx * sx
  }

  function Slope(n: real, sx: real, sy: real, sxx: real, sxy: real): real
    requires Denominator(n, sx, sxx) != 0.0
  {
    (n * sxy - sx * sy) / Denominator(n, sx, sxx)
  }

  function Intercept(n: real, sx: real, sy: real, slope: real): real
    requires n != 0.0
  {
    (sy - slope * sx) / n
  }

  function Mean(n: real, s: real): real
    requires n != 0.0
  {
    s / n
  }

  function RSquared(ssRes: real, ssTot: real): real {
    if ssTot > 0.0 then 1.0 - ssRes / ssTot else 0.0
  }

  /** linear_regression. */
  function LinearRegression(x: seq<real>, y: seq<real>): Fit {
    if |x| < 2 then NoFit
    else if |y| != |x| then LengthMismatch
    else
      var n := |x| as real;
      var sx, sy, sxy, sxx := Sum(x), Sum(y), Dot(x, y), Dot(x, x);
      if Denominator(n, sx, sxx) == 0.0 then NoFit
      else
        var slope := Slope(n, sx, sy, sxx, sxy);
        var intercept := Intercept(n, sx, sy, slope);
        Fit(slope, intercept, RSquared(Errors(x, y, slope, intercept), Errors(x, y, 0.0, Mean(n, sy))))
  }

  // ----- residuals

  /** The sum of the residuals. */
  function Residuals(x: seq<real>, y: seq<real>, m: real, b: real): real
    requires |x| == |y|
  {
    if x == [] then 0.0
    else Residuals(x[..|x| - 1], y[..|y| - 1], m, b) + Miss(x[|x| - 1], y[|y| - 1], m, b)
  }

  /** Their sum weighted by x. */
  function Weighted(x: seq<real>, y: seq<real>, m: real, b: real): real
    requires |x| == |y|
  {
    if x == [] then 0.0
    else Weighted(x[..|x| - 1], y[..|y| - 1], m, b) + Times(Miss(x[|x| - 1], y[|y| - 1], m, b), x[|x| - 1])
  }

  lemma Distribute(a: real, b: real, c: real)
    ensures Times(a, b + c) == Times(a, b) + Times(a, c)
    ensures Times(a, 0.0) == 0.0 && Times(a, 1.0) == a
  {
  }

  lemma {:induction false} ResidualSum(x: seq<real>, y: seq<real>, m: real, b: real)
    requires |x| == |y|
    ensures Residuals(x, y, m, b) == Sum(y) - Times(m, Sum(x)) - Times(b, |x| as real)
  {
    hide Times, Miss;
    if x == [] {
      Distribute(m, 0.0, 0.0);
      Distribute(b, 0.0, 0.0);
    } else {
      var n := |x| - 1;
      ResidualSum(x[..n], y[..n], m, b);
      MissIs(x[n], y[n], m, b);
      Distribute(m, Sum(x[..n]), x[n]);
      Distribute(b, n as real, 1.0);
      assert |x| as real == n as real + 1.0;
    }
  }

  lemma {:induction false} WeightedSum(x: seq<real>, y: seq<real>, m: real, b: real)
    requires |x| == |y|
    ensures Weighted(x, y, m, b) == Dot(x, y) - Times(m, Dot(x, x)) - Times(b, Sum(x))
  {
    hide Times, Miss;
    if x == [] {
      Distribute(m, 0.0, 0.0);
      Distribute(b, 0.0, 0.0);
    } else {
      var n := |x| - 1;
      WeightedSum(x[..n], y[..n], m, b);
      MissIs(x[n], y[n], m, b);
      Distribute(m, Dot(x[..n], x[..n]), Times(x[n], x[n]));
      Distribute(b, Sum(x[..n]), x[n]);
    }
  }

  lemma MissIs(x: real, y: real, m: real, b: real)
    ensures Miss(x, y, m, b) == y - Times(m, x) - b
    ensures Times(Miss(x, y, m, b), x) == Times(x, y) - Times(m, Times(x, x)) - Times(b, x)
  {
    assert (y - m * x - b) * x == x * y - m * (x * x) - b * x;
  }

  /** The squared values of a line on the points. */
  function Squares(x: seq<real>, d: real, e: real): (r: real)
    ensures r >= 0.0
  {
    if x == [] then 0.0 else Squares(x[..|x| - 1], d, e) + Square(Times(d, x[|x| - 1]) + e)
  }

  /** Moving a line by d and e changes the errors by a square and a term in the residuals. */
  lemma {:induction false} ErrorsMoved(x: seq<real>, y: seq<real>, m: real, b: real, d: real, e: real)
    requires |x| == |y|
    ensures Errors(x, y, m + d, b + e)
            == Errors(x, y, m, b) + Squares(x, d, e)
               - 2.0 * (Times(d, Weighted(x, y, m, b)) + Times(e, Residuals(x, y, m, b)))
  {
    hide Times, Miss, Square;
    if x == [] {
      Distribute(d, 0.0, 0.0);
      Distribute(e, 0.0, 0.0);
    } else {
      var n := |x| - 1;
      ErrorsMoved(x[..n], y[..n], m, b, d, e);
      SquareMoved(x[n], y[n], m, b, d, e);
      var t := Miss(x[n], y[n], m, b);
      Distribute(d, Weighted(x[..n], y[..n], m, b), Times(t, x[n]));
      Distribute(e, Residuals(x[..n], y[..n], m, b), t);
    }
  }

  lemma SquareMoved(x: real, y: real, m: real, b: real, d: real, e: real)
    ensures var t := Miss(x, y, m, b);
            Square(Miss(x, y, m + d, b + e))
            == Square(t) + Square(Times(d, x) + e) - 2.0 * (Times(d, Times(t, x)) + Times(e, t))
  {
    var t, v := Miss(x, y, m, b), d * x + e;
    assert Miss(x, y, m + d, b + e) == t - v by {
      assert (m + d) * x == m * x + d * x;
    }
    hide Miss;
    Expand(t, v);
    assert t * v == d * (t * x) + e * t;
  }

  lemma Expand(t: real, v: real)
    ensures (t - v) * (t - v) == t * t + v * v - 2.0 * (t * v)
  {
  }

  // ----- the fit

  /** The normal equations: the residuals of the fit sum to zero, plainly and weighted. */
  lemma NormalEquations(x: seq<real>, y: seq<real>)
    requires LinearRegression(x, y).Fit?
    ensures var f := LinearRegression(x, y);
            |x| == |y| && Residuals(x, y, f.slope, f.intercept) == 0.0 && Weighted(x, y, f.slope, f.intercept) == 0.0
  {
    hide Times, Residuals, Weighted, Sum, Dot, Errors, Slope, Intercept, Denominator, RSquared, Mean;
    var f, n := LinearRegression(x, y), |x| as real;
    ResidualSum(x, y, f.slope, f.intercept);
    WeightedSum(x, y, f.slope, f.intercept);
    SolveNormal(n, Sum(x), Sum(y), Dot(x, x), Dot(x, y));
  }

  lemma SolveNormal(n: real, sx: real, sy: real, sxx: real, sxy: real)
    requires n > 0.0 && Denominator(n, sx, sxx) != 0.0
    ensures var m := Slope(n, sx, sy, sxx, sxy);
            var b := Intercept(n, sx, sy, m);
            sy - Times(m, sx) - Times(b, n) == 0.0 && sxy - Times(m, sxx) - Times(b, sx) == 0.0
  {
    var m := Slope(n, sx, sy, sxx, sxy);
    var b := Intercept(n, sx, sy, m);
    Quotient(b, sy - m * sx, n);
    Quotient(m, n * sxy - sx * sy, n * sxx - sx * sx);
    Eliminate(n, sx, sy, sxx, sxy, m, b);
    ZeroProduct(n, sxy - m * sxx - b * sx);
  }

  lemma Quotient(m: real, p: real, q: real)
    requires q != 0.0 && m == p / q
    ensures m * q == p
  {
  }

  lemma Eliminate(n: real, sx: real, sy: real, sxx: real, sxy: real, m: real, b: real)
    requires b * n == sy - m * sx && m * (n * sxx - sx * sx) == n * sxy - sx * sy
    ensures n * (sxy - m * sxx - b * sx) == 0.0
  {
    assert n * (b * sx) == (b * n) * sx == (sy - m * sx) * sx == sx * sy - m * (sx * sx);
    assert m * (n * sxx - sx * sx) == n * (m * sxx) - m * (sx * sx);
    assert n * (sxy - m * sxx - b * sx) == n * sxy - n * (m * sxx) - n * (b * sx);
  }

  lemma ZeroProduct(n: real, z: real)
    requires n > 0.0 && n * z == 0.0
    ensures z == 0.0
  {
  }

  lemma SquareZero(e: real)
    ensures Square(e) == 0.0 <==> e == 0.0
  {
    assert Square(0.0) == 0.0;
    hide Square;
    SquareNegated(e);
    if e > 0.0 {
      SquarePositive(e);
    } else if e < 0.0 {
      SquarePositive(-e);
    }
  }

  lemma SquareNegated(e: real)
    ensures Square(-e) == Square(e)
  {
    var d := -e;
    assert Square(d) == Times(d, d) && Square(e) == Times(e, e) && Times(d, e) == Times(e, d);
    hide Times, Square;
    Distribute(d, d, e);
    Distribute(e, d, e);
    assert d + e == 0.0;
  }

  lemma SquarePositive(e: real)
    requires e > 0.0
    ensures Square(e) > 0.0
  {
    assert Square(e) == Times(e, e);
    PositiveProduct(e, e);
    hide Square;
    assert Times(e, e) > 0.0;
  }

  lemma {:induction false} SquaresZero(x: seq<real>, d: real, e: real)
    ensures Squares(x, d, e) == 0.0 <==> forall i :: 0 <= i < |x| ==> Times(d, x[i]) + e == 0.0
  {
    hide Times, Square;
    if x != [] {
      var n := |x| - 1;
      SquaresZero(x[..n], d, e);
      SquareZero(Times(d, x[n]) + e);
      if i :| 0 <= i < n && Times(d, x[..n][i]) + e != 0.0 {
        assert Times(d, x[i]) + e != 0.0;
      } else {
        assert forall i :: 0 <= i < n ==> x[i] == x[..n][i];
      }
    }
  }

  ghost predicate AllEqual(s: seq<real>) {
    forall i, j :: 0 <= i < |s| && 0 <= j < |s| ==> s[i] == s[j]
  }

  lemma {:induction false} SquaresExpand(x: seq<real>, e: real)
    ensures Squares(x, 1.0, e) == Dot(x, x) + 2.0 * Times(e, Sum(x)) + Times(|x| as real, Times(e, e))
  {
    if x == [] {
    } else {
      hide Times, Square;
      var n := |x| - 1;
      SquaresExpand(x[..n], e);
      Distribute(e, Sum(x[..n]), x[n]);
      assert |x| as real == n as real + 1.0;
      ExpandOne(x[n], e, n as real);
    }
  }

  lemma ExpandOne(x: real, e: real, n: real)
    ensures Square(Times(1.0, x) + e) == Times(x, x) + 2.0 * Times(e, x) + Times(e, e)
    ensures Times(n + 1.0, Times(e, e)) == Times(n, Times(e, e)) + Times(e, e)
  {
    assert (x + e) * (x + e) == x * x + 2.0 * (e * x) + e * e;
    var ee := e * e;
    assert (n + 1.0) * ee == n * ee + ee;
  }

  /** The denominator vanishes exactly when all x are equal. */
  lemma DenominatorZeroIff(x: seq<real>)
    requires |x| > 0
    ensures Denominator(|x| as real, Sum(x), Dot(x, x)) == 0.0 <==> AllEqual(x)
  {
    hide Times, Sum, Dot, Squares, Denominator, Mean;
    var n := |x| as real;
    var mean := Mean(n, Sum(x));
    SquaresExpand(x, -mean);
    SquaresZero(x, 1.0, -mean);
    Variance(n, Sum(x), Dot(x, x), Squares(x, 1.0, -mean));
    forall i | 0 <= i < |x|
      ensures Times(1.0, x[i]) + -mean == 0.0 <==> x[i] == mean
    {
      TimesOne(x[i]);
    }
    if AllEqual(x) {
      SumEqual(x, x[0]);
    }
  }

  lemma TimesOne(x: real)
    ensures Times(1.0, x) == x
  {
  }

  lemma Variance(n: real, sx: real, sxx: real, q: real)
    requires n > 0.0
    requires var e := -Mean(n, sx); q == sxx + 2.0 * Times(e, sx) + Times(n, Times(e, e))
    ensures Denominator(n, sx, sxx) == 0.0 <==> q == 0.0
  {
    var e := -Mean(n, sx);
    NegMean(n, sx);
    Complete(n, sx, sxx, q, e);
    if n * q == 0.0 {
      ZeroProduct(n, q);
    }
  }

  lemma NegMean(n: real, sx: real)
    requires n > 0.0
    ensures n * -Mean(n, sx) == -sx
  {
    Quotient(Mean(n, sx), sx, n);
  }

  lemma Complete(n: real, sx: real, sxx: real, q: real, e: real)
    requires n * e == -sx && q == sxx + 2.0 * (e * sx) + n * (e * e)
    ensures n * sxx - sx * sx == n * q
  {
    assert n * (e * sx) == (n * e) * sx == -(sx * sx);
    assert n * (n * (e * e)) == (n * e) * (n * e) == sx * sx;
    assert n * q == n * sxx + 2.0 * (n * (e * sx)) + n * (n * (e * e));
  }

  lemma {:induction false} SumEqual(s: seq<real>, v: real)
    requires forall i :: 0 <= i < |s| ==> s[i] == v
    ensures Sum(s) == Times(|s| as real, v)
    ensures s != [] ==> Mean(|s| as real, Sum(s)) == v
  {
    if s != [] {
      var n := |s| - 1;
      SumEqual(s[..n], v);
      assert |s| as real == n as real + 1.0;
      assert (n as real + 1.0) * v == n as real * v + v;
      MeanOf(|s| as real, v);
    }
  }

  lemma MeanOf(n: real, v: real)
    requires n > 0.0
    ensures Mean(n, Times(n, v)) == v
  {
    var m := Mean(n, Times(n, v));
    Quotient(m, n * v, n);
    assert n * (m - v) == 0.0;
    ZeroProduct(n, m - v);
  }

  // ----- what the fit is

  /** There is no fit exactly for fewer than two points or points above one x; lists of different lengths
      are an error unless there are fewer than two x. */
  lemma NoFitIff(x: seq<real>, y: seq<real>)
    ensures LinearRegression(x, y) == NoFit <==> |x| < 2 || (|y| == |x| && AllEqual(x))
    ensures LinearRegression(x, y) == LengthMismatch <==> |x| >= 2 && |y| != |x|
  {
    hide Denominator, Slope, Intercept, RSquared, Sum, Dot, Errors, Mean, AllEqual;
    if |x| >= 2 {
      DenominatorZeroIff(x);
    }
  }

  /** Every other line is further from the points. */
  lemma LeastSquares(x: seq<real>, y: seq<real>, m: real, b: real)
    requires LinearRegression(x, y).Fit?
    ensures var f := LinearRegression(x, y);
            |x| == |y|
            && Errors(x, y, f.slope, f.intercept) <= Errors(x, y, m, b)
            && (Errors(x, y, m, b) == Errors(x, y, f.slope, f.intercept) <==> m == f.slope && b == f.intercept)
  {
    hide Times, Residuals, Weighted, Errors, Squares, AllEqual, LinearRegression;
    NormalEquations(x, y);
    NoFitIff(x, y);
    var f := LinearRegression(x, y);
    var d, e := m - f.slope, b - f.intercept;
    ErrorsMoved(x, y, f.slope, f.intercept, d, e);
    Distribute(d, 0.0, 0.0);
    Distribute(e, 0.0, 0.0);
    assert m == f.slope + d && b == f.intercept + e;
    OnlyZeroLine(x, d, e);
  }

  /** Over points that are not all above one x, only the zero line vanishes. */
  lemma OnlyZeroLine(x: seq<real>, d: real, e: real)
    requires !AllEqual(x)
    ensures Squares(x, d, e) == 0.0 <==> d == 0.0 && e == 0.0
  {
    hide Squares;
    SquaresZero(x, d, e);
    if Squares(x, d, e) == 0.0 {
      var i, j :| 0 <= i < |x| && 0 <= j < |x| && x[i] != x[j];
      assert Times(d, x[i]) + e == 0.0 && Times(d, x[j]) + e == 0.0;
      TwoPoints(d, e, x[i], x[j]);
    }
  }

  lemma TwoPoints(d: real, e: real, u: real, v: real)
    requires d * u + e == 0.0 && d * v + e == 0.0 && u != v
    ensures d == 0.0 && e == 0.0
  {
    assert d * (u - v) == 0.0;
    if u > v {
      ZeroProduct(u - v, d);
    } else {
      ZeroProduct(v - u, d);
    }
  }

  /** The reported quality lies between 0 and 1: 0 exactly for a level line, 1 exactly for a sloping line
      through every point. */
  lemma QualityRange(x: seq<real>, y: seq<real>)
    requires LinearRegression(x, y).Fit?
    ensures var f := LinearRegression(x, y);
            |x| == |y| && 0.0 <= f.rSquared <= 1.0
            && (f.rSquared == 0.0 <==> f.slope == 0.0)
            && (f.rSquared == 1.0 <==> f.slope != 0.0 && Errors(x, y, f.slope, f.intercept) == 0.0)
  {
    hide Times, Sum, Dot, Errors, Slope, Intercept, Denominator, RSquared, Mean;
    var f, n := LinearRegression(x, y), |x| as real;
    var mean := Mean(n, Sum(y));
    LeastSquares(x, y, 0.0, mean);
    LeastSquares(x, y, f.slope, f.intercept);
    var res, tot := Errors(x, y, f.slope, f.intercept), Errors(x, y, 0.0, mean);
    if f.slope == 0.0 {
      LevelIntercept(n, Sum(x), Sum(y));
      assert tot == res;
    }
    QualityOf(res, tot);
  }

  lemma LevelIntercept(n: real, sx: real, sy: real)
    requires n > 0.0
    ensures Intercept(n, sx, sy, 0.0) == Mean(n, sy)
  {
  }

  lemma QualityOf(res: real, tot: real)
    requires 0.0 <= res <= tot
    ensures 0.0 <= RSquared(res, tot) <= 1.0
    ensures RSquared(res, tot) == 0.0 <==> res == tot
    ensures RSquared(res, tot) == 1.0 <==> res == 0.0 && tot != res
  {
    if tot > 0.0 {
      var q := res / tot;
      Quotient(q, res, tot);
      assert tot * -q == -res;
      assert tot * (q - 1.0) == res - tot;
      if q < 0.0 {
        PositiveProduct(tot, -q);
      } else if q > 1.0 {
        PositiveProduct(tot, q - 1.0);
      }
      if res == 0.0 {
        ZeroProduct(tot, -q);
      } else if res == tot {
        ZeroProduct(tot, q - 1.0);
      }
    }
  }

  lemma PositiveProduct(a: real, b: real)
    requires a > 0.0 && b > 0.0
    ensures Times(a, b) > 0.0
  {
  }

  // ----- what the quality measures

  /** The quality is the part of the errors about the level line through the mean that the fit takes away. */
  lemma QualityIsExplained(x: seq<real>, y: seq<real>)
    requires LinearRegression(x, y).Fit?
    ensures |x| == |y| >= 2
    ensures var f, mean := LinearRegression(x, y), Sum(y) / |x| as real;
            var tot, res := Errors(x, y, 0.0, mean), Errors(x, y, f.slope, f.intercept);
            && f.rSquared * tot == tot - res
            && (tot == 0.0 ==> f.rSquared == 0.0)
  {
    hide *;
    FitParts(x, y);
    LeastSquares(x, y, 0.0, Sum(y) / |x| as real);
    var f := LinearRegression(x, y);
    ExplainedPart(Errors(x, y, f.slope, f.intercept), Errors(x, y, 0.0, Sum(y) / |x| as real));
  }

  lemma FitParts(x: seq<real>, y: seq<real>)
    requires LinearRegression(x, y).Fit?
    ensures |x| == |y| >= 2
    ensures var f, n := LinearRegression(x, y), |x| as real;
            && f.intercept == Intercept(n, Sum(x), Sum(y), f.slope)
            && f.rSquared == RSquared(Errors(x, y, f.slope, f.intercept), Errors(x, y, 0.0, Sum(y) / n))
  {
    hide Sum, Dot, Errors, Slope, Intercept, Denominator, RSquared;
  }

  lemma ExplainedPart(res: real, tot: real)
    requires 0.0 <= res <= tot
    ensures RSquared(res, tot) * tot == tot - res && (tot == 0.0 ==> RSquared(res, tot) == 0.0)
  {
    if tot > 0.0 {
      var q := res / tot;
      Quotient(q, res, tot);
      assert (1.0 - q) * tot == tot - q * tot;
    }
  }

  /** Stretching a line by d and moving it to zero at the mean stretches its values by d. */
  lemma {:induction false} SquaresScaled(x: seq<real>, d: real, e: real)
    ensures Squares(x, d, Times(d, e)) == Times(Times(d, d), Squares(x, 1.0, e))
  {
    if x == [] {
    } else {
      hide Times, Square;
      var n := |x| - 1;
      SquaresScaled(x[..n], d, e);
      ScaleOne(d, e, x[n]);
      Distribute(Times(d, d), Squares(x[..n], 1.0, e), Square(Times(1.0, x[n]) + e));
    }
  }

  lemma ScaleOne(d: real, e: real, x: real)
    ensures Square(Times(d, x) + Times(d, e)) == Times(Times(d, d), Square(Times(1.0, x) + e))
  {
    assert d * x + d * e == d * (x + e);
    SquareOfProduct(d, x + e);
  }

  lemma SquareOfProduct(d: real, v: real)
    ensures (d * v) * (d * v) == (d * d) * (v * v)
  {
  }

  /** The same as the spread of the fitted values: the squared slope times the spread of x. */
  lemma ExplainedVariance(x: seq<real>, y: seq<real>)
    requires LinearRegression(x, y).Fit?
    ensures |x| == |y| >= 2
    ensures var f, n := LinearRegression(x, y), |x| as real;
            f.rSquared * Errors(x, y, 0.0, Sum(y) / n) == f.slope * f.slope * Squares(x, 1.0, -(Sum(x) / n))
  {
    hide *;
    QualityIsExplained(x, y);
    NormalEquations(x, y);
    FitParts(x, y);
    var f, n := LinearRegression(x, y), |x| as real;
    var mx := Sum(x) / n;
    ThroughMeans(n, Sum(x), Sum(y), f.slope);
    var d, e := -f.slope, Times(-f.slope, -mx);
    ErrorsMoved(x, y, f.slope, f.intercept, d, e);
    assert f.slope + d == 0.0;
    Distribute(d, 0.0, 0.0);
    Distribute(e, 0.0, 0.0);
    SquaresScaled(x, d, -mx);
    Negated(f.slope, Squares(x, 1.0, -mx));
  }

  lemma Negated(m: real, s: real)
    ensures Times(Times(-m, -m), s) == m * m * s
  {
    assert -m * -m == m * m;
  }

  /** The fit goes through the point of the means. */
  lemma ThroughMeans(n: real, sx: real, sy: real, m: real)
    requires n > 0.0
    ensures Intercept(n, sx, sy, m) + Times(-m, -(sx / n)) == sy / n
  {
    var b := Intercept(n, sx, sy, m);
    Quotient(b, sy - m * sx, n);
    Quotient(sx / n, sx, n);
    Quotient(sy / n, sy, n);
    var mx, my := sx / n, sy / n;
    assert m * sx == m * (mx * n) == (m * mx) * n;
    assert (b + m * mx - my) * n == 0.0;
    ZeroProduct(n, b + m * mx - my);
  }

  lemma {:induction false} LevelErrors(x: seq<real>, y: seq<real>, b: real)
    requires |x| == |y|
    ensures Errors(x, y, 0.0, b) == Squares(y, 1.0, -b)
  {
    if x != [] {
      var n := |x| - 1;
      LevelErrors(x[..n], y[..n], b);
    }
  }

  /** n times the spread of a list, from its sums. */
  lemma Spread(s: seq<real>)
    requires |s| > 0
    ensures var n := |s| as real;
            n * Squares(s, 1.0, -(Sum(s) / n)) == n * Dot(s, s) - Sum(s) * Sum(s)
  {
    hide Sum, Dot, Squares;
    var n := |s| as real;
    var e := -(Sum(s) / n);
    SquaresExpand(s, e);
    NegMean(n, Sum(s));
    Complete(n, Sum(s), Dot(s, s), Squares(s, 1.0, e), e);
  }

  /** And the same as the squared correlation of the two lists. */
  lemma QualityIsCorrelation(x: seq<real>, y: seq<real>)
    requires LinearRegression(x, y).Fit?
    ensures |x| == |y| >= 2
    ensures var n, sx, sy := |x| as real, Sum(x), Sum(y);
            LinearRegression(x, y).rSquared * ((n * Dot(x, x) - sx * sx) * (n * Dot(y, y) - sy * sy))
            == (n * Dot(x, y) - sx * sy) * (n * Dot(x, y) - sx * sy)
  {
    hide *;
    ExplainedVariance(x, y);
    var f, n := LinearRegression(x, y), |x| as real;
    LevelErrors(x, y, Sum(y) / n);
    Spread(x);
    Spread(y);
    SlopeSolves(x, y);
    Correlation(f, n, Sum(x), Sum(y), Dot(x, x), Dot(y, y), Dot(x, y),
                Errors(x, y, 0.0, Sum(y) / n), Squares(x, 1.0, -(Sum(x) / n)));
  }

  lemma Correlation(f: Fit, n: real, sx: real, sy: real, sxx: real, syy: real, sxy: real, tot: real, spread: real)
    requires f.Fit? && f.rSquared * tot == f.slope * f.slope * spread
    requires n * spread == n * sxx - sx * sx && n * tot == n * syy - sy * sy
    requires f.slope * (n * sxx - sx * sx) == n * sxy - sx * sy
    ensures f.rSquared * ((n * sxx - sx * sx) * (n * syy - sy * sy)) == (n * sxy - sx * sy) * (n * sxy - sx * sy)
  {
    Correlate(f.rSquared, n * syy - sy * sy, n * sxx - sx * sx, n, tot, spread, f.slope, n * sxy - sx * sy);
  }

  lemma SlopeSolves(x: seq<real>, y: seq<real>)
    requires LinearRegression(x, y).Fit?
    ensures var n, sx, sy := |x| as real, Sum(x), Sum(y);
            |x| == |y| && LinearRegression(x, y).slope * (n * Dot(x, x) - sx * sx) == n * Dot(x, y) - sx * sy
  {
    hide Sum, Dot, Errors, RSquared, Intercept, Mean;
    SlopeOf(|x| as real, Sum(x), Sum(y), Dot(x, x), Dot(x, y));
    hide Slope;
  }

  lemma SlopeOf(n: real, sx: real, sy: real, sxx: real, sxy: real)
    requires Denominator(n, sx, sxx) != 0.0
    ensures Slope(n, sx, sy, sxx, sxy) * (n * sxx - sx * sx) == n * sxy - sx * sy
  {
    Quotient(Slope(n, sx, sy, sxx, sxy), n * sxy - sx * sy, n * sxx - sx * sx);
  }

  lemma Correlate(r: real, dy: real, dx: real, n: real, tot: real, spread: real, m: real, cov: real)
    requires r * tot == m * m * spread && dy == n * tot && dx == n * spread && m * dx == cov
    ensures r * (dx * dy) == cov * cov
  {
    calc {
      r * (dx * dy);
      (n * dx) * (r * tot);
      (n * dx) * (m * m * spread);
      (m * dx) * (m * (n * spread));
      cov * cov;
    }
  }
}
