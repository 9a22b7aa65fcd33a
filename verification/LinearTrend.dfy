/** The slope of a simple linear regression of a series against its own indices. */
module LinearTrend {
  import opened RealSeq

  function Times(a: real, b: real): real {
    a * b
  }

  // Sums over a series `y`, besides that of its values: of indices, squared indices and products.

  function SumX(n: nat): real {
    if n == 0 then 0.0 else SumX(n - 1) + (n - 1) as real
  }

  function SumXX(n: nat): real {
    if n == 0 then 0.0 else SumXX(n - 1) + Times((n - 1) as real, (n - 1) as real)
  }

  function SumXY(y: seq<real>): real {
    if y == [] then 0.0 else SumXY(y[..|y| - 1]) + Times((|y| - 1) as real, y[|y| - 1])
  }

  function Denominator(n: nat): real {
    n as real * SumXX(n) - SumX(n) * SumX(n)
  }

  /** The slope, where it is defined. */
  function Slope(y: seq<real>): real {
    SlopeFromSums(|y|, SumX(|y|), Sum(y), SumXY(y), SumXX(|y|))
  }

  method CalculateLinearTrend(values: seq<real>) returns (slope: real)
    ensures |values| < 2 ==> slope == 0.0
    ensures |values| >= 2 ==> slope == Slope(values)
  {
    hide Times, SlopeFromSums;
    var n := |values|;
    if n < 2 {
      return 0.0;
    }
    var sumX, sumY, sumXY, sumXX := 0.0, 0.0, 0.0, 0.0;
    for i := 0 to n
      invariant sumX == SumX(i) && sumXX == SumXX(i)
      invariant sumY == Sum(values[..i]) && sumXY == SumXY(values[..i])
    {
      var x, y := i as real, values[i];
      assert values[..i + 1][..i] == values[..i];
      sumX := sumX + x;
      sumY := sumY + y;
      sumXY := sumXY + Times(x, y);
      sumXX := sumXX + Times(x, x);
    }
    assert values[..n] == values;
    slope := SlopeFromSums(n, sumX, sumY, sumXY, sumXX);
  }

  /** The final formula, with its guard against a zero denominator. */
  function SlopeFromSums(n: nat, sumX: real, sumY: real, sumXY: real, sumXX: real): real {
    var nf := n as real;
    var numerator := nf * sumXY - sumX * sumY;
    var denominator := nf * sumXX - sumX * sumX;
    if denominator == 0.0 then 0.0 else numerator / denominator
  }

  // ----- Closed forms -----

  lemma {:induction false} SumXClosed(n: nat)
    ensures 2.0 * SumX(n) == n as real * (n as real - 1.0)
  {
    if n > 0 {
      SumXClosed(n - 1);
      var m := (n - 1) as real;
      assert n as real == m + 1.0;
      assert m * (m - 1.0) + 2.0 * m == (m + 1.0) * m;
    }
  }

  lemma {:induction false} SumXXClosed(n: nat)
    ensures 6.0 * SumXX(n) == n as real * (n as real - 1.0) * (2.0 * n as real - 1.0)
  {
    if n > 0 {
      SumXXClosed(n - 1);
      SquareStep((n - 1) as real);
      assert n as real == (n - 1) as real + 1.0;
    }
  }

  lemma SquareStep(m: real)
    ensures m * (m - 1.0) * (2.0 * m - 1.0) + 6.0 * (m * m) == (m + 1.0) * m * (2.0 * (m + 1.0) - 1.0)
  {
  }

  /** The denominator is n²(n²-1)/12, so from two values on it is positive and the zero guard is dead. */
  lemma DenominatorClosed(n: nat)
    ensures 12.0 * Denominator(n) == n as real * n as real * (n as real * n as real - 1.0)
    ensures n >= 2 ==> Denominator(n) > 0.0
  {
    hide SumX, SumXX;
    SumXClosed(n);
    SumXXClosed(n);
    DenominatorAlgebra(n as real, SumX(n), SumXX(n));
  }

  lemma DenominatorAlgebra(n: real, sx: real, sxx: real)
    requires 2.0 * sx == n * (n - 1.0) && 6.0 * sxx == n * (n - 1.0) * (2.0 * n - 1.0)
    ensures 12.0 * (n * sxx - sx * sx) == n * n * (n * n - 1.0)
    ensures n >= 2.0 ==> n * sxx - sx * sx > 0.0
  {
    var t := n * (n - 1.0);
    assert 4.0 * (sx * sx) == t * t;
    assert 6.0 * (n * sxx) == n * (t * (2.0 * n - 1.0));
    assert 12.0 * (n * sxx - sx * sx) == 2.0 * (n * (t * (2.0 * n - 1.0))) - 3.0 * (t * t);
    assert 2.0 * (n * (t * (2.0 * n - 1.0))) - 3.0 * (t * t) == t * (2.0 * n * (2.0 * n - 1.0) - 3.0 * t);
    assert 2.0 * n * (2.0 * n - 1.0) - 3.0 * t == n * n + n;
    assert t * (n * n + n) == n * n * (n * n - 1.0);
    if n >= 2.0 {
      assert n * n >= 4.0;
      Positive(n * n, n * n - 1.0);
    }
  }

  lemma Positive(a: real, b: real)
    requires a > 0.0 && b > 0.0
    ensures a * b > 0.0
  {
  }

  // ----- What the slope means -----

  function Error(a: real, b: real, x: real, v: real): real {
    (v - (a * x + b)) * (v - (a * x + b))
  }

  /** Squared error of the line `a*i + b` against the series. */
  function SquaredError(y: seq<real>, a: real, b: real): real {
    if y == [] then 0.0
    else
      var i := |y| - 1;
      SquaredError(y[..i], a, b) + Error(a, b, i as real, y[i])
  }

  function SumYY(y: seq<real>): real {
    if y == [] then 0.0 else SumYY(y[..|y| - 1]) + Times(y[|y| - 1], y[|y| - 1])
  }

  /** The error as a quadratic in the five sums. */
  function ErrorForm(a: real, b: real, n: real, sx: real, sxx: real, sy: real, sxy: real, syy: real): real {
    syy - 2.0 * a * sxy - 2.0 * b * sy + a * a * sxx + 2.0 * a * b * sx + n * b * b
  }

  lemma {:induction false} ErrorExpansion(y: seq<real>, a: real, b: real)
    ensures SquaredError(y, a, b) == ErrorForm(a, b, |y| as real, SumX(|y|), SumXX(|y|), Sum(y), SumXY(y), SumYY(y))
  {
    if y != [] {
      hide ErrorForm, Times, Error;
      var i := |y| - 1;
      ErrorExpansion(y[..i], a, b);
      ErrorStep(a, b, i as real, SumX(i), SumXX(i), Sum(y[..i]), SumXY(y[..i]), SumYY(y[..i]), i as real, y[i]);
      assert |y| as real == i as real + 1.0;
    }
  }

  lemma ErrorStep(a: real, b: real, n: real, sx: real, sxx: real, sy: real, sxy: real, syy: real, x: real, v: real)
    ensures ErrorForm(a, b, n + 1.0, sx + x, sxx + Times(x, x), sy + v, sxy + Times(x, v), syy + Times(v, v))
         == ErrorForm(a, b, n, sx, sxx, sy, sxy, syy) + Error(a, b, x, v)
  {
    var e := a * x + b;
    assert (v - e) * (v - e) == v * v - 2.0 * v * e + e * e;
    assert e * e == a * a * (x * x) + 2.0 * a * b * x + b * b;
    assert 2.0 * v * e == 2.0 * a * (x * v) + 2.0 * b * v;
    assert 2.0 * a * (sxy + x * v) == 2.0 * a * sxy + 2.0 * a * (x * v);
    assert a * a * (sxx + x * x) == a * a * sxx + a * a * (x * x);
    assert 2.0 * a * b * (sx + x) == 2.0 * a * b * sx + 2.0 * a * b * x;
    assert (n + 1.0) * b * b == n * b * b + b * b;
  }

  /** The least-squares intercept that goes with a slope. */
  function Intercept(y: seq<real>): real
    requires y != []
  {
    (Sum(y) - Slope(y) * SumX(|y|)) / |y| as real
  }

  /** From two values on, the line with the computed slope has the smallest squared error, and no other
      line reaches it. */
  lemma SlopeIsLeastSquares(y: seq<real>, a: real, b: real)
    requires |y| >= 2
    ensures SquaredError(y, Slope(y), Intercept(y)) <= SquaredError(y, a, b)
    ensures SquaredError(y, a, b) == SquaredError(y, Slope(y), Intercept(y)) ==> a == Slope(y) && b == Intercept(y)
  {
    hide SumX, SumXX, Sum, SumXY, SumYY, SquaredError, ErrorForm;
    DenominatorClosed(|y|);
    var n := |y| as real;
    ErrorExpansion(y, a, b);
    ErrorExpansion(y, Slope(y), Intercept(y));
    LeastSquares(n, SumX(|y|), SumXX(|y|), Sum(y), SumXY(y), SumYY(y), Slope(y), Intercept(y), a, b);
  }

  /** Completing the square: with d = n·Σx² - (Σx)² and the normal equations, the excess error of any
      line is (n(b-b₀) + Σx(a-a₀))²/n + d(a-a₀)²/n. */
  lemma LeastSquares(n: real, sx: real, sxx: real, sy: real, sxy: real, syy: real, a0: real, b0: real, a: real, b: real)
    requires n > 0.0 && n * sxx - sx * sx > 0.0
    requires a0 == (n * sxy - sx * sy) / (n * sxx - sx * sx) && b0 == (sy - a0 * sx) / n
    ensures ErrorForm(a0, b0, n, sx, sxx, sy, sxy, syy) <= ErrorForm(a, b, n, sx, sxx, sy, sxy, syy)
    ensures ErrorForm(a, b, n, sx, sxx, sy, sxy, syy) == ErrorForm(a0, b0, n, sx, sxx, sy, sxy, syy) ==>
      a == a0 && b == b0
  {
    NormalEquations(n, sx, sxx, sy, sxy, a0, b0);
    var p, q := a - a0, b - b0;
    ExcessError(n, sx, sxx, sy, sxy, syy, a0, b0, p, q);
    QuadraticNonNegative(n, sx, sxx, p, q);
    assert a == a0 + p && b == b0 + q;
  }

  lemma NormalEquations(n: real, sx: real, sxx: real, sy: real, sxy: real, a0: real, b0: real)
    requires n > 0.0 && n * sxx - sx * sx > 0.0
    requires a0 == (n * sxy - sx * sy) / (n * sxx - sx * sx) && b0 == (sy - a0 * sx) / n
    ensures a0 * sx + n * b0 == sy
    ensures a0 * sxx + b0 * sx == sxy
  {
    var d := n * sxx - sx * sx;
    assert a0 * d == n * sxy - sx * sy;
    assert n * b0 == sy - a0 * sx;
    assert n * (a0 * sxx + b0 * sx) == a0 * (n * sxx) + sx * (n * b0);
    assert sx * (n * b0) == sx * sy - a0 * (sx * sx);
    assert a0 * (n * sxx) - a0 * (sx * sx) == a0 * d;
    assert n * (a0 * sxx + b0 * sx) == n * sxy;
    Cancel(n, a0 * sxx + b0 * sx, sxy);
  }

  lemma Cancel(n: real, u: real, v: real)
    requires n != 0.0 && n * u == n * v
    ensures u == v
  {
  }

  lemma ExcessError(n: real, sx: real, sxx: real, sy: real, sxy: real, syy: real, a0: real, b0: real, p: real, q: real)
    requires a0 * sx + n * b0 == sy && a0 * sxx + b0 * sx == sxy
    ensures ErrorForm(a0 + p, b0 + q, n, sx, sxx, sy, sxy, syy)
         == ErrorForm(a0, b0, n, sx, sxx, sy, sxy, syy) + (p * p * sxx + 2.0 * p * q * sx + n * q * q)
  {
    assert 2.0 * p * sxy == 2.0 * p * a0 * sxx + 2.0 * p * b0 * sx;
    assert 2.0 * q * sy == 2.0 * q * a0 * sx + 2.0 * q * (n * b0);
    assert (a0 + p) * (a0 + p) * sxx == a0 * a0 * sxx + 2.0 * p * a0 * sxx + p * p * sxx;
    assert 2.0 * (a0 + p) * (b0 + q) * sx
        == 2.0 * a0 * b0 * sx + 2.0 * q * a0 * sx + 2.0 * p * b0 * sx + 2.0 * p * q * sx;
    assert n * (b0 + q) * (b0 + q) == n * b0 * b0 + 2.0 * q * (n * b0) + n * q * q;
  }

  lemma QuadraticNonNegative(n: real, sx: real, sxx: real, p: real, q: real)
    requires n > 0.0 && n * sxx - sx * sx > 0.0
    ensures p * p * sxx + 2.0 * p * q * sx + n * q * q >= 0.0
    ensures p != 0.0 || q != 0.0 ==> p * p * sxx + 2.0 * p * q * sx + n * q * q > 0.0
  {
    var e, d, u := p * p * sxx + 2.0 * p * q * sx + n * q * q, n * sxx - sx * sx, n * q + p * sx;
    assert n * e == u * u + p * p * d by {
      assert n * (p * p * sxx) == p * p * (n * sxx);
      assert u * u == n * n * q * q + 2.0 * n * q * (p * sx) + (p * sx) * (p * sx);
      assert (p * sx) * (p * sx) == p * p * (sx * sx);
      assert p * p * d == p * p * (n * sxx) - p * p * (sx * sx);
    }
    SquareSign(u);
    SquareSign(p);
    MulSign(p * p, d);
    Sign(n, e);
    if p != 0.0 {
      var square := p * p;
      SquarePositive(p, square);
      Positive(square, d);
    } else if q != 0.0 {
      var square := q * q;
      SquarePositive(q, square);
      Positive(n, square);
      assert e == n * square;
    }
  }

  lemma SquareSign(x: real)
    ensures x * x >= 0.0
  {
  }

  lemma SquarePositive(x: real, square: real)
    requires x != 0.0 && square == x * x
    ensures square > 0.0
  {
    if x > 0.0 {
      PositiveProduct(x, x, square);
    } else {
      assert square == (-x) * (-x);
      PositiveProduct(-x, -x, square);
    }
  }

  lemma PositiveProduct(a: real, b: real, c: real)
    requires a > 0.0 && b > 0.0 && c == a * b
    ensures c > 0.0
  {
  }

  lemma Sign(n: real, e: real)
    requires n > 0.0 && n * e >= 0.0
    ensures e >= 0.0 && (n * e > 0.0 ==> e > 0.0)
  {
    if e < 0.0 {
      Positive(n, -e);
    }
  }

  // ----- Exactness and invariance -----

  /** A line, and a series shifted by a constant. */
  function Line(n: nat, a: real, b: real): (s: seq<real>)
    ensures |s| == n && forall i | 0 <= i < n :: s[i] == OnLine(a, b, i as real)
  {
    seq(n, i => OnLine(a, b, i as real))
  }

  function OnLine(a: real, b: real, x: real): real {
    a * x + b
  }

  /** The sums of a line's values and products. */
  function LineY(n: real, sx: real, a: real, b: real): real {
    a * sx + n * b
  }

  function LineXY(sx: real, sxx: real, a: real, b: real): real {
    a * sxx + b * sx
  }

  function Shifted(y: seq<real>, c: real): (s: seq<real>)
    ensures |s| == |y| && forall i | 0 <= i < |y| :: s[i] == y[i] + c
  {
    seq(|y|, i requires 0 <= i < |y| => y[i] + c)
  }

  lemma {:induction false} LineSums(n: nat, a: real, b: real)
    ensures Sum(Line(n, a, b)) == LineY(n as real, SumX(n), a, b)
    ensures SumXY(Line(n, a, b)) == LineXY(SumX(n), SumXX(n), a, b)
  {
    var y := Line(n, a, b);
    if n > 0 {
      hide Times, SumX, SumXX, OnLine, LineY, LineXY, Line;
      LineSums(n - 1, a, b);
      assert y[..n - 1] == Line(n - 1, a, b);
      UnfoldSums(n);
      LineStep((n - 1) as real, SumX(n - 1), SumXX(n - 1), a, b);
      assert n as real == (n - 1) as real + 1.0;
    }
  }

  lemma UnfoldSums(n: nat)
    requires n > 0
    ensures SumX(n) == SumX(n - 1) + (n - 1) as real
    ensures SumXX(n) == SumXX(n - 1) + Times((n - 1) as real, (n - 1) as real)
  {
    hide Times;
  }

  lemma LineStep(x: real, sx: real, sxx: real, a: real, b: real)
    ensures LineY(x, sx, a, b) + OnLine(a, b, x) == LineY(x + 1.0, sx + x, a, b)
    ensures LineXY(sx, sxx, a, b) + Times(x, OnLine(a, b, x)) == LineXY(sx + x, sxx + Times(x, x), a, b)
  {
    assert a * (sx + x) == a * sx + a * x;
    assert x * (a * x + b) == a * (x * x) + b * x;
    assert a * (sxx + x * x) == a * sxx + a * (x * x);
    assert b * (sx + x) == b * sx + b * x;
  }

  /** The slope of a straight line is exact. */
  lemma SlopeOfLine(n: nat, a: real, b: real)
    requires n >= 2
    ensures Slope(Line(n, a, b)) == a
  {
    hide SumX, SumXX, Sum, SumXY, Line, LineY, LineXY;
    LineSums(n, a, b);
    DenominatorClosed(n);
    LineAlgebra(n as real, SumX(n), SumXX(n), a, b);
  }

  lemma LineAlgebra(n: real, sx: real, sxx: real, a: real, b: real)
    requires n * sxx - sx * sx > 0.0
    ensures (n * LineXY(sx, sxx, a, b) - sx * LineY(n, sx, a, b)) / (n * sxx - sx * sx) == a
  {
    var d := n * sxx - sx * sx;
    assert n * (a * sxx + b * sx) - sx * (a * sx + n * b) == a * d by {
      assert n * (a * sxx + b * sx) == a * (n * sxx) + n * b * sx;
      assert sx * (a * sx + n * b) == a * (sx * sx) + n * b * sx;
    }
    DivideBack(a, d);
  }

  lemma DivideBack(a: real, d: real)
    requires d > 0.0
    ensures a * d / d == a
  {
  }

  lemma {:induction false} ShiftedSums(y: seq<real>, c: real)
    ensures Sum(Shifted(y, c)) == Sum(y) + |y| as real * c
    ensures SumXY(Shifted(y, c)) == SumXY(y) + c * SumX(|y|)
  {
    if y != [] {
      hide Times, SumX, SumXX;
      var i := |y| - 1;
      ShiftedSums(y[..i], c);
      assert Shifted(y, c)[..i] == Shifted(y[..i], c);
      UnfoldSums(|y|);
      ShiftStep(SumX(i), i as real, y[i], c);
      assert |y| as real == i as real + 1.0;
    }
  }

  lemma ShiftStep(sx: real, x: real, v: real, c: real)
    ensures Times(x, v + c) + c * sx == Times(x, v) + c * (sx + x)
    ensures x * c + c == (x + 1.0) * c
  {
    assert x * (v + c) == x * v + c * x;
    assert c * (sx + x) == c * sx + c * x;
  }

  /** Adding a constant to every value leaves the slope unchanged. */
  lemma SlopeShiftInvariant(y: seq<real>, c: real)
    ensures Slope(Shifted(y, c)) == Slope(y)
  {
    hide SumX, SumXX, Sum, SumXY;
    ShiftedSums(y, c);
    var n, sx := |y| as real, SumX(|y|);
    assert n * (SumXY(y) + c * sx) - sx * (Sum(y) + n * c) == n * SumXY(y) - sx * Sum(y) by {
      assert n * (SumXY(y) + c * sx) == n * SumXY(y) + n * c * sx;
      assert sx * (Sum(y) + n * c) == sx * Sum(y) + n * c * sx;
    }
  }
}
