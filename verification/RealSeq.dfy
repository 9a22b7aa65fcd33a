/** Sums, extremes and centred sums of finite sequences of reals: the plain recomputation that the
    incremental statistics are compared with. */
module RealSeq {

  /** A real number, or one of the two infinities that `min` and `max` start from. */
  datatype Ext = NegInf | Fin(v: real) | PosInf {
    predicate Below(that: Ext) {
      match (this, that)
      case (Fin(a), Fin(b)) => a < b
      case (NegInf, _) => !that.NegInf?
      case (PosInf, _) => false
      case (Fin(_), PosInf) => true
      case (Fin(_), NegInf) => false
    }
  }

  function Lesser(a: Ext, b: Ext): Ext {
    if b.Below(a) then b else a
  }

  function Greater(a: Ext, b: Ext): Ext {
    if a.Below(b) then b else a
  }

  /** A strict total order that agrees with the order of the reals. */
  lemma BelowIsStrictOrder(a: Ext, b: Ext, c: Ext)
    ensures !a.Below(a) && (a == b || a.Below(b) || b.Below(a)) && !(a.Below(b) && b.Below(a))
    ensures a.Below(b) && b.Below(c) ==> a.Below(c)
    ensures a.Fin? && b.Fin? ==> (a.Below(b) <==> a.v < b.v)
    ensures a.Fin? ==> NegInf.Below(a) && a.Below(PosInf)
  {
  }

  function Sum(s: seq<real>): real {
    if s == [] then 0.0 else Sum(s[..|s| - 1]) + s[|s| - 1]
  }

  function Square(x: real): real {
    x * x
  }

  function SumSquares(s: seq<real>): real {
    if s == [] then 0.0 else SumSquares(s[..|s| - 1]) + Square(s[|s| - 1])
  }

  /** Sum of squared deviations from `m`. */
  function SumSquaredDev(s: seq<real>, m: real): real {
    if s == [] then 0.0 else SumSquaredDev(s[..|s| - 1], m) + Square(s[|s| - 1] - m)
  }

  function MinOf(s: seq<real>): Ext {
    if s == [] then PosInf else Lesser(MinOf(s[..|s| - 1]), Fin(s[|s| - 1]))
  }

  function MaxOf(s: seq<real>): Ext {
    if s == [] then NegInf else Greater(MaxOf(s[..|s| - 1]), Fin(s[|s| - 1]))
  }

  function Mean(s: seq<real>): real {
    if s == [] then 0.0 else Sum(s) / |s| as real
  }

  /** Sample variance, recomputed in two passes over the values. */
  function Variance(s: seq<real>): real {
    if |s| <= 1 then 0.0 else SumSquaredDev(s, Mean(s)) / (|s| as real - 1.0)
  }

  /** A product of like-signed factors is not negative. */
  lemma MulSign(a: real, b: real)
    requires (a >= 0.0 && b >= 0.0) || (a <= 0.0 && b <= 0.0)
    ensures a * b >= 0.0
  {
  }

  lemma AppendOne(s: seq<real>, x: real)
    ensures Sum(s + [x]) == Sum(s) + x
    ensures SumSquares(s + [x]) == SumSquares(s) + Square(x)
    ensures MinOf(s + [x]) == Lesser(MinOf(s), Fin(x))
    ensures MaxOf(s + [x]) == Greater(MaxOf(s), Fin(x))
  {
    assert (s + [x])[..|s|] == s;
  }

  lemma Empties()
    ensures Sum([]) == SumSquares([]) == 0.0 && MinOf([]) == PosInf && MaxOf([]) == NegInf
  {
  }

  lemma {:induction false} Concat(a: seq<real>, b: seq<real>)
    ensures Sum(a + b) == Sum(a) + Sum(b)
    ensures SumSquares(a + b) == SumSquares(a) + SumSquares(b)
    ensures MinOf(a + b) == Lesser(MinOf(a), MinOf(b))
    ensures MaxOf(a + b) == Greater(MaxOf(a), MaxOf(b))
  {
    hide Sum, SumSquares, MinOf, MaxOf, Square;
    if b == [] {
      assert a + b == a;
      Empties();
    } else {
      var front, x := b[..|b| - 1], b[|b| - 1];
      assert b == front + [x];
      assert a + b == (a + front) + [x];
      Concat(a, front);
      AppendOne(front, x);
      AppendOne(a + front, x);
    }
  }

  lemma Singleton(x: real)
    ensures Sum([x]) == x && SumSquares([x]) == Square(x)
  {
    var s := [x];
    assert s[..0] == [];
    assert Sum(s[..0]) == 0.0 && SumSquares(s[..0]) == 0.0;
  }

  /** Dropping the oldest value undoes its contribution to both sums. */
  lemma DropFirst(s: seq<real>)
    requires s != []
    ensures Sum(s[1..]) == Sum(s) - s[0]
    ensures SumSquares(s[1..]) == SumSquares(s) - Square(s[0])
  {
    hide Sum, SumSquares, Square;
    var head := [s[0]];
    assert s == head + s[1..];
    Singleton(s[0]);
    Concat(head, s[1..]);
  }

  /** A rotation has the same extremes. */
  lemma Rotation(a: seq<real>, b: seq<real>)
    ensures MinOf(a + b) == MinOf(b + a)
    ensures MaxOf(a + b) == MaxOf(b + a)
  {
    Concat(a, b);
    Concat(b, a);
  }

  /** `MinOf` and `MaxOf` are attained bounds. */
  lemma {:induction false} Extremes(s: seq<real>)
    requires s != []
    ensures MinOf(s).Fin? && MinOf(s).v in s && forall x | x in s :: MinOf(s).v <= x
    ensures MaxOf(s).Fin? && MaxOf(s).v in s && forall x | x in s :: x <= MaxOf(s).v
  {
    var front, x := s[..|s| - 1], s[|s| - 1];
    assert s == front + [x];
    if front != [] {
      Extremes(front);
    }
  }

  /** Squared deviations from `m`, expanded into running sums. */
  function Expansion(squares: real, sum: real, n: real, m: real): real {
    squares - 2.0 * m * sum + n * m * m
  }

  /** The expansion behind the one-pass variance. */
  lemma {:induction false} SquaredDevExpansion(s: seq<real>, m: real)
    ensures SumSquaredDev(s, m) == Expansion(SumSquares(s), Sum(s), |s| as real, m)
    ensures SumSquaredDev(s, m) >= 0.0
  {
    if s != [] {
      hide Expansion, Sum, SumSquares, Square;
      var front, x := s[..|s| - 1], s[|s| - 1];
      assert s == front + [x];
      SquaredDevExpansion(front, m);
      AppendOne(front, x);
      ExpansionStep(SumSquares(front), Sum(front), |front| as real, m, x);
      assert |s| as real == |front| as real + 1.0;
    }
  }

  /** One more value `x` in the expansion. */
  lemma ExpansionStep(squares: real, sum: real, n: real, m: real, x: real)
    ensures Expansion(squares + Square(x), sum + x, n + 1.0, m) == Expansion(squares, sum, n, m) + Square(x - m)
    ensures Square(x - m) >= 0.0
  {
    MulSign(x - m, x - m);
    assert (x - m) * (x - m) == x * x - 2.0 * m * x + m * m;
    assert (n + 1.0) * m * m == n * m * m + m * m;
    assert 2.0 * m * (sum + x) == 2.0 * m * sum + 2.0 * m * x;
  }

  /** The one-pass formula over running sums is the two-pass variance, and it is never negative. */
  lemma OnePassVariance(s: seq<real>)
    requires |s| > 1
    ensures (SumSquares(s) - |s| as real * Mean(s) * Mean(s)) / (|s| as real - 1.0) == Variance(s)
    ensures Variance(s) >= 0.0
  {
    hide Sum, SumSquares, SumSquaredDev;
    SquaredDevExpansion(s, Mean(s));
    OnePassAlgebra(|s| as real, Mean(s), Sum(s), SumSquares(s), SumSquaredDev(s, Mean(s)));
  }

  lemma OnePassAlgebra(n: real, m: real, sum: real, squares: real, d: real)
    requires n > 1.0 && m == sum / n && d >= 0.0
    requires d == Expansion(squares, sum, n, m)
    ensures (squares - n * m * m) / (n - 1.0) == d / (n - 1.0) >= 0.0
  {
    assert squares - n * m * m == d by {
      assert sum == n * m;
      assert 2.0 * m * sum == 2.0 * (n * m * m);
    }
    DivideNonNegative(d, n - 1.0);
  }

  lemma DivideNonNegative(a: real, b: real)
    requires a >= 0.0 && b > 0.0
    ensures a / b >= 0.0
  {
  }
}
