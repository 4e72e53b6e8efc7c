/** The price forecaster (`predictNextPrice`): an ordinary least-squares line through
    the (termIndex, price) points of one section, evaluated one term past the last.
    The fit is computed over exact rationals with the closed-form slope and intercept;
    floating-point rounding is not modelled. */
module Forecast {
  import opened Wrappers
  import opened JsNumber

  /** One regression point: a term position and the price in that term. */
  datatype Point = Point(termIndex: int, price: int)

  function X(p: Point): real { p.termIndex as real }

  function Y(p: Point): real { p.price as real }

  function XX(p: Point): real { X(p) * X(p) }

  function XY(p: Point): real { X(p) * Y(p) }

  /** Σ f(p) over the points. */
  function Sum(ps: seq<Point>, f: Point -> real): real {
    if |ps| == 0 then 0.0 else f(ps[0]) + Sum(ps[1..], f)
  }

  function SumX(ps: seq<Point>): real { Sum(ps, X) }

  function SumY(ps: seq<Point>): real { Sum(ps, Y) }

  function SumXX(ps: seq<Point>): real { Sum(ps, XX) }

  function SumXY(ps: seq<Point>): real { Sum(ps, XY) }

  /** n·Σx² − (Σx)², the denominator of the slope. */
  function Denominator(ps: seq<Point>): real {
    |ps| as real * SumXX(ps) - SumX(ps) * SumX(ps)
  }

  /** n·Σxy − Σx·Σy, the numerator of the slope. */
  function Numerator(ps: seq<Point>): real {
    |ps| as real * SumXY(ps) - SumX(ps) * SumY(ps)
  }

  /** Every point lies in the same term. */
  predicate SameTerm(ps: seq<Point>) {
    forall i, j :: 0 <= i < |ps| && 0 <= j < |ps| ==> ps[i].termIndex == ps[j].termIndex
  }

  function Slope(ps: seq<Point>): real
    requires Denominator(ps) != 0.0
  {
    Numerator(ps) / Denominator(ps)
  }

  function Intercept(ps: seq<Point>): real
    requires Denominator(ps) != 0.0
  {
    assert |ps| != 0;
    SumY(ps) / |ps| as real - Slope(ps) * SumX(ps) / |ps| as real
  }

  /** The fitted line's value at `x`. */
  function Fit(ps: seq<Point>, x: int): real
    requires Denominator(ps) != 0.0
  {
    Slope(ps) * x as real + Intercept(ps)
  }

  /** `Math.max(...termIndex)`: the latest term of a non-empty history. */
  function MaxTermIndex(ps: seq<Point>): (m: int)
    requires |ps| > 0
    ensures exists i :: 0 <= i < |ps| && ps[i].termIndex == m
    ensures forall i :: 0 <= i < |ps| ==> ps[i].termIndex <= m
  {
    if |ps| == 1 then ps[0].termIndex
    else
      var rest := MaxTermIndex(ps[1..]);
      assert forall i :: 1 <= i < |ps| ==> ps[i] == ps[1..][i - 1];
      if ps[0].termIndex >= rest then ps[0].termIndex else rest
  }

  /** predictNextPrice. With fewer than two points: the first price, or 0 for none
      (no clamping). Otherwise the fitted line at the term after the latest, rounded
      half up and clamped at 0; None is NaN, which is what the fit gives when every
      point has the same termIndex (the slope is 0/0). */
  function PredictNextPrice(ps: seq<Point>): (r: Option<int>)
    ensures |ps| == 0 ==> r == Some(0)
    ensures |ps| == 1 ==> r == Some(ps[0].price)
    ensures |ps| >= 2 ==> (r.None? <==> SameTerm(ps))
    ensures |ps| >= 2 && Denominator(ps) != 0.0 ==>
              var next := Fit(ps, MaxTermIndex(ps) + 1);
              && r.Some? && r.value >= 0
              && (r.value > 0 ==> next - 0.5 < r.value as real <= next + 0.5)
              && (r.value == 0 ==> next < 0.5)
  {
    DenominatorZero(ps);
    if |ps| < 2 then Some(if |ps| == 0 then 0 else ps[0].price)
    else if Denominator(ps) == 0.0 then None
    else
      var predicted := Round(Fit(ps, MaxTermIndex(ps) + 1));
      Some(if predicted < 0 then 0 else predicted)
  }

  // ----- sums of linear combinations -----

  function One(p: Point): real { 1.0 }

  /** Σ 1, the number of points as a real. */
  function Count(ps: seq<Point>): real { Sum(ps, One) }

  /** p ↦ a·f(p) + b·g(p) + c·h(p) */
  function Combine(a: real, f: Point -> real, b: real, g: Point -> real, c: real, h: Point -> real): Point -> real {
    p => a * f(p) + b * g(p) + c * h(p)
  }

  lemma CombineAt(a: real, f: Point -> real, b: real, g: Point -> real, c: real, h: Point -> real, p: Point)
    ensures Combine(a, f, b, g, c, h)(p) == a * f(p) + b * g(p) + c * h(p)
  {
  }

  lemma CombineStep(a: real, b: real, c: real, f0: real, g0: real, h0: real,
                    sf: real, sg: real, sh: real, total: real, rest: real)
    requires rest == a * sf + b * sg + c * sh
    requires total == a * f0 + b * g0 + c * h0 + rest
    ensures total == a * (f0 + sf) + b * (g0 + sg) + c * (h0 + sh)
  {
  }

  /** Σ (a·f + b·g + c·h) = a·Σf + b·Σg + c·Σh */
  lemma {:induction false} SumCombine(ps: seq<Point>, a: real, f: Point -> real, b: real, g: Point -> real,
                                      c: real, h: Point -> real)
    ensures Sum(ps, Combine(a, f, b, g, c, h)) == a * Sum(ps, f) + b * Sum(ps, g) + c * Sum(ps, h)
    decreases |ps|
  {
    if |ps| > 0 {
      var rest, k := ps[1..], Combine(a, f, b, g, c, h);
      var f0, g0, h0 := f(ps[0]), g(ps[0]), h(ps[0]);
      var sf, sg, sh := Sum(rest, f), Sum(rest, g), Sum(rest, h);
      var total, restk := Sum(ps, k), Sum(rest, k);
      assert Sum(ps, f) == f0 + sf && Sum(ps, g) == g0 + sg && Sum(ps, h) == h0 + sh;
      assert k(ps[0]) == a * f0 + b * g0 + c * h0;
      assert total == k(ps[0]) + restk;
      SumCombine(rest, a, f, b, g, c, h);
      CombineStep(a, b, c, f0, g0, h0, sf, sg, sh, total, restk);
    }
  }

  lemma {:induction false} SumOne(ps: seq<Point>)
    ensures Count(ps) == |ps| as real
    decreases |ps|
  {
    if |ps| > 0 {
      SumOne(ps[1..]);
    }
  }

  /** Sums of functions that agree on the points are equal. */
  lemma {:induction false} SumAgree(ps: seq<Point>, f: Point -> real, g: Point -> real)
    requires forall i :: 0 <= i < |ps| ==> f(ps[i]) == g(ps[i])
    ensures Sum(ps, f) == Sum(ps, g)
    decreases |ps|
  {
    if |ps| > 0 {
      assert forall i :: 0 <= i < |ps[1..]| ==> ps[1..][i] == ps[i + 1];
      SumAgree(ps[1..], f, g);
    }
  }

  /** A sum of non-negative terms is non-negative, and zero exactly when every term is. */
  lemma {:induction false} SumNonnegative(ps: seq<Point>, f: Point -> real)
    requires forall p :: f(p) >= 0.0
    ensures Sum(ps, f) >= 0.0
    ensures Sum(ps, f) == 0.0 <==> forall i :: 0 <= i < |ps| ==> f(ps[i]) == 0.0
    decreases |ps|
  {
    if |ps| > 0 {
      var rest := ps[1..];
      assert forall i :: 0 <= i < |rest| ==> rest[i] == ps[i + 1];
      SumNonnegative(rest, f);
      if Sum(ps, f) == 0.0 {
        forall i | 0 <= i < |ps| ensures f(ps[i]) == 0.0 {
          if i > 0 {
            assert ps[i] == rest[i - 1];
          }
        }
      }
    }
  }

  // ----- the denominator: zero exactly when all termIndex values coincide -----

  /** p ↦ (k·x − c)² */
  function Deviation(k: real, c: real): Point -> real {
    p => (k * X(p) - c) * (k * X(p) - c)
  }

  /** Σ (k·x − c)², the squared spread of the scaled term indices around c. */
  function Spread(ps: seq<Point>, k: real, c: real): real {
    Sum(ps, Deviation(k, c))
  }

  lemma SquareOfDifference(x: real, k: real, c: real)
    ensures (k * x - c) * (k * x - c) == (k * k) * (x * x) + (-2.0 * k * c) * x + (c * c) * 1.0
  {
  }

  /** (k·x − c)² = k²·x² − 2kc·x + c² at one point. */
  lemma DeviationAt(k: real, c: real, p: Point)
    ensures Deviation(k, c)(p) == Combine(k * k, XX, -2.0 * k * c, X, c * c, One)(p)
  {
    var x := X(p);
    CombineAt(k * k, XX, -2.0 * k * c, X, c * c, One, p);
    assert XX(p) == x * x && One(p) == 1.0;
    SquareOfDifference(x, k, c);
  }

  /** Σ (k·x − c)² = k²·Σx² − 2kc·Σx + c²·n */
  lemma SpreadCombine(ps: seq<Point>, k: real, c: real)
    ensures Spread(ps, k, c) == (k * k) * SumXX(ps) + (-2.0 * k * c) * SumX(ps) + (c * c) * Count(ps)
  {
    var w := Combine(k * k, XX, -2.0 * k * c, X, c * c, One);
    forall i | 0 <= i < |ps| ensures Deviation(k, c)(ps[i]) == w(ps[i]) {
      DeviationAt(k, c, ps[i]);
    }
    SumAgree(ps, Deviation(k, c), w);
    SumCombine(ps, k * k, XX, -2.0 * k * c, X, c * c, One);
  }

  lemma ScaledAlgebra(n: real, one: real, sx: real, sxx: real, spread: real)
    requires one == n
    requires spread == (n * n) * sxx + (-2.0 * n * sx) * sx + (sx * sx) * one
    ensures n * (n * sxx - sx * sx) == spread
  {
  }

  /** n·(n·Σx² − (Σx)²) = Σ (n·x − Σx)²: the denominator, scaled by n, is a sum of squares. */
  lemma DenominatorScaled(ps: seq<Point>)
    ensures |ps| as real * (|ps| as real * SumXX(ps) - SumX(ps) * SumX(ps)) == Spread(ps, |ps| as real, SumX(ps))
  {
    SpreadCombine(ps, |ps| as real, SumX(ps));
    SumOne(ps);
    ScaledAlgebra(|ps| as real, Count(ps), SumX(ps), SumXX(ps), Spread(ps, |ps| as real, SumX(ps)));
  }

  lemma SquareZero(d: real)
    ensures d * d >= 0.0
    ensures d * d == 0.0 <==> d == 0.0
  {
    if d != 0.0 {
      var e := 1.0 / d;
      assert d * e == 1.0;
      assert (d * d) * e == d;
    }
  }

  /** The spread is never negative. */
  lemma SpreadNonnegative(ps: seq<Point>, k: real, c: real)
    ensures Spread(ps, k, c) >= 0.0
  {
    forall p ensures Deviation(k, c)(p) >= 0.0 {
      SquareZero(k * X(p) - c);
    }
    SumNonnegative(ps, Deviation(k, c));
  }

  /** The spread is zero exactly when every k·x is c. */
  lemma SpreadZero(ps: seq<Point>, k: real, c: real)
    ensures Spread(ps, k, c) == 0.0 <==> forall i :: 0 <= i < |ps| ==> k * X(ps[i]) == c
  {
    forall p ensures Deviation(k, c)(p) >= 0.0 {
      SquareZero(k * X(p) - c);
    }
    forall i | 0 <= i < |ps| ensures Deviation(k, c)(ps[i]) == 0.0 <==> k * X(ps[i]) == c {
      SquareZero(k * X(ps[i]) - c);
    }
    SumNonnegative(ps, Deviation(k, c));
  }

  /** The sum of the term indices of points all in term c. */
  lemma SumXSameTerm(ps: seq<Point>, c: real)
    requires forall i :: 0 <= i < |ps| ==> X(ps[i]) == c
    ensures SumX(ps) == c * |ps| as real
  {
    var w := Combine(c, One, 0.0, One, 0.0, One);
    forall i | 0 <= i < |ps| ensures X(ps[i]) == w(ps[i]) {
      CombineAt(c, One, 0.0, One, 0.0, One, ps[i]);
    }
    SumAgree(ps, X, w);
    SumCombine(ps, c, One, 0.0, One, 0.0, One);
    SumOne(ps);
  }

  lemma CancelFactor(n: real, a: real, b: real, s: real)
    requires n != 0.0 && n * a == s && n * b == s
    ensures a == b
  {
    var e := 1.0 / n;
    assert n * e == 1.0;
    assert (n * a) * e == a && (n * b) * e == b;
  }

  lemma ScaleCommon(n: real, c: real, x: real, s: real)
    requires x == c && s == c * n
    ensures n * x == s
  {
  }

  /** Points all in one term have n·x = Σx at every point. */
  lemma SameTermScaledAt(ps: seq<Point>)
    requires |ps| > 0 && SameTerm(ps)
    ensures forall i :: 0 <= i < |ps| ==> |ps| as real * X(ps[i]) == SumX(ps)
  {
    SumXSameTerm(ps, X(ps[0]));
    forall i | 0 <= i < |ps| ensures |ps| as real * X(ps[i]) == SumX(ps) {
      ScaleCommon(|ps| as real, X(ps[0]), X(ps[i]), SumX(ps));
    }
  }

  /** Points with n·x = Σx at every point are all in one term. */
  lemma ScaledSameTerm(ps: seq<Point>)
    requires forall i :: 0 <= i < |ps| ==> |ps| as real * X(ps[i]) == SumX(ps)
    ensures SameTerm(ps)
  {
    forall i, j | 0 <= i < |ps| && 0 <= j < |ps| ensures ps[i].termIndex == ps[j].termIndex {
      CancelFactor(|ps| as real, X(ps[i]), X(ps[j]), SumX(ps));
    }
  }

  lemma ProductZero(n: real, sx: real, sxx: real, s: real)
    requires n > 0.0 && s >= 0.0 && n * (n * sxx - sx * sx) == s
    ensures n * sxx - sx * sx >= 0.0
    ensures n * sxx - sx * sx == 0.0 <==> s == 0.0
  {
    var d := n * sxx - sx * sx;
    assert d == s / n;
  }

  /** The denominator is never negative, and it is zero exactly when the spread of the
      scaled term indices around their sum is. */
  lemma DenominatorSpread(ps: seq<Point>)
    requires |ps| > 0
    ensures Denominator(ps) >= 0.0
    ensures Denominator(ps) == 0.0 <==> Spread(ps, |ps| as real, SumX(ps)) == 0.0
  {
    DenominatorScaled(ps);
    SpreadNonnegative(ps, |ps| as real, SumX(ps));
    ProductZero(|ps| as real, SumX(ps), SumXX(ps), Spread(ps, |ps| as real, SumX(ps)));
  }

  /** The spread of n·x around Σx is zero exactly when every point is in the same term. */
  lemma SpreadSameTerm(ps: seq<Point>)
    requires |ps| > 0
    ensures Spread(ps, |ps| as real, SumX(ps)) == 0.0 <==> SameTerm(ps)
  {
    SpreadZero(ps, |ps| as real, SumX(ps));
    if SameTerm(ps) {
      SameTermScaledAt(ps);
    } else if Spread(ps, |ps| as real, SumX(ps)) == 0.0 {
      ScaledSameTerm(ps);
    }
  }

  /** The denominator is never negative, and it is zero exactly when every point has
      the same termIndex. */
  lemma DenominatorZero(ps: seq<Point>)
    ensures Denominator(ps) >= 0.0
    ensures Denominator(ps) == 0.0 <==> SameTerm(ps)
  {
    if |ps| > 0 {
      DenominatorSpread(ps);
      SpreadSameTerm(ps);
    }
  }

  // ----- the fit is the least-squares line -----

  /** p ↦ y − (m·x + b) */
  function Residual(m: real, b: real): Point -> real {
    p => Y(p) - m * X(p) - b
  }

  /** p ↦ x·(y − (m·x + b)) */
  function XResidual(m: real, b: real): Point -> real {
    p => X(p) * (Y(p) - m * X(p) - b)
  }

  /** p ↦ (y − (m·x + b))² */
  function SquaredResidual(m: real, b: real): Point -> real {
    p => (Y(p) - m * X(p) - b) * (Y(p) - m * X(p) - b)
  }

  /** p ↦ (dm·x + db)² */
  function SquaredShift(dm: real, db: real): Point -> real {
    p => (dm * X(p) + db) * (dm * X(p) + db)
  }

  /** Σ (y − (m·x + b)) */
  function SumResidual(ps: seq<Point>, m: real, b: real): real { Sum(ps, Residual(m, b)) }

  /** Σ x·(y − (m·x + b)) */
  function SumXResidual(ps: seq<Point>, m: real, b: real): real { Sum(ps, XResidual(m, b)) }

  /** Σ (y − (m·x + b))², the squared error of the line y = m·x + b. */
  function SquaredError(ps: seq<Point>, m: real, b: real): real { Sum(ps, SquaredResidual(m, b)) }

  /** Σ (dm·x + db)² */
  function SumShift(ps: seq<Point>, dm: real, db: real): real { Sum(ps, SquaredShift(dm, db)) }

  lemma ResidualAt(m: real, b: real, p: Point)
    ensures Residual(m, b)(p) == Combine(1.0, Y, -m, X, -b, One)(p)
    ensures XResidual(m, b)(p) == Combine(1.0, XY, -m, XX, -b, X)(p)
  {
    var x, y := X(p), Y(p);
    CombineAt(1.0, Y, -m, X, -b, One, p);
    CombineAt(1.0, XY, -m, XX, -b, X, p);
    assert XX(p) == x * x && XY(p) == x * y && One(p) == 1.0;
    assert x * (y - m * x - b) == 1.0 * (x * y) + -m * (x * x) + -b * x;
  }

  /** Σ (y − m·x − b) = Σy − m·Σx − b·n */
  lemma ResidualLinear(ps: seq<Point>, m: real, b: real)
    ensures SumResidual(ps, m, b) == 1.0 * SumY(ps) + (-m) * SumX(ps) + (-b) * Count(ps)
  {
    var w := Combine(1.0, Y, -m, X, -b, One);
    forall i | 0 <= i < |ps| ensures Residual(m, b)(ps[i]) == w(ps[i]) {
      ResidualAt(m, b, ps[i]);
    }
    SumAgree(ps, Residual(m, b), w);
    SumCombine(ps, 1.0, Y, -m, X, -b, One);
  }

  /** Σ x·(y − m·x − b) = Σxy − m·Σx² − b·Σx */
  lemma XResidualLinear(ps: seq<Point>, m: real, b: real)
    ensures SumXResidual(ps, m, b) == 1.0 * SumXY(ps) + (-m) * SumXX(ps) + (-b) * SumX(ps)
  {
    var w := Combine(1.0, XY, -m, XX, -b, X);
    forall i | 0 <= i < |ps| ensures XResidual(m, b)(ps[i]) == w(ps[i]) {
      ResidualAt(m, b, ps[i]);
    }
    SumAgree(ps, XResidual(m, b), w);
    SumCombine(ps, 1.0, XY, -m, XX, -b, X);
  }

  lemma QuotientTimes(m: real, s: real, d: real, e: real)
    requires d != 0.0 && m == s / d && e == d
    ensures m * e == s
  {
  }

  lemma InterceptAlgebra(n: real, sy: real, msx: real, b: real)
    requires n != 0.0 && b == sy / n - msx / n
    ensures n * b == sy - msx
  {
  }

  /** The line y = m·x + b solves the least-squares equations of ps, written without
      division: m·(n·Σx² − (Σx)²) = n·Σxy − Σx·Σy and n·b = Σy − m·Σx. */
  predicate NormalFit(ps: seq<Point>, m: real, b: real) {
    && |ps| > 0
    && m * (|ps| as real * SumXX(ps) - SumX(ps) * SumX(ps)) == |ps| as real * SumXY(ps) - SumX(ps) * SumY(ps)
    && |ps| as real * b == SumY(ps) - m * SumX(ps)
  }

  /** The slope and intercept, freed of their divisions:
      m·(n·Σx² − (Σx)²) = n·Σxy − Σx·Σy and n·b = Σy − m·Σx. */
  lemma FitEquations(ps: seq<Point>)
    requires Denominator(ps) != 0.0
    ensures NormalFit(ps, Slope(ps), Intercept(ps))
  {
    QuotientTimes(Slope(ps), Numerator(ps), Denominator(ps), |ps| as real * SumXX(ps) - SumX(ps) * SumX(ps));
    InterceptAlgebra(|ps| as real, SumY(ps), Slope(ps) * SumX(ps), Intercept(ps));
  }

  lemma NormalAlgebra(n: real, one: real, sx: real, sy: real, sxx: real, sxy: real, m: real, b: real,
                      r: real, xr: real)
    requires n != 0.0 && one == n
    requires m * (n * sxx - sx * sx) == n * sxy - sx * sy
    requires n * b == sy - m * sx
    requires r == 1.0 * sy + (-m) * sx + (-b) * one
    requires xr == 1.0 * sxy + (-m) * sxx + (-b) * sx
    ensures r == 0.0 && xr == 0.0
  {
    calc {
      n * xr;
      n * sxy - m * n * sxx - (n * b) * sx;
      n * sxy - m * n * sxx - (sy - m * sx) * sx;
      (n * sxy - sx * sy) - m * (n * sxx - sx * sx);
      0.0;
    }
  }

  /** A line satisfying the slope and intercept equations has residuals that sum to
      zero and are uncorrelated with the term index. */
  lemma ResidualsBalance(ps: seq<Point>, m: real, b: real)
    requires NormalFit(ps, m, b)
    ensures SumResidual(ps, m, b) == 0.0
    ensures SumXResidual(ps, m, b) == 0.0
  {
    SumOne(ps);
    ResidualLinear(ps, m, b);
    XResidualLinear(ps, m, b);
    NormalAlgebra(|ps| as real, Count(ps), SumX(ps), SumY(ps), SumXX(ps), SumXY(ps), m, b,
                  SumResidual(ps, m, b), SumXResidual(ps, m, b));
  }

  /** The normal equations: the residuals of the fit sum to zero and are uncorrelated
      with the term index. */
  lemma NormalEquations(ps: seq<Point>)
    requires Denominator(ps) != 0.0
    ensures SumResidual(ps, Slope(ps), Intercept(ps)) == 0.0
    ensures SumXResidual(ps, Slope(ps), Intercept(ps)) == 0.0
  {
    FitEquations(ps);
    ResidualsBalance(ps, Slope(ps), Intercept(ps));
  }

  /** Moving the line from (m, b) to (m1, b1), at one point: the squared residual gains
      the cross terms with the old residual and the squared shift. */
  lemma ShiftedResidualAt(m: real, b: real, m1: real, b1: real, p: Point)
    ensures SquaredResidual(m1, b1)(p)
         == SquaredResidual(m, b)(p) + 2.0 * (m - m1) * XResidual(m, b)(p)
            + 2.0 * (b - b1) * Residual(m, b)(p) + SquaredShift(m - m1, b - b1)(p)
  {
    var dm, db := m - m1, b - b1;
    var x, y := X(p), Y(p);
    var r, s := y - m * x - b, dm * x + db;
    assert Residual(m, b)(p) == r && XResidual(m, b)(p) == x * r && SquaredResidual(m, b)(p) == r * r;
    assert SquaredShift(dm, db)(p) == s * s;
    assert y - m1 * x - b1 == r + s;
    assert SquaredResidual(m1, b1)(p) == (r + s) * (r + s);
    assert (r + s) * (r + s) == r * r + 2.0 * dm * (x * r) + 2.0 * db * r + s * s;
  }

  lemma ExpandStep(k1: real, k2: real, e1: real, e0: real, u: real, v: real, w: real,
                   q1: real, q0: real, uq: real, vq: real, wq: real,
                   e1r: real, e0r: real, ur: real, vr: real, wr: real)
    requires e1 == q1 + e1r && e0 == q0 + e0r && u == uq + ur && v == vq + vr && w == wq + wr
    requires q1 == q0 + k1 * uq + k2 * vq + wq
    requires e1r == e0r + k1 * ur + k2 * vr + wr
    ensures e1 == e0 + k1 * u + k2 * v + w
  {
  }

  /** If f1 = f0 + k1·fu + k2·fv + fw at every point, the same holds of the sums. */
  lemma {:induction false} SumExpand(ps: seq<Point>, k1: real, k2: real,
                                     f1: Point -> real, f0: Point -> real, fu: Point -> real, fv: Point -> real, fw: Point -> real)
    requires forall i :: 0 <= i < |ps| ==> f1(ps[i]) == f0(ps[i]) + k1 * fu(ps[i]) + k2 * fv(ps[i]) + fw(ps[i])
    ensures Sum(ps, f1) == Sum(ps, f0) + k1 * Sum(ps, fu) + k2 * Sum(ps, fv) + Sum(ps, fw)
    decreases |ps|
  {
    if |ps| > 0 {
      var p, rest := ps[0], ps[1..];
      var q1, q0, uq, vq, wq := f1(p), f0(p), fu(p), fv(p), fw(p);
      var e1r, e0r, ur, vr, wr := Sum(rest, f1), Sum(rest, f0), Sum(rest, fu), Sum(rest, fv), Sum(rest, fw);
      var e1, e0, u, v, w := Sum(ps, f1), Sum(ps, f0), Sum(ps, fu), Sum(ps, fv), Sum(ps, fw);
      assert e1 == q1 + e1r && e0 == q0 + e0r && u == uq + ur && v == vq + vr && w == wq + wr;
      assert forall i :: 0 <= i < |rest| ==> rest[i] == ps[i + 1];
      SumExpand(rest, k1, k2, f1, f0, fu, fv, fw);
      ExpandStep(k1, k2, e1, e0, u, v, w, q1, q0, uq, vq, wq, e1r, e0r, ur, vr, wr);
    }
  }

  /** ShiftedResidualAt at every point of ps. */
  lemma ShiftedResiduals(ps: seq<Point>, m: real, b: real, m1: real, b1: real)
    ensures forall i :: 0 <= i < |ps| ==>
              SquaredResidual(m1, b1)(ps[i])
              == SquaredResidual(m, b)(ps[i]) + 2.0 * (m - m1) * XResidual(m, b)(ps[i])
                 + 2.0 * (b - b1) * Residual(m, b)(ps[i]) + SquaredShift(m - m1, b - b1)(ps[i])
  {
    forall i | 0 <= i < |ps|
      ensures SquaredResidual(m1, b1)(ps[i])
           == SquaredResidual(m, b)(ps[i]) + 2.0 * (m - m1) * XResidual(m, b)(ps[i])
              + 2.0 * (b - b1) * Residual(m, b)(ps[i]) + SquaredShift(m - m1, b - b1)(ps[i])
    {
      ShiftedResidualAt(m, b, m1, b1, ps[i]);
    }
  }

  /** Moving the line from (m, b) to (m1, b1) adds the cross terms with the residuals
      and the squared shift to the squared error. */
  lemma SquaredErrorShift(ps: seq<Point>, m: real, b: real, m1: real, b1: real)
    ensures SquaredError(ps, m1, b1)
         == SquaredError(ps, m, b) + 2.0 * (m - m1) * SumXResidual(ps, m, b)
            + 2.0 * (b - b1) * SumResidual(ps, m, b) + SumShift(ps, m - m1, b - b1)
  {
    assert SquaredError(ps, m1, b1)
        == SquaredError(ps, m, b) + 2.0 * (m - m1) * SumXResidual(ps, m, b)
           + 2.0 * (b - b1) * SumResidual(ps, m, b) + SumShift(ps, m - m1, b - b1) by {
      ShiftedResiduals(ps, m, b, m1, b1);
      SumExpand(ps, 2.0 * (m - m1), 2.0 * (b - b1),
                SquaredResidual(m1, b1), SquaredResidual(m, b), XResidual(m, b), Residual(m, b), SquaredShift(m - m1, b - b1));
    }
  }

  lemma LeastAlgebra(e: real, e0: real, dm: real, xr: real, db: real, r: real, sh: real)
    requires e == e0 + 2.0 * dm * xr + 2.0 * db * r + sh
    requires xr == 0.0 && r == 0.0 && sh >= 0.0
    ensures e0 <= e
  {
    assert dm * xr == 0.0 && db * r == 0.0;
  }

  /** The fitted line has the least squared error of all lines. */
  lemma LeastSquares(ps: seq<Point>, m: real, b: real)
    requires Denominator(ps) != 0.0
    ensures SquaredError(ps, Slope(ps), Intercept(ps)) <= SquaredError(ps, m, b)
  {
    var m0, b0 := Slope(ps), Intercept(ps);
    var dm, db := m0 - m, b0 - b;
    NormalEquations(ps);
    SquaredErrorShift(ps, m0, b0, m, b);
    forall p ensures SquaredShift(dm, db)(p) >= 0.0 {
      SquareZero(dm * X(p) + db);
    }
    SumNonnegative(ps, SquaredShift(dm, db));
    LeastAlgebra(SquaredError(ps, m, b), SquaredError(ps, m0, b0), dm, SumXResidual(ps, m0, b0),
                 db, SumResidual(ps, m0, b0), SumShift(ps, dm, db));
  }

  // ----- points on a line -----

  /** Every point lies on the line y = a·x + c. */
  predicate OnLine(ps: seq<Point>, a: real, c: real) {
    forall i :: 0 <= i < |ps| ==> Y(ps[i]) == a * X(ps[i]) + c
  }

  lemma OnLineAt(a: real, c: real, p: Point)
    requires Y(p) == a * X(p) + c
    ensures Y(p) == Combine(a, X, c, One, 0.0, One)(p)
    ensures XY(p) == Combine(a, XX, c, X, 0.0, One)(p)
  {
    var x, y := X(p), Y(p);
    CombineAt(a, X, c, One, 0.0, One, p);
    CombineAt(a, XX, c, X, 0.0, One, p);
    assert XX(p) == x * x && XY(p) == x * y && One(p) == 1.0;
    assert x * y == a * (x * x) + c * x + 0.0 * 1.0;
  }

  /** On the line, Σy = a·Σx + c·n. */
  lemma SumYOnLine(ps: seq<Point>, a: real, c: real)
    requires OnLine(ps, a, c)
    ensures SumY(ps) == a * SumX(ps) + c * Count(ps) + 0.0 * Count(ps)
  {
    var w := Combine(a, X, c, One, 0.0, One);
    forall i | 0 <= i < |ps| ensures Y(ps[i]) == w(ps[i]) {
      OnLineAt(a, c, ps[i]);
    }
    SumAgree(ps, Y, w);
    SumCombine(ps, a, X, c, One, 0.0, One);
  }

  /** On the line, Σxy = a·Σx² + c·Σx. */
  lemma SumXYOnLine(ps: seq<Point>, a: real, c: real)
    requires OnLine(ps, a, c)
    ensures SumXY(ps) == a * SumXX(ps) + c * SumX(ps) + 0.0 * Count(ps)
  {
    var w := Combine(a, XX, c, X, 0.0, One);
    forall i | 0 <= i < |ps| ensures XY(ps[i]) == w(ps[i]) {
      OnLineAt(a, c, ps[i]);
    }
    SumAgree(ps, XY, w);
    SumCombine(ps, a, XX, c, X, 0.0, One);
  }

  lemma LineAlgebra(n: real, one: real, sx: real, sy: real, sxx: real, sxy: real, a: real, c: real)
    requires one == n
    requires sy == a * sx + c * one + 0.0 * one
    requires sxy == a * sxx + c * sx + 0.0 * one
    ensures a * (n * sxx - sx * sx) == n * sxy - sx * sy
    ensures n * c == sy - a * sx
  {
  }

  /** The line through points that lie on it solves their least-squares equations. */
  lemma LineNormalFit(ps: seq<Point>, a: real, c: real)
    requires OnLine(ps, a, c) && |ps| > 0
    ensures NormalFit(ps, a, c)
  {
    SumOne(ps);
    SumYOnLine(ps, a, c);
    SumXYOnLine(ps, a, c);
    LineAlgebra(|ps| as real, Count(ps), SumX(ps), SumY(ps), SumXX(ps), SumXY(ps), a, c);
  }

  lemma UniqueAlgebra(n: real, sx: real, sy: real, sxx: real, sxy: real, m: real, b: real, m1: real, b1: real)
    requires n != 0.0 && n * sxx - sx * sx != 0.0
    requires m * (n * sxx - sx * sx) == n * sxy - sx * sy && n * b == sy - m * sx
    requires m1 * (n * sxx - sx * sx) == n * sxy - sx * sy && n * b1 == sy - m1 * sx
    ensures m == m1 && b == b1
  {
    var d := n * sxx - sx * sx;
    CancelFactor(d, m, m1, n * sxy - sx * sy);
    CancelFactor(n, b, b1, sy - m * sx);
  }

  /** When the denominator is not zero the least-squares equations have one solution. */
  lemma NormalFitUnique(ps: seq<Point>, m: real, b: real, m1: real, b1: real)
    requires Denominator(ps) != 0.0
    requires NormalFit(ps, m, b) && NormalFit(ps, m1, b1)
    ensures m == m1 && b == b1
  {
    UniqueAlgebra(|ps| as real, SumX(ps), SumY(ps), SumXX(ps), SumXY(ps), m, b, m1, b1);
  }

  /** Points that lie exactly on a line (in at least two terms) are fitted by that line. */
  lemma FitOfLine(ps: seq<Point>, a: real, c: real)
    requires OnLine(ps, a, c)
    requires Denominator(ps) != 0.0
    ensures Slope(ps) == a && Intercept(ps) == c
  {
    FitEquations(ps);
    LineNormalFit(ps, a, c);
    NormalFitUnique(ps, Slope(ps), Intercept(ps), a, c);
  }

  /** A rising history continues its line: 100, 200, 300 forecasts 400. */
  lemma RisingExample()
    ensures PredictNextPrice([Point(0, 100), Point(1, 200), Point(2, 300)]) == Some(400)
  {
    var ps := [Point(0, 100), Point(1, 200), Point(2, 300)];
    assert SumX(ps) == 3.0 && SumXX(ps) == 5.0;
    FitOfLine(ps, 100.0, 100.0);
    assert MaxTermIndex(ps) == 2;
  }

  /** A falling history is clamped at zero: 100, 50, 0 forecasts 0, not -50. */
  lemma FallingExample()
    ensures PredictNextPrice([Point(0, 100), Point(1, 50), Point(2, 0)]) == Some(0)
  {
    var ps := [Point(0, 100), Point(1, 50), Point(2, 0)];
    assert SumX(ps) == 3.0 && SumXX(ps) == 5.0;
    FitOfLine(ps, -50.0, 100.0);
    assert MaxTermIndex(ps) == 2;
  }
}
