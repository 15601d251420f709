/**
 * The pure formulas of the solver: linear interpolation, the diffusion
 * increment `f`, and the two explicit stepping rules that produce one
 * interior value of row `t` from three neighbouring values of row `t - 1`.
 * Values are exact reals; IEEE rounding is not modelled. The functions
 * only compute; what they mean is stated by the lemmas beside them.
 */
module Schemes {

  /** The stepping rule, chosen once per build by the `METHOD` macro. */
  datatype Scheme = Euler | RK4

  /** `lerp`: the straight line through (x0, y0) and (x1, y1), evaluated at x. */
  function Lerp(x: real, x0: real, x1: real, y0: real, y1: real): (y: real)
    requires x1 != x0
  {
    y0 + (x - x0) * (y1 - y0) / (x1 - x0)
  }

  /** `lerp` maps x0 to y0 and x1 to y1. */
  lemma LerpEndpoints(x0: real, x1: real, y0: real, y1: real)
    requires x1 != x0
    ensures Lerp(x0, x0, x1, y0, y1) == y0
    ensures Lerp(x1, x0, x1, y0, y1) == y1
  {
    assert (x0 - x0) * (y1 - y0) == 0.0;
    assert (x1 - x0) * (y1 - y0) / (x1 - x0) == y1 - y0;
  }

  /** Between its end points, `lerp` stays between the two end values. */
  lemma LerpBetween(x: real, x0: real, x1: real, y0: real, y1: real)
    requires x0 < x1 && x0 <= x <= x1 && y0 <= y1
    ensures y0 <= Lerp(x, x0, x1, y0, y1) <= y1
  {
    FractionBetween(x - x0, y1 - y0, x1 - x0);
  }

  /** Consecutive integer abscissae are mapped `(y1 - y0) / (x1 - x0)` apart. */
  lemma LerpStride(x: real, x0: real, x1: real, y0: real, y1: real)
    requires x1 != x0
    ensures Lerp(x + 1.0, x0, x1, y0, y1) - Lerp(x, x0, x1, y0, y1) == (y1 - y0) / (x1 - x0)
  {
    var d := x1 - x0;
    calc {
      Lerp(x + 1.0, x0, x1, y0, y1) - Lerp(x, x0, x1, y0, y1);
    ==
      (x + 1.0 - x0) * (y1 - y0) / d - (x - x0) * (y1 - y0) / d;
    == { assert (x + 1.0 - x0) * (y1 - y0) == (x - x0) * (y1 - y0) + (y1 - y0); }
      (y1 - y0) / d;
    }
  }

  /** `pow(h, 2.0)`: the square of the space step. */
  function Square(h: real): (sq: real)
  {
    h * h
  }

  function Abs(x: real): (a: real)
    ensures a >= 0.0 && (x != 0.0 ==> a > 0.0)
  {
    if x < 0.0 then -x else x
  }

  /** The square of a non-zero step is positive, so dividing by it is defined. */
  lemma SquarePositive(h: real)
    requires h != 0.0
    ensures Square(h) > 0.0
  {
    PositiveProduct(Abs(h), Abs(h), Square(h));
  }

  lemma PositiveProduct(x: real, y: real, z: real)
    requires x > 0.0 && y > 0.0 && z == x * y
    ensures z > 0.0
  {
  }

  lemma QuotientNonNegative(x: real, d: real)
    requires x >= 0.0 && d > 0.0
    ensures x / d >= 0.0
  {
  }

  lemma ProductNonNegative(x: real, y: real)
    requires x >= 0.0 && y >= 0.0
    ensures x * y >= 0.0
  {
  }

  lemma ScaleMonotone(c: real, x: real, y: real)
    requires c >= 0.0 && x <= y
    ensures c * x <= c * y
  {
  }

  lemma DivideMonotone(x: real, y: real, d: real)
    requires x <= y && d > 0.0
    ensures x / d <= y / d
  {
    assert y / d - x / d == (y - x) / d;
  }

  lemma AddThree(a1: real, a2: real, a3: real, b1: real, b2: real, b3: real)
    requires a1 <= b1 && a2 <= b2 && a3 <= b3
    ensures a1 + a2 + a3 <= b1 + b2 + b3
  {
  }

  /** A fraction `n / d` in [0, 1] of a non-negative amount `m` lies in [0, m]. */
  lemma FractionBetween(n: real, m: real, d: real)
    requires 0.0 <= n <= d && m >= 0.0 && d > 0.0
    ensures 0.0 <= n * m / d <= m
  {
    ScaleMonotone(m, 0.0, n);
    ScaleMonotone(m, n, d);
    assert m * n == n * m;
    DivideMonotone(0.0, n * m, d);
    DivideMonotone(n * m, d * m, d);
    assert d * m / d == m;
  }

  /** Weights `w, r, r` summing to one average three values inside their range. */
  lemma WeightedBounds(w: real, r: real, a: real, b: real, c: real, lo: real, hi: real)
    requires w >= 0.0 && r >= 0.0 && w + 2.0 * r == 1.0
    requires lo <= a <= hi && lo <= b <= hi && lo <= c <= hi
    ensures lo <= w * b + r * a + r * c <= hi
  {
    WeightedMonotone(w, r, lo, lo, lo, a, b, c);
    WeightedMonotone(w, r, a, b, c, hi, hi, hi);
    SumOfWeights(w, r, lo);
    SumOfWeights(w, r, hi);
  }

  /** Non-negative weights preserve a pointwise order of three values. */
  lemma WeightedMonotone(w: real, r: real, a: real, b: real, c: real, a': real, b': real, c': real)
    requires w >= 0.0 && r >= 0.0
    requires a <= a' && b <= b' && c <= c'
    ensures w * b + r * a + r * c <= w * b' + r * a' + r * c'
  {
    ScaleMonotone(w, b, b');
    ScaleMonotone(r, a, a');
    ScaleMonotone(r, c, c');
    AddThree(w * b, r * a, r * c, w * b', r * a', r * c');
  }

  lemma SumOfWeights(w: real, r: real, x: real)
    requires w + 2.0 * r == 1.0
    ensures w * x + r * x + r * x == x
  {
    assert w == 1.0 - 2.0 * r;
  }

  /** `dt * alpha * lap / d` regrouped as `alpha * (dt / d) * lap`. */
  lemma Regroup(dt: real, alpha: real, u0: real, u1: real, u2: real, d: real)
    requires d != 0.0
    ensures dt * alpha * (u0 - 2.0 * u1 + u2) / d == alpha * (dt / d) * (u0 - 2.0 * u1 + u2)
  {
    var lap := u0 - 2.0 * u1 + u2;
    var q := dt / d;
    var k := dt * alpha * lap / d;
    assert q * d == dt;
    assert k * d == dt * alpha * lap;
    assert (alpha * q * lap) * d == alpha * lap * (q * d);
    assert (k - alpha * q * lap) * d == 0.0;
  }

  /**
   * `f`: the explicit increment over one time step of the second central
   * difference at u1, `dt * alpha * (u0 - 2 u1 + u2) / Square(h)`.
   */
  function F(spaceStep: real, timeStep: real, diffusivity: real, u0: real, u1: real, u2: real): (k: real)
    requires spaceStep != 0.0
  {
    SquarePositive(spaceStep);
    timeStep * diffusivity * (u0 - 2.0 * u1 + u2) / Square(spaceStep)
  }

  /** A flat profile has no curvature: `f` is zero when u0 = u1 = u2. */
  lemma FFlat(spaceStep: real, timeStep: real, diffusivity: real, u: real)
    requires spaceStep != 0.0
    ensures F(spaceStep, timeStep, diffusivity, u, u, u) == 0.0
  {
    SquarePositive(spaceStep);
    assert u - 2.0 * u + u == 0.0;
    assert timeStep * diffusivity * 0.0 == 0.0;
  }

  /** Adding the same amount to all three arguments leaves `f` unchanged. */
  lemma FShift(spaceStep: real, timeStep: real, diffusivity: real, u0: real, u1: real, u2: real, c: real)
    requires spaceStep != 0.0
    ensures F(spaceStep, timeStep, diffusivity, u0 + c, u1 + c, u2 + c)
         == F(spaceStep, timeStep, diffusivity, u0, u1, u2)
  {
    assert (u0 + c) - 2.0 * (u1 + c) + (u2 + c) == u0 - 2.0 * u1 + u2;
  }

  /** The Euler stability ratio `r = alpha * (dt / Square(h))`, computed once per solve. */
  function Ratio(spaceStep: real, timeStep: real, diffusivity: real): (r: real)
    requires spaceStep != 0.0
  {
    SquarePositive(spaceStep);
    diffusivity * (timeStep / Square(spaceStep))
  }

  /** A non-negative diffusivity and time step give a non-negative ratio. */
  lemma RatioNonNegative(spaceStep: real, timeStep: real, diffusivity: real)
    requires spaceStep != 0.0 && diffusivity >= 0.0 && timeStep >= 0.0
    ensures Ratio(spaceStep, timeStep, diffusivity) >= 0.0
  {
    SquarePositive(spaceStep);
    QuotientNonNegative(timeStep, Square(spaceStep));
    ProductNonNegative(diffusivity, timeStep / Square(spaceStep));
  }

  /** The forward-time central-space update `(1 - 2r) u_mid + r u_left + r u_right`. */
  function EulerStep(r: real, uLeft: real, uMid: real, uRight: real): (u: real)
  {
    (1.0 - 2.0 * r) * uMid + r * uLeft + r * uRight
  }

  /** A flat neighbourhood is a fixed point of the Euler update, whatever r is. */
  lemma EulerFlat(r: real, c: real)
    ensures EulerStep(r, c, c, c) == c
  {
    assert (1.0 - 2.0 * r) * c + r * c + r * c == c + r * (c - 2.0 * c + c);
  }

  /**
   * When `0 <= r <= 1/2` the update is a convex combination of the three
   * neighbours, so it never leaves their range (discrete maximum principle);
   * this is what the `r <= 0.5` assertion of the solver protects.
   */
  lemma EulerStepBounded(r: real, uLeft: real, uMid: real, uRight: real, lo: real, hi: real)
    requires 0.0 <= r <= 0.5
    requires lo <= uLeft <= hi && lo <= uMid <= hi && lo <= uRight <= hi
    ensures lo <= EulerStep(r, uLeft, uMid, uRight) <= hi
  {
    WeightedBounds(1.0 - 2.0 * r, r, uLeft, uMid, uRight, lo, hi);
  }

  /**
   * The fourth-order Runge-Kutta update as the solver writes it: each stage
   * adds the same `k / 2` (or `k`) to all three neighbours before calling `f`.
   */
  function Rk4Step(spaceStep: real, timeStep: real, diffusivity: real, uLeft: real, uMid: real, uRight: real): (u: real)
    requires spaceStep != 0.0
  {
    var k1 := F(spaceStep, timeStep, diffusivity, uLeft, uMid, uRight);
    var k2 := F(spaceStep, timeStep, diffusivity, uLeft + k1 / 2.0, uMid + k1 / 2.0, uRight + k1 / 2.0);
    var k3 := F(spaceStep, timeStep, diffusivity, uLeft + k2 / 2.0, uMid + k2 / 2.0, uRight + k2 / 2.0);
    var k4 := F(spaceStep, timeStep, diffusivity, uLeft + k3, uMid + k3, uRight + k3);
    uMid + (k1 + 2.0 * k2 + 2.0 * k3 + k4) / 6.0
  }

  /** One stage of `f` is the ratio times the second difference. */
  lemma FIsRatioTimesDifference(spaceStep: real, timeStep: real, diffusivity: real, u0: real, u1: real, u2: real)
    requires spaceStep != 0.0
    ensures F(spaceStep, timeStep, diffusivity, u0, u1, u2)
         == Ratio(spaceStep, timeStep, diffusivity) * (u0 - 2.0 * u1 + u2)
  {
    SquarePositive(spaceStep);
    Regroup(timeStep, diffusivity, u0, u1, u2, Square(spaceStep));
  }

  /**
   * Because `f` ignores a common shift of its arguments, the four stages of
   * this Runge-Kutta update are all equal to the first, and the update is
   * exactly the forward Euler update with the same ratio.
   */
  lemma Rk4StepIsEulerStep(spaceStep: real, timeStep: real, diffusivity: real, uLeft: real, uMid: real, uRight: real)
    requires spaceStep != 0.0
    ensures Rk4Step(spaceStep, timeStep, diffusivity, uLeft, uMid, uRight)
         == EulerStep(Ratio(spaceStep, timeStep, diffusivity), uLeft, uMid, uRight)
  {
    var k1 := F(spaceStep, timeStep, diffusivity, uLeft, uMid, uRight);
    FShift(spaceStep, timeStep, diffusivity, uLeft, uMid, uRight, k1 / 2.0);
    FShift(spaceStep, timeStep, diffusivity, uLeft, uMid, uRight, k1);
    assert Rk4Step(spaceStep, timeStep, diffusivity, uLeft, uMid, uRight) == uMid + k1;
    FIsRatioTimesDifference(spaceStep, timeStep, diffusivity, uLeft, uMid, uRight);
    var r := Ratio(spaceStep, timeStep, diffusivity);
    assert EulerStep(r, uLeft, uMid, uRight) == uMid + r * (uLeft - 2.0 * uMid + uRight);
  }

  /** A flat neighbourhood is a fixed point of the Runge-Kutta update too. */
  lemma Rk4Flat(spaceStep: real, timeStep: real, diffusivity: real, c: real)
    requires spaceStep != 0.0
    ensures Rk4Step(spaceStep, timeStep, diffusivity, c, c, c) == c
  {
    FFlat(spaceStep, timeStep, diffusivity, c);
    var k1 := F(spaceStep, timeStep, diffusivity, c, c, c);
    assert c + k1 / 2.0 == c && c + k1 == c;
  }

  /** The update of one interior value under the chosen scheme. */
  function Advance(scheme: Scheme, spaceStep: real, timeStep: real, diffusivity: real,
                   uLeft: real, uMid: real, uRight: real): (u: real)
    requires spaceStep != 0.0
  {
    match scheme
    case Euler => EulerStep(Ratio(spaceStep, timeStep, diffusivity), uLeft, uMid, uRight)
    case RK4 => Rk4Step(spaceStep, timeStep, diffusivity, uLeft, uMid, uRight)
  }

  /** Under either scheme a flat neighbourhood keeps its value. */
  lemma AdvanceFlat(scheme: Scheme, spaceStep: real, timeStep: real, diffusivity: real, c: real)
    requires spaceStep != 0.0
    ensures Advance(scheme, spaceStep, timeStep, diffusivity, c, c, c) == c
  {
    match scheme
    case Euler => EulerFlat(Ratio(spaceStep, timeStep, diffusivity), c);
    case RK4 => Rk4Flat(spaceStep, timeStep, diffusivity, c);
  }

  /**
   * Under `0 <= r <= 1/2` either scheme keeps the new value within any range
   * that holds the three old values.
   */
  lemma AdvanceBounded(scheme: Scheme, spaceStep: real, timeStep: real, diffusivity: real,
                       uLeft: real, uMid: real, uRight: real, lo: real, hi: real)
    requires spaceStep != 0.0 && 0.0 <= Ratio(spaceStep, timeStep, diffusivity) <= 0.5
    requires lo <= uLeft <= hi && lo <= uMid <= hi && lo <= uRight <= hi
    ensures lo <= Advance(scheme, spaceStep, timeStep, diffusivity, uLeft, uMid, uRight) <= hi
  {
    EulerStepBounded(Ratio(spaceStep, timeStep, diffusivity), uLeft, uMid, uRight, lo, hi);
    if scheme == RK4 {
      Rk4StepIsEulerStep(spaceStep, timeStep, diffusivity, uLeft, uMid, uRight);
    }
  }
}
