/**
 * `Evaluated`: scores a single child through a curve. The curves are
 * linear, power, sigmoid, exponential and logarithmic; each keeps the
 * values its constructor derives from the two anchor points `a` and `b`.
 */
module EvaluatorScoring {
  import opened Entities
  import opened Scoring
  import opened RealArith

  datatype Vec2 = Vec2(x: real, y: real)

  /** The bound the sigmoid, exponential and logarithmic constructors clamp `k` to. */
  const K_LIMIT: real := 0.99999

  /** The bound the power constructor clamps the exponent to. */
  const POWER_LIMIT: int := 10000

  /** `k.clamp(-0.99999, 0.99999)`: the shape parameter pinned strictly inside (-1, 1). */
  function ClampK(k: real): (r: real)
    ensures -1.0 < r < 1.0
    ensures -K_LIMIT <= r <= K_LIMIT
    ensures -K_LIMIT <= k <= K_LIMIT ==> r == k
    ensures k < -K_LIMIT ==> r == -K_LIMIT
    ensures K_LIMIT < k ==> r == K_LIMIT
  {
    Clamp(k, -K_LIMIT, K_LIMIT)
  }

  /** `x` to the natural power `n`: `powf` restricted to whole exponents. */
  function Pow(x: real, n: nat): real
  {
    if n == 0 then 1.0 else x * Pow(x, n - 1)
  }

  /** A power of a value in [0, 1] lies in [0, 1]. */
  lemma {:induction false} PowUnit(x: real, n: nat)
    requires 0.0 <= x <= 1.0
    ensures 0.0 <= Pow(x, n) <= 1.0
  {
    if n > 0 {
      PowUnit(x, n - 1);
      ScaleDown(Pow(x, n - 1), x);
    }
  }

  /** Every power of 1 is 1. */
  lemma {:induction false} PowOne(n: nat)
    ensures Pow(1.0, n) == 1.0
  {
    if n > 0 {
      PowOne(n - 1);
    }
  }

  /** The denominator shape `1 + k * u` shared by the rational curves. */
  function Denominator(k: real, u: real): real
  {
    1.0 + k * u
  }

  /** With `k` in (-1, 1) and `u` in [-1, 1] the denominator is positive. */
  lemma DenominatorPositive(k: real, u: real)
    requires -1.0 < k < 1.0 && -1.0 <= u <= 1.0
    ensures 0.0 < Denominator(k, u)
  {
    ScaleDown(Abs(k), Abs(u));
    assert Abs(k * u) == Abs(k) * Abs(u);
  }

  /** A denominator positive at `d` is positive at every `u` in [0, d]. */
  lemma PositiveOnInterval(k: real, u: real, d: real)
    requires 0.0 <= u <= d && 0.0 < Denominator(k, d)
    ensures 0.0 < Denominator(k, u)
  {
    if k < 0.0 {
      NonNegProduct(-k, d - u);
      assert (-k) * (d - u) == k * u - k * d;
    } else {
      NonNegProduct(k, u);
    }
  }

  datatype Evaluator =
    | Linear(a: Vec2, bY: real, dyOverDx: real)
    | Power(a: Vec2, bx: real, power: nat, dy: real)
    | Sigmoid(a: Vec2, b: Vec2, k: real)
    | Exponential(a: Vec2, bx: real, k: real, dyOverDx: real)
    | Logarithmic(a: Vec2, bx: real, k: real, dyOverDx: real)
  {
    /**
     * The configurations whose `evaluate` clamps between ordered bounds
     * (`f32::clamp` panics otherwise).
     */
    predicate Defined()
    {
      match this
      case Linear(a, bY, _) => a.y <= bY
      case Power(a, bx, _, _) => a.x < bx
      case Sigmoid(a, b, k) => a.x < b.x && a.y <= b.y && -1.0 < k < 1.0
      case Exponential(a, bx, _, _) => a.x < bx
      case Logarithmic(a, bx, _, _) => a.x < bx
    }

    /**
     * The inputs at which `evaluate` does not divide by zero: only the
     * rational curves have a denominator that can vanish, at a single input.
     */
    predicate DefinedAt(v: real)
      requires Defined()
    {
      match this
      case Exponential(a, bx, k, _) => Denominator(k, bx - Clamp(v, a.x, bx)) != 0.0
      case Logarithmic(a, bx, k, _) => Denominator(k, Clamp(v, a.x, bx) - a.x) != 0.0
      case _ => true
    }

    /** `Evaluator::evaluate`, with the sigmoid denominator as corrected (see `SigmoidAsWritten`). */
    function Evaluate(v: real): (r: real)
      requires Defined() && DefinedAt(v)
      ensures Linear? ==> a.y <= r <= bY
      ensures Sigmoid? ==> a.y <= r <= b.y
      ensures (Exponential? || Logarithmic?) && v <= a.x ==> r == a.y
    {
      match this
      case Linear(a, bY, dyOverDx) => Clamp(a.y + dyOverDx * (v - a.x), a.y, bY)
      case Power(a, bx, power, dy) => PowerCurve(a, bx, power, dy, v)
      case Sigmoid(a, b, k) => SigmoidCurve(a, b, k, v)
      case Exponential(a, bx, k, dyOverDx) => ExponentialCurve(a, bx, k, dyOverDx, v)
      case Logarithmic(a, bx, k, dyOverDx) => LogarithmicCurve(a, bx, k, dyOverDx, v)
    }
  }

  /** `PowerEvaluator::evaluate`. */
  function PowerCurve(a: Vec2, bx: real, power: nat, dy: real, v: real): real
    requires a.x < bx
  {
    var cx := Clamp(v, a.x, bx);
    dy * Pow((cx - a.x) / (bx - a.x), power) + a.y
  }

  /** `SigmoidEvaluator::evaluate`, with the denominator as corrected (see `SigmoidAsWritten`). */
  function SigmoidCurve(a: Vec2, b: Vec2, k: real, v: real): (r: real)
    requires a.x < b.x && a.y <= b.y && -1.0 < k < 1.0
    ensures a.y <= r <= b.y
  {
    Around(a.y, b.y, SigmoidFactor(k, Position(a.x, b.x, v)))
  }

  /** The sigmoid's shape factor at position `t` in [-1, 1]. */
  function SigmoidFactor(k: real, t: real): real
    requires -1.0 < k < 1.0 && -1.0 <= t <= 1.0
  {
    DenominatorPositive(k, 1.0 - 2.0 * Abs(t));
    t * (1.0 - k) / Denominator(k, 1.0 - 2.0 * Abs(t))
  }

  /** `f` scaled to half the span between `lo` and `hi`, around their midpoint, clamped to the span. */
  function Around(lo: real, hi: real, f: real): real
    requires lo <= hi
  {
    Clamp(HalfSpan(lo, hi) * f + (lo + hi) / 2.0, lo, hi)
  }

  /** Half the distance from `lo` to `hi`: `(b.y - a.y) / 2` of the sigmoid. */
  function HalfSpan(lo: real, hi: real): real
  {
    (hi - lo) / 2.0
  }

  /** `ExponentialEvaluator::evaluate`: the denominator shrinks towards `b.x`. */
  function ExponentialCurve(a: Vec2, bx: real, k: real, dyOverDx: real, v: real): real
    requires a.x < bx && Denominator(k, bx - Clamp(v, a.x, bx)) != 0.0
  {
    var cx := Clamp(v, a.x, bx);
    a.y + (cx - a.x) * dyOverDx / Denominator(k, bx - cx)
  }

  /** `LogarithmicEvaluator::evaluate`: the denominator grows away from `a.x`. */
  function LogarithmicCurve(a: Vec2, bx: real, k: real, dyOverDx: real, v: real): real
    requires a.x < bx && Denominator(k, Clamp(v, a.x, bx) - a.x) != 0.0
  {
    var cx := Clamp(v, a.x, bx);
    a.y + (cx - a.x) * dyOverDx / Denominator(k, cx - a.x)
  }

  /** The clamped input's share of the way from `lo` to `hi`. */
  lemma UnitRatio(c: real, lo: real, hi: real)
    requires lo < hi && lo <= c <= hi
    ensures 0.0 <= (c - lo) / (hi - lo) <= 1.0
    ensures c == lo ==> (c - lo) / (hi - lo) == 0.0
    ensures c == hi ==> (c - lo) / (hi - lo) == 1.0
  {
    DivNonNegative(c - lo, hi - lo);
    DivNonNegative(hi - c, hi - lo);
    DivAdd(c - lo, hi - c, hi - lo);
    DivSelf(hi - lo);
  }

  /**
   * Where the clamped input lies between `ax` and `bx`, rescaled to [-1, 1]:
   * `two_over_dx * (cx - x_mean)` of the sigmoid.
   */
  function Position(ax: real, bx: real, v: real): (t: real)
    requires ax < bx
    ensures -1.0 <= t <= 1.0
    ensures v <= ax ==> t == -1.0
    ensures bx <= v ==> t == 1.0
    ensures v == (ax + bx) / 2.0 ==> t == 0.0
  {
    var twoOverDx := Abs(2.0 / (bx - ax));
    var cxMinusXMean := Clamp(v, ax, bx) - (ax + bx) / 2.0;
    var half := (bx - ax) / 2.0;
    assert twoOverDx == 2.0 / (bx - ax);
    DivMul(2.0, bx - ax);
    assert twoOverDx * half == 1.0;
    assert v <= ax ==> cxMinusXMean == -half;
    assert bx <= v ==> cxMinusXMean == half;
    ScaleWithin(twoOverDx, cxMinusXMean, half);
    twoOverDx * cxMinusXMean
  }

  /** Scaling by the inverse of `half` maps [-half, half] onto [-1, 1], ends to ends and 0 to 0. */
  lemma ScaleWithin(s: real, c: real, half: real)
    requires 0.0 <= s && s * half == 1.0 && -half <= c <= half
    ensures -1.0 <= s * c <= 1.0
    ensures c == -half ==> s * c == -1.0
    ensures c == half ==> s * c == 1.0
    ensures c == 0.0 ==> s * c == 0.0
  {
    MulMonotone(s, c, half);
    MulMonotone(s, -half, c);
    assert s * -half == -1.0;
  }

  /** `LinearEvaluator::new`; the slope needs distinct `x` coordinates. */
  function NewLinear(a: Vec2, b: Vec2): (e: Evaluator)
    requires a.x != b.x
    ensures e.Linear? && e.a == a && e.bY == b.y
    ensures e.Defined() <==> a.y <= b.y
  {
    Linear(a, b.y, (b.y - a.y) / (b.x - a.x))
  }

  /** `LinearEvaluator::from_range`: from `(min, 0)` to `(max, 1)`. */
  function LinearFromRange(min: real, max: real): (e: Evaluator)
    requires min != max
    ensures e.Defined()
  {
    NewLinear(Vec2(min, 0.0), Vec2(max, 1.0))
  }

  /** `LinearEvaluator::default`: from `(0, 0)` to `(1, 1)`. */
  const DEFAULT_LINEAR: Evaluator := Linear(Vec2(0.0, 0.0), 1.0, 1.0)

  /** `PowerEvaluator::new`: the exponent is clamped to [0, 10000]. */
  function NewPower(power: int, a: Vec2, b: Vec2): (e: Evaluator)
    ensures e.Power? && e.a == a && e.bx == b.x && e.dy == b.y - a.y
    ensures 0 <= power <= POWER_LIMIT ==> e.power == power
    ensures power < 0 ==> e.power == 0
    ensures POWER_LIMIT < power ==> e.power == POWER_LIMIT
    ensures e.Defined() <==> a.x < b.x
  {
    var p := if power < 0 then 0 else if POWER_LIMIT < power then POWER_LIMIT else power;
    Power(a, b.x, p, b.y - a.y)
  }

  function PowerFromRange(power: int, min: real, max: real): (e: Evaluator)
    ensures e.Defined() <==> min < max
  {
    NewPower(power, Vec2(min, 0.0), Vec2(max, 1.0))
  }

  /** `PowerEvaluator::default`: the square over [0, 1]. */
  const DEFAULT_POWER: Evaluator := Power(Vec2(0.0, 0.0), 1.0, 2, 1.0)

  /** `SigmoidEvaluator::new`: `k` is clamped into (-1, 1). */
  function NewSigmoid(k: real, a: Vec2, b: Vec2): (e: Evaluator)
    ensures e.Sigmoid? && e.a == a && e.b == b && e.k == ClampK(k)
    ensures e.Defined() <==> a.x < b.x && a.y <= b.y
  {
    Sigmoid(a, b, ClampK(k))
  }

  function SigmoidFromRange(k: real, min: real, max: real): (e: Evaluator)
    ensures e.Defined() <==> min < max
  {
    NewSigmoid(k, Vec2(min, 0.0), Vec2(max, 1.0))
  }

  /** `SigmoidEvaluator::default`: `k = -0.5` over [0, 1]. */
  const DEFAULT_SIGMOID: Evaluator := Sigmoid(Vec2(0.0, 0.0), Vec2(1.0, 1.0), -0.5)

  /** `ExponentialEvaluator::new`: `k` is clamped into (-1, 1). */
  function NewExponential(k: real, a: Vec2, b: Vec2): (e: Evaluator)
    requires a.x != b.x
    ensures e.Exponential? && e.a == a && e.bx == b.x && e.k == ClampK(k)
    ensures e.Defined() <==> a.x < b.x
  {
    Exponential(a, b.x, ClampK(k), (b.y - a.y) / (b.x - a.x))
  }

  /**
   * `ExponentialEvaluator::from_range`: from `(min, 0)` to `(max, 1)`; over
   * a range no wider than 1 the denominator stays positive.
   */
  function ExponentialFromRange(k: real, min: real, max: real): (e: Evaluator)
    requires min != max
    ensures e.Exponential? && e.k == ClampK(k)
    ensures e.Defined() <==> min < max
    ensures 0.0 < max - min <= 1.0 ==> 0.0 < Denominator(e.k, max - min)
  {
    var e := NewExponential(k, Vec2(min, 0.0), Vec2(max, 1.0));
    if 0.0 < max - min <= 1.0 then DenominatorPositive(ClampK(k), max - min); e else e
  }

  /** `ExponentialEvaluator::default`: `k = -0.5` over [0, 1]. */
  const DEFAULT_EXPONENTIAL: Evaluator := Exponential(Vec2(0.0, 0.0), 1.0, -0.5, 1.0)

  /** `LogarithmicEvaluator::new`: `k` is clamped into (-1, 1). */
  function NewLogarithmic(k: real, a: Vec2, b: Vec2): (e: Evaluator)
    requires a.x != b.x
    ensures e.Logarithmic? && e.a == a && e.bx == b.x && e.k == ClampK(k)
    ensures e.Defined() <==> a.x < b.x
  {
    Logarithmic(a, b.x, ClampK(k), (b.y - a.y) / (b.x - a.x))
  }

  /**
   * `LogarithmicEvaluator::from_range`: from `(min, 0)` to `(max, 1)`; over
   * a range no wider than 1 the denominator stays positive.
   */
  function LogarithmicFromRange(k: real, min: real, max: real): (e: Evaluator)
    requires min != max
    ensures e.Logarithmic? && e.k == ClampK(k)
    ensures e.Defined() <==> min < max
    ensures 0.0 < max - min <= 1.0 ==> 0.0 < Denominator(e.k, max - min)
  {
    var e := NewLogarithmic(k, Vec2(min, 0.0), Vec2(max, 1.0));
    if 0.0 < max - min <= 1.0 then DenominatorPositive(ClampK(k), max - min); e else e
  }

  /** A linear evaluator passes through both anchor points. */
  lemma LinearEndpoints(a: Vec2, b: Vec2)
    requires a.x != b.x && a.y <= b.y
    ensures NewLinear(a, b).Evaluate(a.x) == a.y
    ensures NewLinear(a, b).Evaluate(b.x) == b.y
  {
    DivMul(b.y - a.y, b.x - a.x);
  }

  /** Between its anchors a linear evaluator over increasing `x` never decreases. */
  lemma LinearMonotone(a: Vec2, b: Vec2, v: real, w: real)
    requires a.x < b.x && a.y <= b.y && v <= w
    ensures NewLinear(a, b).Evaluate(v) <= NewLinear(a, b).Evaluate(w)
  {
    var slope := (b.y - a.y) / (b.x - a.x);
    DivNonNegative(b.y - a.y, b.x - a.x);
    NonNegProduct(slope, w - v);
    assert slope * (w - a.x) - slope * (v - a.x) == slope * (w - v);
    assert a.y + slope * (v - a.x) <= a.y + slope * (w - a.x);
  }

  /**
   * `LinearEvaluator::from_range` maps `min` to 0 and `max` to 1, and the
   * values in between proportionally.
   */
  lemma LinearFromRangeSpec(min: real, max: real, v: real)
    requires min < max
    ensures v <= min ==> LinearFromRange(min, max).Evaluate(v) == 0.0
    ensures max <= v ==> LinearFromRange(min, max).Evaluate(v) == 1.0
    ensures min <= v <= max ==> LinearFromRange(min, max).Evaluate(v) == (v - min) / (max - min)
  {
    var slope := 1.0 / (max - min);
    DivNonNegative(1.0, max - min);
    assert slope * (max - min) == 1.0;
    if v <= min {
      NonNegProduct(slope, min - v);
      assert slope * (min - v) == -(slope * (v - min));
    } else if max <= v {
      NonNegProduct(slope, v - max);
      assert slope * (v - min) - slope * (max - min) == slope * (v - max);
    } else {
      NonNegProduct(slope, v - min);
      NonNegProduct(slope, max - v);
      assert slope * (max - min) - slope * (v - min) == slope * (max - v);
      assert slope * (v - min) == (v - min) / (max - min);
    }
  }

  /** The default linear evaluator is the identity clamped to [0, 1]. */
  lemma DefaultLinear(v: real)
    ensures DEFAULT_LINEAR == NewLinear(Vec2(0.0, 0.0), Vec2(1.0, 1.0))
    ensures DEFAULT_LINEAR.Evaluate(v) == Clamp(v, 0.0, 1.0)
  {
  }

  /**
   * The power curve holds `a.y` up to `a.x` and `a.y + dy` from `bx` on,
   * stays between the two in between when `dy` is nonnegative, and with
   * exponent 0 is the constant `a.y + dy`.
   */
  lemma PowerCurveShape(a: Vec2, bx: real, power: nat, dy: real, v: real)
    requires a.x < bx
    ensures 0 < power && v <= a.x ==> PowerCurve(a, bx, power, dy, v) == a.y
    ensures bx <= v ==> PowerCurve(a, bx, power, dy, v) == a.y + dy
    ensures 0.0 <= dy ==> a.y <= PowerCurve(a, bx, power, dy, v) <= a.y + dy
    ensures power == 0 ==> PowerCurve(a, bx, power, dy, v) == a.y + dy
  {
    var cx := Clamp(v, a.x, bx);
    var u := (cx - a.x) / (bx - a.x);
    var p := Pow(u, power);
    var q := dy * p;
    assert PowerCurve(a, bx, power, dy, v) == q + a.y;
    UnitRatio(cx, a.x, bx);
    PowUnit(u, power);
    if 0 < power && v <= a.x {
      assert u == 0.0;
      assert p == 0.0 * Pow(u, power - 1);
    }
    if bx <= v {
      assert u == 1.0;
      PowOne(power);
    }
    if 0.0 <= dy {
      ScaleDown(dy, p);
      assert 0.0 <= q <= dy;
    }
  }

  /** A power evaluator has the shape of its curve. */
  lemma PowerShape(e: Evaluator, v: real)
    requires e.Power? && e.Defined()
    ensures 0 < e.power && v <= e.a.x ==> e.Evaluate(v) == e.a.y
    ensures e.bx <= v ==> e.Evaluate(v) == e.a.y + e.dy
    ensures 0.0 <= e.dy ==> e.a.y <= e.Evaluate(v) <= e.a.y + e.dy
    ensures e.power == 0 ==> e.Evaluate(v) == e.a.y + e.dy
  {
    assert e.Evaluate(v) == PowerCurve(e.a, e.bx, e.power, e.dy, v);
    PowerCurveShape(e.a, e.bx, e.power, e.dy, v);
  }

  /** The square curve over [0, 1] maps 0.7 to 0.49. */
  lemma SquareExample()
    ensures PowerCurve(Vec2(0.0, 0.0), 1.0, 2, 1.0, 0.7) == 0.49
  {
    assert Clamp(0.7, 0.0, 1.0) == 0.7;
    assert (0.7 - 0.0) / (1.0 - 0.0) == 0.7;
    assert Pow(0.7, 1) == 0.7 * Pow(0.7, 0) == 0.7;
    assert Pow(0.7, 2) == 0.7 * Pow(0.7, 1) == 0.49;
  }

  /** The default power evaluator squares: a child scoring 0.7 gives 0.49. */
  lemma DefaultPowerExample()
    ensures DEFAULT_POWER == NewPower(2, Vec2(0.0, 0.0), Vec2(1.0, 1.0))
    ensures DEFAULT_POWER.Evaluate(0.7) == 0.49
  {
    assert DEFAULT_POWER.Evaluate(0.7) == PowerCurve(Vec2(0.0, 0.0), 1.0, 2, 1.0, 0.7);
    SquareExample();
  }

  /** The sigmoid's shape factor is -1 at the left anchor, 0 in the middle and 1 at the right. */
  lemma SigmoidFactorAnchors(k: real, t: real)
    requires -1.0 < k < 1.0 && -1.0 <= t <= 1.0
    ensures t == -1.0 ==> SigmoidFactor(k, t) == -1.0
    ensures t == 1.0 ==> SigmoidFactor(k, t) == 1.0
    ensures t == 0.0 ==> SigmoidFactor(k, t) == 0.0
  {
    if t == -1.0 || t == 1.0 {
      assert Denominator(k, 1.0 - 2.0 * Abs(t)) == 1.0 - k;
      DivSelf(1.0 - k);
    }
  }

  /** A factor of -1, 0 or 1 lands on `lo`, the midpoint or `hi`; beyond them the clamp holds. */
  lemma AroundAnchors(lo: real, hi: real, f: real)
    requires lo <= hi
    ensures lo <= Around(lo, hi, f) <= hi
    ensures f <= -1.0 ==> Around(lo, hi, f) == lo
    ensures f == 0.0 ==> Around(lo, hi, f) == (lo + hi) / 2.0
    ensures 1.0 <= f ==> Around(lo, hi, f) == hi
  {
    if f <= -1.0 {
      AroundLow(lo, hi, f);
    } else if 1.0 <= f {
      AroundHigh(lo, hi, f);
    }
  }

  lemma AroundLow(lo: real, hi: real, f: real)
    requires lo <= hi && f <= -1.0
    ensures Around(lo, hi, f) == lo
  {
    var h := HalfSpan(lo, hi);
    var x := h * f + (lo + hi) / 2.0;
    OffsetBelow(h, f, (lo + hi) / 2.0);
    assert (lo + hi) / 2.0 - h == lo;
    assert x <= lo;
    assert Around(lo, hi, f) == Clamp(x, lo, hi);
  }

  lemma AroundHigh(lo: real, hi: real, f: real)
    requires lo <= hi && 1.0 <= f
    ensures Around(lo, hi, f) == hi
  {
    var h := HalfSpan(lo, hi);
    var x := h * f + (lo + hi) / 2.0;
    OffsetAbove(h, f, (lo + hi) / 2.0);
    assert (lo + hi) / 2.0 + h == hi;
    assert hi <= x;
    assert Around(lo, hi, f) == Clamp(x, lo, hi);
  }

  lemma OffsetBelow(h: real, f: real, m: real)
    requires 0.0 <= h && f <= -1.0
    ensures h * f + m <= m - h
  {
    MulMonotone(h, f, -1.0);
  }

  lemma OffsetAbove(h: real, f: real, m: real)
    requires 0.0 <= h && 1.0 <= f
    ensures m + h <= h * f + m
  {
    MulMonotone(h, 1.0, f);
  }

  /**
   * The sigmoid curve holds `a.y` up to `a.x` and `b.y` from `b.x` on,
   * passes through the midpoint of the anchors, and stays between `a.y`
   * and `b.y`.
   */
  lemma SigmoidCurveShape(a: Vec2, b: Vec2, k: real, v: real)
    requires a.x < b.x && a.y <= b.y && -1.0 < k < 1.0
    ensures a.y <= SigmoidCurve(a, b, k, v) <= b.y
    ensures v <= a.x ==> SigmoidCurve(a, b, k, v) == a.y
    ensures b.x <= v ==> SigmoidCurve(a, b, k, v) == b.y
    ensures v == (a.x + b.x) / 2.0 ==> SigmoidCurve(a, b, k, v) == (a.y + b.y) / 2.0
  {
    var t := Position(a.x, b.x, v);
    SigmoidFactorAnchors(k, t);
    AroundAnchors(a.y, b.y, SigmoidFactor(k, t));
  }

  /** A sigmoid evaluator has the shape of its curve. */
  lemma SigmoidShape(e: Evaluator, v: real)
    requires e.Sigmoid? && e.Defined()
    ensures e.a.y <= e.Evaluate(v) <= e.b.y
    ensures v <= e.a.x ==> e.Evaluate(v) == e.a.y
    ensures e.b.x <= v ==> e.Evaluate(v) == e.b.y
    ensures v == (e.a.x + e.b.x) / 2.0 ==> e.Evaluate(v) == (e.a.y + e.b.y) / 2.0
  {
    assert e.Evaluate(v) == SigmoidCurve(e.a, e.b, e.k, v);
    SigmoidCurveShape(e.a, e.b, e.k, v);
  }

  /**
   * `SigmoidEvaluator::evaluate` as written: the absolute value wraps
   * `1 - 2t` instead of `t`, so the denominator ranges over `[1, 1 + 3k]`
   * rather than `[1 - |k|, 1 + |k|]` and can reach zero.
   */
  function SigmoidAsWritten(a: Vec2, b: Vec2, k: real, v: real): (r: real)
    requires a.x < b.x && a.y <= b.y
    requires Denominator(k, Abs(1.0 - 2.0 * Position(a.x, b.x, v))) != 0.0
    ensures a.y <= r <= b.y
  {
    Around(a.y, b.y, SigmoidFactorAsWritten(k, Position(a.x, b.x, v)))
  }

  /** The shape factor as written, with the absolute value around `1 - 2t`. */
  function SigmoidFactorAsWritten(k: real, t: real): real
    requires Denominator(k, Abs(1.0 - 2.0 * t)) != 0.0
  {
    t * (1.0 - k) / Denominator(k, Abs(1.0 - 2.0 * t))
  }

  /** At the left anchor with `k = -0.5` the denominator as written is negative and the factor is 3. */
  lemma FactorAsWrittenAtLeftAnchor()
    ensures Denominator(-0.5, Abs(1.0 - 2.0 * -1.0)) == -0.5
    ensures SigmoidFactorAsWritten(-0.5, -1.0) == 3.0
  {
    var d := Denominator(-0.5, Abs(1.0 - 2.0 * -1.0));
    assert d == -0.5;
    calc {
      SigmoidFactorAsWritten(-0.5, -1.0);
      -1.5 / d;
      { assert d == -0.5; }
      -1.5 / -0.5;
    }
  }

  /**
   * With the default `k = -0.5`, the sigmoid as written scores every input
   * at or below `a.x` as `b.y`, the opposite end of its range; the
   * corrected curve scores it `a.y`.
   */
  lemma SigmoidAsWrittenCounterexample(a: Vec2, b: Vec2, v: real)
    requires a.x < b.x && a.y <= b.y && v <= a.x
    ensures DEFAULT_SIGMOID == NewSigmoid(-0.5, Vec2(0.0, 0.0), Vec2(1.0, 1.0))
    ensures Denominator(-0.5, Abs(1.0 - 2.0 * Position(a.x, b.x, v))) == -0.5
    ensures SigmoidAsWritten(a, b, -0.5, v) == b.y
    ensures SigmoidCurve(a, b, -0.5, v) == a.y
  {
    var t := Position(a.x, b.x, v);
    assert t == -1.0;
    FactorAsWrittenAtLeftAnchor();
    var f := SigmoidFactorAsWritten(-0.5, t);
    assert f == 3.0;
    AroundAnchors(a.y, b.y, f);
    assert SigmoidAsWritten(a, b, -0.5, v) == Around(a.y, b.y, f);
    SigmoidCurveShape(a, b, -0.5, v);
  }

  /**
   * A rational curve is defined at every input exactly when its
   * denominator is positive at the far end of the interval; otherwise the
   * denominator vanishes at some input between the anchors.
   */
  lemma DefinedEverywhere(e: Evaluator)
    requires (e.Exponential? || e.Logarithmic?) && e.Defined()
    ensures (forall v :: e.DefinedAt(v)) <==> 0.0 < Denominator(e.k, e.bx - e.a.x)
  {
    var d := e.bx - e.a.x;
    if 0.0 < Denominator(e.k, d) {
      forall v ensures e.DefinedAt(v) {
        var cx := Clamp(v, e.a.x, e.bx);
        if e.Exponential? {
          PositiveOnInterval(e.k, e.bx - cx, d);
        } else {
          PositiveOnInterval(e.k, cx - e.a.x, d);
        }
      }
    } else {
      var u := Pole(e.k, d);
      var v := if e.Exponential? then e.bx - u else e.a.x + u;
      assert Clamp(v, e.a.x, e.bx) == v;
      assert !e.DefinedAt(v);
    }
  }

  /** Where `1 + k u` vanishes inside [0, d] when it is not positive at `d`. */
  lemma Pole(k: real, d: real) returns (u: real)
    requires 0.0 < d && Denominator(k, d) <= 0.0
    ensures 0.0 < u <= d && Denominator(k, u) == 0.0
  {
    if 0.0 <= k {
      NonNegProduct(k, d);
    }
    u := -1.0 / k;
    assert k * u == -1.0;
    assert (d - u) * -k == -Denominator(k, d);
    if (d - u) * -k == 0.0 {
      ZeroProduct(d - u, -k);
    } else {
      PositiveProduct(d - u, -k);
    }
  }

  /**
   * An exponential evaluator whose denominator is positive over its
   * interval passes through both anchors, and inputs outside `[a.x, b.x]`
   * score as the nearer end.
   */
  lemma ExponentialEndpoints(k: real, a: Vec2, b: Vec2, v: real)
    requires a.x < b.x && 0.0 < Denominator(ClampK(k), b.x - a.x)
    ensures NewExponential(k, a, b).DefinedAt(v) && NewExponential(k, a, b).DefinedAt(a.x)
    ensures NewExponential(k, a, b).DefinedAt(b.x) && NewExponential(k, a, b).DefinedAt(Clamp(v, a.x, b.x))
    ensures NewExponential(k, a, b).Evaluate(a.x) == a.y
    ensures NewExponential(k, a, b).Evaluate(b.x) == b.y
    ensures NewExponential(k, a, b).Evaluate(v) == NewExponential(k, a, b).Evaluate(Clamp(v, a.x, b.x))
  {
    DefinedEverywhere(NewExponential(k, a, b));
    DivMul(b.y - a.y, b.x - a.x);
  }

  /**
   * A logarithmic evaluator whose denominator is positive over its
   * interval starts at `a.y`, but at `b.x` it reaches
   * `a.y + dy / (1 + k dx)`, which is `b.y` only when `k` is 0; its output
   * is not clamped.
   */
  lemma LogarithmicEndpoints(k: real, a: Vec2, b: Vec2)
    requires a.x < b.x && 0.0 < Denominator(ClampK(k), b.x - a.x)
    ensures NewLogarithmic(k, a, b).DefinedAt(a.x) && NewLogarithmic(k, a, b).DefinedAt(b.x)
    ensures NewLogarithmic(k, a, b).Evaluate(a.x) == a.y
    ensures NewLogarithmic(k, a, b).Evaluate(b.x)
      == a.y + (b.y - a.y) / Denominator(ClampK(k), b.x - a.x)
    ensures k == 0.0 ==> NewLogarithmic(k, a, b).Evaluate(b.x) == b.y
  {
    DivMul(b.y - a.y, b.x - a.x);
  }

  /** Over [0, 1] with `k = -0.5` the logarithmic curve reaches 2 at 1. */
  lemma LogarithmicOvershoot()
    ensures LogarithmicFromRange(-0.5, 0.0, 1.0).Defined() && LogarithmicFromRange(-0.5, 0.0, 1.0).DefinedAt(1.0)
    ensures LogarithmicFromRange(-0.5, 0.0, 1.0).Evaluate(1.0) == 2.0
    ensures New(LogarithmicFromRange(-0.5, 0.0, 1.0).Evaluate(1.0)) == MAX
  {
    assert ClampK(-0.5) == -0.5;
    assert LogarithmicFromRange(-0.5, 0.0, 1.0) == Logarithmic(Vec2(0.0, 0.0), 1.0, -0.5, 1.0);
    assert Clamp(1.0, 0.0, 1.0) == 1.0;
    assert Denominator(-0.5, 1.0 - 0.0) == 0.5;
    assert (1.0 - 0.0) * 1.0 / 0.5 == 2.0;
    assert LogarithmicCurve(Vec2(0.0, 0.0), 1.0, -0.5, 1.0, 1.0) == 2.0;
  }

  /**
   * The default exponential evaluator is `from_k(-0.5)`: over [0, 1] it is
   * defined everywhere and passes through (0, 0) and (1, 1).
   */
  lemma DefaultExponential(v: real)
    ensures DEFAULT_EXPONENTIAL == NewExponential(-0.5, Vec2(0.0, 0.0), Vec2(1.0, 1.0))
    ensures DEFAULT_EXPONENTIAL.DefinedAt(v) && DEFAULT_EXPONENTIAL.DefinedAt(0.0) && DEFAULT_EXPONENTIAL.DefinedAt(1.0)
    ensures DEFAULT_EXPONENTIAL.Evaluate(0.0) == 0.0 && DEFAULT_EXPONENTIAL.Evaluate(1.0) == 1.0
  {
    assert ClampK(-0.5) == -0.5;
    assert (1.0 - 0.0) / (1.0 - 0.0) == 1.0;
    assert NewExponential(-0.5, Vec2(0.0, 0.0), Vec2(1.0, 1.0)) == DEFAULT_EXPONENTIAL;
    assert Denominator(ClampK(-0.5), 1.0 - 0.0) == 0.5;
    ExponentialEndpoints(-0.5, Vec2(0.0, 0.0), Vec2(1.0, 1.0), v);
  }

  /**
   * Past the pole: over [0, 3] with `k = -0.5` the exponential denominator
   * is negative at 0.5, so the curve gives -2/3 there, which `Score::set`
   * clamps to 0; at 1 the denominator is zero.
   */
  lemma ExponentialPastPole()
    ensures NewExponential(-0.5, Vec2(0.0, 0.0), Vec2(3.0, 1.0)).Defined()
    ensures NewExponential(-0.5, Vec2(0.0, 0.0), Vec2(3.0, 1.0)).DefinedAt(0.5)
    ensures !NewExponential(-0.5, Vec2(0.0, 0.0), Vec2(3.0, 1.0)).DefinedAt(1.0)
    ensures NewExponential(-0.5, Vec2(0.0, 0.0), Vec2(3.0, 1.0)).Evaluate(0.5) == -2.0 / 3.0
    ensures New(NewExponential(-0.5, Vec2(0.0, 0.0), Vec2(3.0, 1.0)).Evaluate(0.5)) == MIN
  {
    assert ClampK(-0.5) == -0.5;
    var e := NewExponential(-0.5, Vec2(0.0, 0.0), Vec2(3.0, 1.0));
    assert e == Exponential(Vec2(0.0, 0.0), 3.0, -0.5, 1.0 / 3.0);
    assert Clamp(0.5, 0.0, 3.0) == 0.5;
    assert Clamp(1.0, 0.0, 3.0) == 1.0;
    assert Denominator(-0.5, 3.0 - 0.5) == -0.25;
    assert Denominator(-0.5, 3.0 - 1.0) == 0.0;
    assert (0.5 - 0.0) * (1.0 / 3.0) / -0.25 == -2.0 / 3.0;
  }

  /**
   * The observer for `OnScore`: with exactly one child that has a score,
   * stores the evaluated child score, clamped by `Score::set`, into the
   * entity's own score; in every other case nothing changes.
   */
  method Observer(store: ScoreStore, children: map<Entity, seq<Entity>>, evaluated: map<Entity, Evaluator>, e: Entity)
    requires e in children && e in evaluated && |children[e]| == 1 && children[e][0] in store.of ==>
      evaluated[e].Defined() && evaluated[e].DefinedAt(store.of[children[e][0]].value)
    modifies store
    ensures e in children && e in evaluated && |children[e]| == 1 && children[e][0] in old(store.of) && e in old(store.of) ==>
      store.of == old(store.of)[e := New(evaluated[e].Evaluate(old(store.of)[children[e][0]].value))]
    ensures !(e in children && e in evaluated && |children[e]| == 1 && children[e][0] in old(store.of) && e in old(store.of)) ==>
      store.of == old(store.of)
  {
    if !(e in children && e in evaluated) || |children[e]| != 1 {
      return;
    }
    var child := children[e][0];
    if child !in store.of {
      return;
    }
    var value := evaluated[e].Evaluate(store.of[child].Get());
    if e !in store.of {
      return;
    }
    store.of := store.of[e := store.of[e].Set(value)];
  }
}
