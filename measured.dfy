/**
 * `Measured`: scores the children through a measure of their weighted
 * scores. `sqrt` stands for the square root the root-mean-square measure
 * takes; it is a parameter, and lemmas that need it to be a square root
 * say so with `IsSqrt`.
 */
module MeasuredScoring {
  import opened Entities
  import opened Scoring
  import opened RealArith

  /** A child's weight in a measure. */
  datatype Weighted = Weighted(weight: Score)

  /** The minimum weight: a child weighted so is not considered. */
  const WEIGHT_MIN: Weighted := Weighted(MIN)
  /** The maximum weight, which is also the default and the weight of an unweighted child. */
  const WEIGHT_MAX: Weighted := Weighted(MAX)

  function NewWeighted(w: real): (x: Weighted)
    ensures x.weight == New(w)
    ensures 0.0 <= w <= 1.0 ==> x.weight.value == w
  {
    Weighted(New(w))
  }

  /** `Weighted::set`: the new weight, clamped; the old one plays no part. */
  function SetWeight(x: Weighted, w: real): (y: Weighted)
    ensures y == NewWeighted(w)
  {
    x.(weight := New(w))
  }

  datatype Measure = WeightedSum | WeightedProduct | WeightedMax | WeightedRMS

  /** Left fold adding score times weight, from 0. */
  function WeightedTotal(inputs: seq<(real, real)>): real
  {
    if inputs == [] then 0.0
    else
      var (score, weight) := inputs[|inputs| - 1];
      WeightedTotal(inputs[..|inputs| - 1]) + score * weight
  }

  /** Left fold multiplying by score and then by weight, from 1. */
  function WeightedProd(inputs: seq<(real, real)>): real
  {
    if inputs == [] then 1.0
    else
      var (score, weight) := inputs[|inputs| - 1];
      WeightedProd(inputs[..|inputs| - 1]) * score * weight
  }

  /** One input's score times its weight. */
  function Weighed(input: (real, real)): real
  {
    input.0 * input.1
  }

  /** Left fold keeping the larger of score times weight and the best so far, from 0. */
  function WeightedMaximum(inputs: seq<(real, real)>): (m: real)
    ensures 0.0 <= m
    ensures forall k | 0 <= k < |inputs| :: Weighed(inputs[k]) <= m
  {
    if inputs == [] then 0.0
    else
      var init := inputs[..|inputs| - 1];
      var best := WeightedMaximum(init);
      var x := Weighed(inputs[|inputs| - 1]);
      assert forall k | 0 <= k < |init| :: init[k] == inputs[k];
      if x > best then x else best
  }

  /**
   * An input with the minimum weight is not considered: it changes neither
   * the weighted sum nor the weighted maximum.
   */
  lemma MinWeightIgnored(inputs: seq<(real, real)>, score: real)
    ensures WeightedTotal(inputs + [(score, WEIGHT_MIN.weight.value)]) == WeightedTotal(inputs)
    ensures WeightedMaximum(inputs + [(score, WEIGHT_MIN.weight.value)]) == WeightedMaximum(inputs)
  {
    var extended := inputs + [(score, WEIGHT_MIN.weight.value)];
    assert extended[..|extended| - 1] == inputs;
  }

  /** A nonzero weighted maximum is the weighted score of some input. */
  lemma {:induction false} WeightedMaximumAttained(inputs: seq<(real, real)>)
    ensures WeightedMaximum(inputs) == 0.0 || exists k | 0 <= k < |inputs| :: WeightedMaximum(inputs) == Weighed(inputs[k])
  {
    if inputs != [] {
      var n := |inputs| - 1;
      var init := inputs[..n];
      WeightedMaximumAttained(init);
      var best := WeightedMaximum(init);
      if Weighed(inputs[n]) <= best && best != 0.0 {
        var k :| 0 <= k < |init| && best == Weighed(init[k]);
        assert inputs[k] == init[k];
      }
    }
  }

  /** Left fold adding the weights, from 0, without clamping. */
  function WeightTotal(inputs: seq<(real, real)>): real
  {
    if inputs == [] then 0.0 else WeightTotal(inputs[..|inputs| - 1]) + inputs[|inputs| - 1].1
  }

  /** Left fold adding each weight divided by `total`, times the squared score. */
  function MeanSquare(inputs: seq<(real, real)>, total: real): real
    requires total != 0.0
  {
    if inputs == [] then 0.0
    else
      var (score, weight) := inputs[|inputs| - 1];
      MeanSquare(inputs[..|inputs| - 1], total) + weight / total * (score * score)
  }

  /**
   * The root mean square as the source computes it: the weights are
   * summed through the clamping `Sum<Score> for f32` impl, so a total
   * weight above 1 is cut to 1 and the mean is no longer a mean.
   */
  function RmsAsWritten(inputs: seq<(real, real)>, sqrt: real -> real): (r: Score)
    ensures 0.0 <= WeightTotal(inputs) <= 1.0 ==> r == Rms(inputs, sqrt)
  {
    var weightSum := New(WeightTotal(inputs)).Get();
    if weightSum == 0.0 then MIN else New(sqrt(MeanSquare(inputs, weightSum)))
  }

  /** The root mean square with the weights summed unclamped: a weighted mean of the squares. */
  function Rms(inputs: seq<(real, real)>, sqrt: real -> real): Score
  {
    var weightSum := WeightTotal(inputs);
    if weightSum == 0.0 then MIN else New(sqrt(MeanSquare(inputs, weightSum)))
  }

  /**
   * `Measure::calculate` for each measure, each result clamped into a
   * score; `WeightedRMS` is the corrected `Rms`. Without inputs the
   * product is 1 and every other measure 0.
   */
  function Calculate(m: Measure, inputs: seq<(real, real)>, sqrt: real -> real): (r: Score)
    ensures inputs == [] ==> r == (if m == WeightedProduct then MAX else MIN)
  {
    match m
    case WeightedSum => New(WeightedTotal(inputs))
    case WeightedProduct => New(WeightedProd(inputs))
    case WeightedMax => New(WeightedMaximum(inputs))
    case WeightedRMS => Rms(inputs, sqrt)
  }

  ghost predicate IsSqrt(sqrt: real -> real)
  {
    forall x | 0.0 <= x :: 0.0 <= sqrt(x) && sqrt(x) * sqrt(x) == x
  }

  predicate ValidInputs(inputs: seq<(real, real)>)
  {
    forall k | 0 <= k < |inputs| :: 0.0 <= inputs[k].0 <= 1.0 && 0.0 <= inputs[k].1 <= 1.0
  }

  lemma {:induction false} WeightTotalNonNegative(inputs: seq<(real, real)>)
    requires ValidInputs(inputs)
    ensures 0.0 <= WeightTotal(inputs)
  {
    if inputs != [] {
      WeightTotalNonNegative(inputs[..|inputs| - 1]);
    }
  }

  /** Each term of the mean is at most its weight's share, so the mean is at most the weights' share. */
  lemma {:induction false} MeanSquareBounds(inputs: seq<(real, real)>, total: real)
    requires ValidInputs(inputs) && 0.0 < total
    ensures 0.0 <= MeanSquare(inputs, total) <= WeightTotal(inputs) / total
  {
    if inputs != [] {
      var init := inputs[..|inputs| - 1];
      var (score, weight) := inputs[|inputs| - 1];
      MeanSquareBounds(init, total);
      ScaleDown(score, score);
      DivNonNegative(weight, total);
      ScaleDown(weight / total, score * score);
      DivAdd(WeightTotal(init), weight, total);
      var a, b := WeightTotal(init) / total, weight / total;
      assert MeanSquare(inputs, total) == MeanSquare(init, total) + b * (score * score);
      AddBelow(MeanSquare(init, total), b * (score * score), a, b);
      assert WeightTotal(inputs) == WeightTotal(init) + weight;
      assert a + b == WeightTotal(inputs) / total;
    } else {
      assert 0.0 / total == 0.0;
    }
  }

  /** When every score is `s`, the terms add up to `s * s` times the weights' share. */
  lemma {:induction false} MeanSquareOfEqualScores(inputs: seq<(real, real)>, total: real, s: real)
    requires total != 0.0
    requires forall k | 0 <= k < |inputs| :: inputs[k].0 == s
    ensures MeanSquare(inputs, total) == (s * s) * (WeightTotal(inputs) / total)
  {
    if inputs != [] {
      var init := inputs[..|inputs| - 1];
      var weight := inputs[|inputs| - 1].1;
      MeanSquareOfEqualScores(init, total, s);
      DivAdd(WeightTotal(init), weight, total);
      assert (s * s) * (WeightTotal(init) / total) + weight / total * (s * s)
          == (s * s) * (WeightTotal(init) / total + weight / total);
    }
  }

  /** The argument of the square root is a weighted mean of squares of scores, so it lies in [0, 1]. */
  lemma RmsArgumentInUnit(inputs: seq<(real, real)>)
    requires ValidInputs(inputs) && WeightTotal(inputs) != 0.0
    ensures 0.0 <= MeanSquare(inputs, WeightTotal(inputs)) <= 1.0
  {
    WeightTotalNonNegative(inputs);
    var total := WeightTotal(inputs);
    MeanSquareBounds(inputs, total);
    DivSelf(total);
  }

  /** A nonnegative number whose square is below 1 is below 1. */
  lemma RootBelowOne(y: real)
    requires 0.0 <= y && y * y < 1.0
    ensures y < 1.0
  {
    assert (1.0 - y) * (1.0 + y) == 1.0 - y * y;
    PositiveProduct(1.0 - y, 1.0 + y);
  }

  /** A nonnegative number whose square is `s * s` is `s`. */
  lemma RootOfSquare(y: real, s: real)
    requires 0.0 <= y && 0.0 <= s && y * y == s * s
    ensures y == s
  {
    assert (y - s) * (y + s) == y * y - s * s;
    ZeroProduct(y - s, y + s);
  }

  /** With every child at the same score `s` and any nonzero weights, the root mean square is `s`. */
  lemma RmsOfEqualScores(inputs: seq<(real, real)>, s: real, sqrt: real -> real)
    requires IsSqrt(sqrt) && 0.0 <= s <= 1.0
    requires forall k | 0 <= k < |inputs| :: inputs[k].0 == s
    requires WeightTotal(inputs) != 0.0
    ensures Rms(inputs, sqrt).value == s
  {
    var total := WeightTotal(inputs);
    MeanSquareOfEqualScores(inputs, total, s);
    assert MeanSquare(inputs, total) == s * s;
    RootOfSquare(sqrt(s * s), s);
  }

  /**
   * With some weight, the root mean square is the nonnegative root of the
   * weighted mean of the squared scores, never cut by the clamp.
   */
  lemma RmsIsRoot(inputs: seq<(real, real)>, sqrt: real -> real)
    requires IsSqrt(sqrt) && ValidInputs(inputs) && WeightTotal(inputs) != 0.0
    ensures 0.0 <= Rms(inputs, sqrt).value
    ensures Rms(inputs, sqrt).value * Rms(inputs, sqrt).value == MeanSquare(inputs, WeightTotal(inputs))
  {
    var ms := MeanSquare(inputs, WeightTotal(inputs));
    RmsArgumentInUnit(inputs);
    var y := sqrt(ms);
    assert 0.0 <= y && y * y == ms;
    if ms < 1.0 {
      RootBelowOne(y);
    } else {
      RootOfSquare(y, 1.0);
    }
  }

  /** No weight at all (no scored children, or all weights 0) gives `Score::MIN`. */
  lemma RmsZeroWeight(inputs: seq<(real, real)>, sqrt: real -> real)
    requires WeightTotal(inputs) == 0.0
    ensures Rms(inputs, sqrt) == MIN && RmsAsWritten(inputs, sqrt) == MIN
  {
  }

  /**
   * Two unweighted children (weight 1 each) both at 0.5: the source
   * divides by the clamped total 1 instead of 2, so the square root is
   * taken of 0.5 rather than 0.25 and the result is not 0.5, although
   * every child scores 0.5. The unclamped total gives 0.5.
   */
  lemma RmsAsWrittenCounterexample(sqrt: real -> real)
    requires IsSqrt(sqrt)
    ensures WeightTotal([(0.5, 1.0), (0.5, 1.0)]) == 2.0 && New(2.0).Get() == 1.0
    ensures MeanSquare([(0.5, 1.0), (0.5, 1.0)], 1.0) == 0.5 && MeanSquare([(0.5, 1.0), (0.5, 1.0)], 2.0) == 0.25
    ensures RmsAsWritten([(0.5, 1.0), (0.5, 1.0)], sqrt).value != 0.5
    ensures Rms([(0.5, 1.0), (0.5, 1.0)], sqrt).value == 0.5
  {
    var inputs := [(0.5, 1.0), (0.5, 1.0)];
    assert inputs[..1] == [(0.5, 1.0)] && [(0.5, 1.0)][..0] == [];
    assert WeightTotal(inputs) == 2.0;
    assert MeanSquare(inputs, 1.0) == 0.5;
    assert MeanSquare(inputs, 2.0) == 0.25;
    var y := sqrt(0.5);
    assert y * y == 0.5;
    RootBelowOne(y);
    RmsOfEqualScores(inputs, 0.5, sqrt);
  }

  /** The weighted sum, product and maximum of (0.9, 0.9) and (0.8, 0.1), and the mean square of the RMS. */
  lemma MeasureExamples(sqrt: real -> real)
    ensures Calculate(WeightedSum, [(0.9, 0.9), (0.8, 0.1)], sqrt).value == 0.89
    ensures Calculate(WeightedProduct, [(0.9, 0.9), (0.8, 0.1)], sqrt).value == 0.0648
    ensures Calculate(WeightedMax, [(0.9, 0.9), (0.8, 0.1)], sqrt).value == 0.81
    ensures Calculate(WeightedRMS, [(0.9, 0.9), (0.8, 0.1)], sqrt) == New(sqrt(0.793))
  {
    var inputs := [(0.9, 0.9), (0.8, 0.1)];
    assert inputs[..1] == [(0.9, 0.9)] && [(0.9, 0.9)][..0] == [];
    assert WeightTotal(inputs) == 1.0;
    assert MeanSquare(inputs, 1.0) == 0.793;
  }

  /**
   * What the observer gathers: for each scored child in order, its score
   * and its weight, 1 for a child without `Weighted`.
   */
  function Inputs(cs: seq<Entity>, of: map<Entity, Score>, weights: map<Entity, Weighted>): (r: seq<(real, real)>)
    ensures ValidInputs(r)
    ensures |r| == |Scored(cs, of)|
    ensures forall k | 0 <= k < |r| ::
      && r[k].0 == Scored(cs, of)[k].1
      && r[k].1 == if Scored(cs, of)[k].0 in weights then weights[Scored(cs, of)[k].0].weight.value else 1.0
  {
    if cs == [] then []
    else
      var c := cs[|cs| - 1];
      Inputs(cs[..|cs| - 1], of, weights)
      + if c in of then [(of[c].value, (if c in weights then weights[c] else WEIGHT_MAX).weight.value)] else []
  }

  /**
   * The observer for `OnScore`: gathers the inputs and writes the
   * measure's result to the entity's own `Score` as it is.
   */
  method Observer(store: ScoreStore, children: map<Entity, seq<Entity>>, measured: map<Entity, Measure>,
                  weights: map<Entity, Weighted>, sqrt: real -> real, e: Entity)
    modifies store
    ensures e in children && e in measured && e in old(store.of) ==>
      store.of == old(store.of)[e := Calculate(measured[e], Inputs(children[e], old(store.of), weights), sqrt)]
    ensures !(e in children && e in measured && e in old(store.of)) ==> store.of == old(store.of)
  {
    if !(e in children && e in measured) {
      return;
    }
    var cs := children[e];
    var inputs := [];
    var j := 0;
    while j < |cs|
      invariant 0 <= j <= |cs|
      invariant store.of == old(store.of)
      invariant inputs == Inputs(cs[..j], store.of, weights)
    {
      var c := cs[j];
      assert cs[..j + 1][..j] == cs[..j];
      if c in store.of {
        var weighted := if c in weights then weights[c] else WEIGHT_MAX;
        inputs := inputs + [(store.of[c].Get(), weighted.weight.Get())];
      } else {
        assert inputs + [] == inputs;
      }
      j := j + 1;
    }
    assert cs[..j] == cs;
    var result := Calculate(measured[e], inputs, sqrt);
    if e !in store.of {
      return;
    }
    store.of := store.of[e := result];
  }
}
