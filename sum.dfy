/** `Sum`: scores the sum of the child scores, or 0 below a threshold. */
module SumScoring {
  import opened Entities
  import opened Scoring

  datatype Sum = Sum(threshold: Score)

  function NewSum(t: real): (s: Sum)
    ensures 0.0 <= t <= 1.0 ==> s.threshold.value == t
    ensures s.threshold == New(t)
  {
    Sum(New(t))
  }

  function SetThreshold(s: Sum, t: real): (r: Sum)
    ensures r == NewSum(t)
  {
    s.(threshold := New(t))
  }

  /** The score a `Sum` entity gets from its children's scores `xs`. */
  function SumScore(xs: seq<real>, threshold: real): Score
  {
    New(if Total(xs) < threshold then 0.0 else Total(xs))
  }

  /**
   * Below the threshold the result is 0; otherwise it is the children's
   * scores summed as the `Sum<f32> for Score` impl does, so it is their
   * total clamped to 1. No scored children give 0.
   */
  lemma SumScoreSpec(xs: seq<real>, threshold: real)
    requires forall k | 0 <= k < |xs| :: 0.0 <= xs[k] <= 1.0
    ensures Total(xs) < threshold ==> SumScore(xs, threshold) == MIN
    ensures threshold <= Total(xs) ==> SumScore(xs, threshold) == SumReals(xs)
    ensures threshold <= Total(xs) <= 1.0 ==> SumScore(xs, threshold).value == Total(xs)
    ensures xs == [] ==> SumScore(xs, threshold) == MIN
  {
    TotalBounds(xs);
  }

  /** Threshold 0.4 over 0.9 and 0.8, and threshold 0.1 over 0.7 and 0.3, both give 1. */
  lemma SumExamples()
    ensures SumScore([0.9, 0.8], 0.4) == MAX
    ensures SumScore([0.7, 0.3], 0.1) == MAX
  {
    assert Total([0.9, 0.8]) == Total([0.9]) + 0.8;
    assert Total([0.9]) == Total([]) + 0.9;
    assert Total([0.7, 0.3]) == Total([0.7]) + 0.3;
    assert Total([0.7]) == Total([]) + 0.7;
  }

  /**
   * The observer for `OnScore`: an entity with `Children` and `Sum` sums
   * the scores of its scored children, zeroes the sum below the threshold
   * and stores it clamped into its own `Score`, if it has one. Children
   * without a score are skipped.
   */
  method Observer(store: ScoreStore, children: map<Entity, seq<Entity>>, sums: map<Entity, Sum>, e: Entity)
    modifies store
    ensures e in children && e in sums && e in old(store.of) ==>
      store.of == old(store.of)[e := SumScore(ChildScores(children[e], old(store.of)), sums[e].threshold.value)]
    ensures !(e in children && e in sums && e in old(store.of)) ==> store.of == old(store.of)
  {
    if !(e in children && e in sums) {
      return;
    }
    var cs, settings := children[e], sums[e];
    var sum := 0.0;
    var j := 0;
    while j < |cs|
      invariant 0 <= j <= |cs|
      invariant store.of == old(store.of)
      invariant sum == Total(ChildScores(cs[..j], store.of))
    {
      ChildScoresStep(cs, j, store.of);
      if cs[j] in store.of {
        TotalStep(ChildScores(cs[..j], store.of), store.of[cs[j]].value);
        sum := sum + store.of[cs[j]].Get();
      }
      j := j + 1;
    }
    assert cs[..j] == cs;
    if sum < settings.threshold.Get() {
      sum := 0.0;
    }
    if e !in store.of {
      return;
    }
    store.of := store.of[e := store.of[e].Set(sum)];
  }
}
