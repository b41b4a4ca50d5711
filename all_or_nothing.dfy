/** `AllOrNothing`: every scored child must reach the threshold, or the score is 0. */
module AllOrNothingScoring {
  import opened Entities
  import opened Scoring

  datatype AllOrNothing = AllOrNothing(threshold: Score)

  function NewAllOrNothing(t: real): (a: AllOrNothing)
    ensures a.threshold == New(t)
  {
    AllOrNothing(New(t))
  }

  function SetThreshold(a: AllOrNothing, t: real): (b: AllOrNothing)
    ensures b == NewAllOrNothing(t)
  {
    a.(threshold := New(t))
  }

  /** The score an `AllOrNothing` entity gets from its children's scores `xs`. */
  function AllOrNothingScore(xs: seq<real>, threshold: real): Score
  {
    if exists x | x in xs :: x < threshold then MIN else SumReals(xs)
  }

  /**
   * One child below the threshold zeroes the score; if none is, the score
   * is the children's total clamped to 1; no scored children give 0.
   */
  lemma AllOrNothingSpec(xs: seq<real>, threshold: real)
    requires forall k | 0 <= k < |xs| :: 0.0 <= xs[k] <= 1.0
    ensures (exists k | 0 <= k < |xs| :: xs[k] < threshold) ==> AllOrNothingScore(xs, threshold) == MIN
    ensures (forall k | 0 <= k < |xs| :: threshold <= xs[k]) ==>
      AllOrNothingScore(xs, threshold) == New(Total(xs))
      && (Total(xs) <= 1.0 ==> AllOrNothingScore(xs, threshold).value == Total(xs))
    ensures xs == [] ==> AllOrNothingScore(xs, threshold) == MIN
  {
    TotalBounds(xs);
    if exists k | 0 <= k < |xs| :: xs[k] < threshold {
      var k :| 0 <= k < |xs| && xs[k] < threshold;
      assert xs[k] in xs;
    }
  }

  /** Over 0.7 and 0.3, threshold 0.5 gives 0 and threshold 0.2 gives 1. */
  lemma AllOrNothingExamples()
    ensures AllOrNothingScore([0.7, 0.3], 0.5) == MIN
    ensures AllOrNothingScore([0.7, 0.3], 0.2) == MAX
  {
    assert 0.3 in [0.7, 0.3];
    assert Total([0.7, 0.3]) == Total([0.7]) + 0.3;
    assert Total([0.7]) == Total([]) + 0.7;
  }

  /**
   * The observer's scan over the children `cs`: sums the scored ones in
   * order, and stops with 0 at the first one below the threshold.
   */
  method Scan(cs: seq<Entity>, of: map<Entity, Score>, threshold: Score) returns (sum: real)
    ensures New(sum) == AllOrNothingScore(ChildScores(cs, of), threshold.value)
  {
    sum := 0.0;
    var j := 0;
    while j < |cs|
      invariant 0 <= j <= |cs|
      invariant sum == Total(ChildScores(cs[..j], of))
      invariant forall x | x in ChildScores(cs[..j], of) :: threshold.value <= x
    {
      ChildScoresStep(cs, j, of);
      if cs[j] in of {
        if of[cs[j]].Get() < threshold.Get() {
          ChildScoresMembers(cs, of);
          assert of[cs[j]].value in ChildScores(cs, of);
          return 0.0;
        }
        TotalStep(ChildScores(cs[..j], of), of[cs[j]].value);
        sum := sum + of[cs[j]].Get();
      }
      j := j + 1;
    }
    assert cs[..j] == cs;
  }

  /**
   * The observer for `OnScore`: an entity with children and
   * `AllOrNothing` settings gets the scan's result, clamped, as its own
   * `Score`; any other entity, or one without a `Score`, is left alone.
   */
  method Observer(store: ScoreStore, children: map<Entity, seq<Entity>>, settings: map<Entity, AllOrNothing>, e: Entity)
    modifies store
    ensures e in children && e in settings && e in old(store.of) ==>
      store.of == old(store.of)[e := AllOrNothingScore(ChildScores(children[e], old(store.of)), settings[e].threshold.value)]
    ensures !(e in children && e in settings && e in old(store.of)) ==> store.of == old(store.of)
  {
    if !(e in children && e in settings) {
      return;
    }
    var sum := Scan(children[e], store.of, settings[e].threshold);
    if e !in store.of {
      return;
    }
    store.of := store.of[e := store.of[e].Set(sum)];
  }
}
