/** `Winning`: scores the highest child score, or 0 below a threshold. */
module WinningScoring {
  import opened Entities
  import opened Scoring

  datatype Winning = Winning(threshold: Score)

  function NewWinning(t: real): (w: Winning)
    ensures w.threshold == New(t)
  {
    Winning(New(t))
  }

  /** `Winning::set_threshold` takes a score as it is. */
  function SetThreshold(w: Winning, t: Score): (v: Winning)
    ensures v.threshold == t
  {
    w.(threshold := t)
  }

  /** The running maximum of a fold that starts at 0 and replaces on strictly greater. */
  function MaxFromZero(xs: seq<real>): (m: real)
    ensures 0.0 <= m
    ensures forall k | 0 <= k < |xs| :: xs[k] <= m
    ensures m == 0.0 || m in xs
  {
    if xs == [] then 0.0
    else
      var rest := MaxFromZero(xs[..|xs| - 1]);
      assert forall x | x in xs[..|xs| - 1] :: x in xs;
      if xs[|xs| - 1] > rest then xs[|xs| - 1] else rest
  }

  lemma MaxStep(xs: seq<real>, x: real)
    ensures MaxFromZero(xs + [x]) == if x > MaxFromZero(xs) then x else MaxFromZero(xs)
  {
    assert (xs + [x])[..|xs|] == xs;
  }

  /** The score a `Winning` entity gets from its children's scores `xs`. */
  function WinningScore(xs: seq<real>, threshold: real): Score
  {
    var max := MaxFromZero(xs);
    New(if max < threshold then 0.0 else max)
  }

  /**
   * The result is the highest child score when it reaches the threshold,
   * and 0 otherwise; a nonzero result is the score of some child.
   */
  lemma WinningSpec(xs: seq<real>, threshold: real)
    requires forall k | 0 <= k < |xs| :: 0.0 <= xs[k] <= 1.0
    ensures WinningScore(xs, threshold).value == 0.0 || WinningScore(xs, threshold).value in xs
    ensures (exists k | 0 <= k < |xs| :: threshold <= xs[k]) ==>
      forall k | 0 <= k < |xs| :: xs[k] <= WinningScore(xs, threshold).value
    ensures (forall k | 0 <= k < |xs| :: xs[k] < threshold) ==> WinningScore(xs, threshold) == MIN
    ensures xs == [] ==> WinningScore(xs, threshold) == MIN
  {
    var m := MaxFromZero(xs);
    assert m == 0.0 || m in xs;
  }

  /** Threshold 0.5 over 0.9 and 0.8 gives 0.9, and over 0.7 and 0.3 gives 0.7. */
  lemma WinningExamples()
    ensures WinningScore([0.9, 0.8], 0.5).value == 0.9
    ensures WinningScore([0.7, 0.3], 0.5).value == 0.7
  {
    MaxStep([0.9], 0.8);
    MaxStep([], 0.9);
    assert [0.9] == [] + [0.9] && [0.9, 0.8] == [0.9] + [0.8];
    MaxStep([0.7], 0.3);
    MaxStep([], 0.7);
    assert [0.7] == [] + [0.7] && [0.7, 0.3] == [0.7] + [0.3];
  }

  /**
   * The observer for `OnScore`: keeps a running maximum over the scored
   * children, zeroes it below the threshold, and stores it into the
   * entity's own `Score`.
   */
  method Observer(store: ScoreStore, children: map<Entity, seq<Entity>>, settings: map<Entity, Winning>, e: Entity)
    modifies store
    ensures e in children && e in settings && e in old(store.of) ==>
      store.of == old(store.of)[e := WinningScore(ChildScores(children[e], old(store.of)), settings[e].threshold.value)]
    ensures !(e in children && e in settings && e in old(store.of)) ==> store.of == old(store.of)
  {
    if !(e in children && e in settings) {
      return;
    }
    var cs, threshold := children[e], settings[e].threshold;
    var max := 0.0;
    var j := 0;
    while j < |cs|
      invariant 0 <= j <= |cs|
      invariant store.of == old(store.of)
      invariant max == MaxFromZero(ChildScores(cs[..j], store.of))
    {
      ChildScoresStep(cs, j, store.of);
      if cs[j] in store.of {
        MaxStep(ChildScores(cs[..j], store.of), store.of[cs[j]].value);
        if store.of[cs[j]].Get() > max {
          max := store.of[cs[j]].Get();
        }
      }
      j := j + 1;
    }
    assert cs[..j] == cs;
    if max < threshold.Get() {
      max := 0.0;
    }
    if e !in store.of {
      return;
    }
    store.of := store.of[e := store.of[e].Set(max)];
  }
}
