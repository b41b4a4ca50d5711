/** `Product`: scores the product of the child scores, optionally compensated. */
module ProductScoring {
  import opened Entities
  import opened Scoring
  import opened RealArith

  datatype Product = Product(threshold: Score, useCompensation: bool)

  /** `Product::new`: the threshold clamped into a score, compensation off. */
  function NewProduct(t: real): (p: Product)
    ensures p.threshold == New(t) && !p.useCompensation
  {
    Product(New(t), false)
  }

  /** `Product::with_compensation`: only the flag changes. */
  function WithCompensation(p: Product, compensation: bool): (q: Product)
    ensures q.threshold == p.threshold && q.useCompensation == compensation
  {
    p.(useCompensation := compensation)
  }

  function SetThreshold(p: Product, t: real): (q: Product)
    ensures q.threshold == New(t) && q.useCompensation == p.useCompensation
  {
    p.(threshold := New(t))
  }

  /** The running product of a fold that starts at 1 and multiplies left to right. */
  function Prod(xs: seq<real>): real
  {
    if xs == [] then 1.0 else Prod(xs[..|xs| - 1]) * xs[|xs| - 1]
  }

  lemma ProdStep(xs: seq<real>, x: real)
    ensures Prod(xs + [x]) == Prod(xs) * x
  {
    assert (xs + [x])[..|xs|] == xs;
  }

  /** A product of scores is itself between 0 and 1. */
  lemma {:induction false} ProdBounds(xs: seq<real>)
    requires forall k | 0 <= k < |xs| :: 0.0 <= xs[k] <= 1.0
    ensures 0.0 <= Prod(xs) <= 1.0
  {
    if xs != [] {
      var init, x := xs[..|xs| - 1], xs[|xs| - 1];
      ProdBounds(init);
      ScaleDown(Prod(init), x);
    }
  }

  /**
   * The compensation for `n` factors: `p` plus its distance to 1, scaled
   * by `1 - 1/n`, times `p` again. It applies only when there is at least
   * one factor.
   */
  function Compensate(p: real, n: nat): real
  {
    if n > 0 then MakeUp(p, 1.0 - 1.0 / (n as real)) else p
  }

  /** `p` plus its distance to 1 scaled by `modFactor`, times `p` again. */
  function MakeUp(p: real, modFactor: real): real
  {
    var makeup := (1.0 - p) * modFactor;
    p + makeup * p
  }

  /** For a product in [0, 1], compensation never lowers it nor lifts it above 1; one factor is left as is. */
  lemma CompensationBounds(p: real, n: nat)
    requires 0.0 <= p <= 1.0
    ensures p <= Compensate(p, n) <= 1.0
    ensures n <= 1 ==> Compensate(p, n) == p
  {
    if n > 0 {
      var inv := 1.0 / (n as real);
      assert 0.0 < inv <= 1.0;
      assert n == 1 ==> inv == 1.0;
      MakeUpBounds(p, 1.0 - inv);
    }
  }

  /** With `p` and the factor in [0, 1], the made-up product stays within [p, 1], and is `p` for a factor of 0. */
  lemma MakeUpBounds(p: real, m: real)
    requires 0.0 <= p <= 1.0 && 0.0 <= m <= 1.0
    ensures p <= MakeUp(p, m) <= 1.0
    ensures m == 0.0 ==> MakeUp(p, m) == p
  {
    var mp := m * p;
    ScaleDown(p, m);
    assert 0.0 <= mp <= 1.0;
    ScaleDown(1.0 - p, mp);
    assert (1.0 - p) * m * p == (1.0 - p) * mp;
  }

  /** The score a `Product` entity gets from its children's scores `xs`. */
  function ProductScore(xs: seq<real>, settings: Product): Score
  {
    var product := if settings.useCompensation then Compensate(Prod(xs), |xs|) else Prod(xs);
    New(if product < settings.threshold.value then 0.0 else product)
  }

  /**
   * Without compensation the result is the plain product (1 for no
   * children), or 0 below the threshold; with compensation the threshold
   * is applied to the compensated product, which is never lower.
   */
  lemma ProductScoreSpec(xs: seq<real>, settings: Product)
    requires forall k | 0 <= k < |xs| :: 0.0 <= xs[k] <= 1.0
    ensures !settings.useCompensation ==>
      ProductScore(xs, settings).value == (if Prod(xs) < settings.threshold.value then 0.0 else Prod(xs))
    ensures settings.useCompensation ==>
      var c := Compensate(Prod(xs), |xs|);
      Prod(xs) <= c <= 1.0
      && ProductScore(xs, settings).value == (if c < settings.threshold.value then 0.0 else c)
    ensures !settings.useCompensation && xs == [] ==> ProductScore(xs, settings) == MAX
  {
    ProdBounds(xs);
    CompensationBounds(Prod(xs), |xs|);
  }

  /** Threshold 0.4 over 0.9 and 0.8 gives 0.72; threshold 0.1 over 0.7 and 0.3 gives 0.21. */
  lemma ProductExamples()
    ensures ProductScore([0.9, 0.8], NewProduct(0.4)).value == 0.72
    ensures ProductScore([0.7, 0.3], NewProduct(0.1)).value == 0.21
  {
    assert Prod([0.9, 0.8]) == Prod([0.9]) * 0.8;
    assert Prod([0.9]) == Prod([]) * 0.9;
    assert Prod([0.7, 0.3]) == Prod([0.7]) * 0.3;
    assert Prod([0.7]) == Prod([]) * 0.7;
  }

  /**
   * The threshold is applied after compensation: two children at 0.5
   * under threshold 0.3 score 0 plainly, but 0.34375 compensated.
   */
  lemma ThresholdAfterCompensation()
    ensures ProductScore([0.5, 0.5], NewProduct(0.3)) == MIN
    ensures ProductScore([0.5, 0.5], WithCompensation(NewProduct(0.3), true)).value == 0.34375
  {
    assert Prod([0.5, 0.5]) == Prod([0.5]) * 0.5;
    assert Prod([0.5]) == Prod([]) * 0.5;
  }

  /**
   * The observer for `OnScore`: an entity with `Children` and `Product`
   * multiplies the scores of its scored children, counting them, applies
   * the compensation, zeroes a result below the threshold, and stores it
   * clamped into its own `Score`, if it has one.
   */
  method Observer(store: ScoreStore, children: map<Entity, seq<Entity>>, products: map<Entity, Product>, e: Entity)
    modifies store
    ensures e in children && e in products && e in old(store.of) ==>
      store.of == old(store.of)[e := ProductScore(ChildScores(children[e], old(store.of)), products[e])]
    ensures !(e in children && e in products && e in old(store.of)) ==> store.of == old(store.of)
  {
    if !(e in children && e in products) {
      return;
    }
    var cs, settings := children[e], products[e];
    var product := 1.0;
    var numScores := 0;
    var j := 0;
    while j < |cs|
      invariant 0 <= j <= |cs|
      invariant store.of == old(store.of)
      invariant product == Prod(ChildScores(cs[..j], store.of))
      invariant numScores == |ChildScores(cs[..j], store.of)|
    {
      ChildScoresStep(cs, j, store.of);
      if cs[j] in store.of {
        ProdStep(ChildScores(cs[..j], store.of), store.of[cs[j]].value);
        product := product * store.of[cs[j]].Get();
        numScores := numScores + 1;
      }
      j := j + 1;
    }
    assert cs[..j] == cs;
    ghost var xs := ChildScores(cs, store.of);
    if settings.useCompensation && numScores > 0 {
      var modFactor := 1.0 - 1.0 / (numScores as real);
      var makeup := (1.0 - product) * modFactor;
      product := product + makeup * product;
      assert product == Compensate(Prod(xs), |xs|);
    }
    assert product == if settings.useCompensation then Compensate(Prod(xs), |xs|) else Prod(xs);
    if product < settings.threshold.Get() {
      product := 0.0;
    }
    if e !in store.of {
      return;
    }
    store.of := store.of[e := store.of[e].Set(product)];
  }
}
