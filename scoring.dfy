/**
 * The score value, its sums and ranges, and the scoring dispatch: which
 * entities a `RunScoring` run visits and in which order, and the
 * closest-ancestor scorer.
 */
module Scoring {
  import opened Wrappers
  import opened Entities
  import opened Hierarchy
  import opened Ecs

  /** `f32::clamp` on reals; the source panics when `lo > hi`. */
  function Clamp(x: real, lo: real, hi: real): (r: real)
    requires lo <= hi
    ensures lo <= r <= hi
    ensures lo <= x <= hi ==> r == x
    ensures x < lo ==> r == lo
    ensures hi < x ==> r == hi
  {
    if x < lo then lo else if hi < x then hi else x
  }

  type Unit = r: real | 0.0 <= r <= 1.0

  /** A score: a value that always lies in [0, 1]. */
  datatype Score = Score(value: Unit)
  {
    function Get(): (r: real)
      ensures 0.0 <= r <= 1.0 && New(r) == this
    {
      value
    }

    /** `Score::set`: the new value is `v` clamped; the old value plays no part. */
    function Set(v: real): (s: Score)
      ensures 0.0 <= v <= 1.0 ==> s.value == v
      ensures v < 0.0 ==> s == MIN
      ensures 1.0 < v ==> s == MAX
    {
      New(v)
    }
  }

  const MIN: Score := Score(0.0)
  const MAX: Score := Score(1.0)

  /** `Score::new`: in-range values are kept, others clamped to the nearer end. */
  function New(v: real): (s: Score)
    ensures 0.0 <= v <= 1.0 ==> s.value == v
    ensures v < 0.0 ==> s == MIN
    ensures 1.0 < v ==> s == MAX
  {
    Score(Clamp(v, 0.0, 1.0))
  }

  /** Clamping twice is clamping once. */
  lemma NewIdempotent(v: real)
    ensures New(New(v).value) == New(v)
  {
  }

  /** `Score::new` never reverses the order of two values. */
  lemma NewMonotone(v: real, w: real)
    requires v <= w
    ensures New(v).value <= New(w).value
  {
  }

  /** The running total of a fold that starts at `Score::MIN` and adds left to right. */
  function Total(xs: seq<real>): real
  {
    if xs == [] then 0.0 else Total(xs[..|xs| - 1]) + xs[|xs| - 1]
  }

  lemma {:induction false} TotalAppend(xs: seq<real>, ys: seq<real>)
    ensures Total(xs + ys) == Total(xs) + Total(ys)
    decreases |ys|
  {
    if ys == [] {
      assert xs + ys == xs;
    } else {
      var n := |ys| - 1;
      assert (xs + ys)[..|xs + ys| - 1] == xs + ys[..n];
      TotalAppend(xs, ys[..n]);
    }
  }

  lemma TotalStep(xs: seq<real>, x: real)
    ensures Total(xs + [x]) == Total(xs) + x
  {
    assert (xs + [x])[..|xs|] == xs;
  }

  /** A total of scores lies between 0 and the number of scores. */
  lemma {:induction false} TotalBounds(xs: seq<real>)
    requires forall k | 0 <= k < |xs| :: 0.0 <= xs[k] <= 1.0
    ensures 0.0 <= Total(xs) <= |xs| as real
  {
    if xs != [] {
      TotalBounds(xs[..|xs| - 1]);
    }
  }

  function Values(ss: seq<Score>): (r: seq<real>)
    ensures |r| == |ss| && forall k | 0 <= k < |ss| :: r[k] == ss[k].value
  {
    seq(|ss|, k requires 0 <= k < |ss| => ss[k].value)
  }

  /** `impl Sum<f32> for Score`: the total, clamped into a score. */
  function SumReals(xs: seq<real>): (s: Score)
    ensures 0.0 <= Total(xs) <= 1.0 ==> s.value == Total(xs)
    ensures Total(xs) < 0.0 ==> s == MIN
    ensures 1.0 < Total(xs) ==> s == MAX
  {
    New(Total(xs))
  }

  /** `impl Sum<Score> for Score`: unwraps the values and sums them as above. */
  function SumScores(ss: seq<Score>): (s: Score)
  {
    SumReals(Values(ss))
  }

  /** `impl Sum<Score> for f32`: the same total, clamped, returned as a plain value. */
  function SumScoresToReal(ss: seq<Score>): (r: real)
    ensures 0.0 <= r <= 1.0
  {
    New(Total(Values(ss))).Get()
  }

  /**
   * The three `Sum` impls agree, and a sum of scores is their exact total
   * whenever that total is at most 1, and `Score::MAX` otherwise.
   */
  lemma SumsAgree(ss: seq<Score>)
    ensures SumScoresToReal(ss) == SumScores(ss).value
    ensures Total(Values(ss)) <= 1.0 ==> SumScores(ss).value == Total(Values(ss))
    ensures 1.0 < Total(Values(ss)) ==> SumScores(ss) == MAX
  {
    TotalBounds(Values(ss));
  }

  /** Adding a score to a sum never lowers it. */
  lemma SumGrows(ss: seq<Score>, s: Score)
    ensures SumScores(ss).value <= SumScores(ss + [s]).value
  {
    assert Values(ss + [s]) == Values(ss) + [s.value];
    TotalAppend(Values(ss), [s.value]);
    assert Total([s.value]) == Total([]) + s.value;
  }

  datatype Bound = Included(score: Score) | Excluded(score: Score) | Unbounded

  /** `ScoreRange`: a range of scores with possibly open or missing ends. */
  datatype ScoreRange = ScoreRange(min: Bound, max: Bound)
  {
    /** `min_f32`: the lower end, or 0 when there is none. */
    function MinValue(): (r: real)
      ensures 0.0 <= r <= 1.0
      ensures min.Unbounded? ==> r == MIN.value
      ensures !min.Unbounded? ==> r == min.score.value
    {
      match min
      case Included(s) => s.value
      case Excluded(s) => s.value
      case Unbounded => MIN.value
    }

    /** `max_f32`: the upper end, or 1 when there is none. */
    function MaxValue(): (r: real)
      ensures 0.0 <= r <= 1.0
      ensures max.Unbounded? ==> r == MAX.value
      ensures !max.Unbounded? ==> r == max.score.value
    {
      match max
      case Included(s) => s.value
      case Excluded(s) => s.value
      case Unbounded => MAX.value
    }
  }

  const FULL: ScoreRange := ScoreRange(Included(MIN), Included(MAX))

  /**
   * `ScoreRange::new`: when both ends carry a score and the upper one is
   * the smaller, the two scores trade places while each end keeps its
   * kind (included or excluded); anything else is kept as given.
   */
  function NewRange(min: Bound, max: Bound): (r: ScoreRange)
    ensures r.min.Included? == min.Included? && r.min.Excluded? == min.Excluded?
    ensures r.max.Included? == max.Included? && r.max.Excluded? == max.Excluded?
    ensures !min.Unbounded? && !max.Unbounded? && max.score.value < min.score.value ==>
      r.min.score == max.score && r.max.score == min.score
    ensures min.Unbounded? || max.Unbounded? || min.score.value <= max.score.value ==>
      r == ScoreRange(min, max)
  {
    if !min.Unbounded? && !max.Unbounded? && max.score.value < min.score.value then
      ScoreRange(min.(score := max.score), max.(score := min.score))
    else
      ScoreRange(min, max)
  }

  /** Every range `new` builds, and `FULL`, has its lower end at or below its upper end. */
  lemma RangeOrdered(min: Bound, max: Bound)
    ensures NewRange(min, max).MinValue() <= NewRange(min, max).MaxValue()
    ensures FULL.MinValue() == 0.0 && FULL.MaxValue() == 1.0
  {
  }

  /** The `Score` column of the world. Observers read and overwrite entries in place. */
  class ScoreStore {
    var of: map<Entity, Score>

    constructor (of: map<Entity, Score>)
      ensures this.of == of
    {
      this.of := of;
    }
  }

  /**
   * What iterating the `Score` query over a child list yields: the scores
   * of those children that have one, in child order.
   */
  function ChildScores(cs: seq<Entity>, of: map<Entity, Score>): (r: seq<real>)
    ensures |r| <= |cs|
    ensures forall k | 0 <= k < |r| :: 0.0 <= r[k] <= 1.0
  {
    if cs == [] then []
    else
      var init := cs[..|cs| - 1];
      ChildScores(init, of) + (if cs[|cs| - 1] in of then [of[cs[|cs| - 1]].value] else [])
  }

  /** Exactly the scores of the scored children occur in `ChildScores`. */
  lemma {:induction false} ChildScoresMembers(cs: seq<Entity>, of: map<Entity, Score>)
    ensures forall c | c in cs && c in of :: of[c].value in ChildScores(cs, of)
    ensures forall x | x in ChildScores(cs, of) :: exists c | c in cs && c in of :: of[c].value == x
  {
    if cs != [] {
      var init := cs[..|cs| - 1];
      ChildScoresMembers(init, of);
      assert cs == init + [cs[|cs| - 1]];
      assert forall c | c in init :: c in cs;
    }
  }

  /** One more child: the loops in the observers take exactly this step. */
  lemma ChildScoresStep(cs: seq<Entity>, j: nat, of: map<Entity, Score>)
    requires j < |cs|
    ensures cs[j] in of ==> ChildScores(cs[..j + 1], of) == ChildScores(cs[..j], of) + [of[cs[j]].value]
    ensures cs[j] !in of ==> ChildScores(cs[..j + 1], of) == ChildScores(cs[..j], of)
  {
    assert cs[..j + 1][..j] == cs[..j];
    assert ChildScores(cs[..j], of) + [] == ChildScores(cs[..j], of);
  }

  /**
   * The same query with the child entity kept, as the pickers iterate it:
   * `(child, score)` for each child that has a score, in child order.
   */
  function Scored(cs: seq<Entity>, of: map<Entity, Score>): (r: seq<(Entity, real)>)
    ensures |r| <= |cs|
    ensures forall k | 0 <= k < |r| :: r[k].0 in cs && r[k].0 in of && r[k].1 == of[r[k].0].value
  {
    if cs == [] then []
    else
      var init := cs[..|cs| - 1];
      assert forall c | c in init :: c in cs;
      Scored(init, of) + (if cs[|cs| - 1] in of then [(cs[|cs| - 1], of[cs[|cs| - 1]].value)] else [])
  }

  lemma ScoredStep(cs: seq<Entity>, j: nat, of: map<Entity, Score>)
    requires j < |cs|
    ensures cs[j] in of ==> Scored(cs[..j + 1], of) == Scored(cs[..j], of) + [(cs[j], of[cs[j]].value)]
    ensures cs[j] !in of ==> Scored(cs[..j + 1], of) == Scored(cs[..j], of)
  {
    assert cs[..j + 1][..j] == cs[..j];
    assert Scored(cs[..j], of) + [] == Scored(cs[..j], of);
  }

  lemma {:induction false} ScoredAppend(xs: seq<Entity>, ys: seq<Entity>, of: map<Entity, Score>)
    ensures Scored(xs + ys, of) == Scored(xs, of) + Scored(ys, of)
    decreases |ys|
  {
    if ys == [] {
      assert xs + ys == xs;
    } else {
      var n := |ys| - 1;
      assert (xs + ys)[..|xs + ys| - 1] == xs + ys[..n];
      ScoredAppend(xs, ys[..n], of);
    }
  }

  /**
   * A root of an untargeted run: a scored entity with no parent, or whose
   * parent exists and has no score. An entity whose parent no longer
   * exists is not a root.
   */
  predicate IsRoot(e: Entity, parent: map<Entity, Entity>, alive: set<Entity>, scored: set<Entity>)
  {
    e !in parent || (parent[e] in alive && parent[e] !in scored)
  }

  /** The roots among `candidates`, the scored entities in query order. */
  function Roots(candidates: seq<Entity>, parent: map<Entity, Entity>, alive: set<Entity>, scored: set<Entity>)
    : (r: seq<Entity>)
    ensures forall e :: e in r <==> e in candidates && IsRoot(e, parent, alive, scored)
  {
    if candidates == [] then []
    else
      var e := candidates[|candidates| - 1];
      var init := candidates[..|candidates| - 1];
      assert candidates == init + [e];
      Roots(init, parent, alive, scored) + (if IsRoot(e, parent, alive, scored) then [e] else [])
  }

  /**
   * What an untargeted run sees of the world: `candidates` lists every
   * entity with a `Score` once; scored entities exist; `Children` and
   * `Parent` agree, so an entity whose parent exists is among that
   * parent's children.
   */
  ghost predicate QueriedWorld(h: Hierarchy, candidates: seq<Entity>, parent: map<Entity, Entity>, alive: set<Entity>)
  {
    && (forall e :: e in candidates <==> e in h.matching)
    && (forall i, j | 0 <= i < j < |candidates| :: candidates[i] != candidates[j])
    && h.matching <= alive
    && (forall p, c | p in h.children && c in h.children[p] :: c in parent && parent[c] == p)
    && (forall c | c in parent && parent[c] in alive :: parent[c] in h.children && c in h.children[parent[c]])
  }

  /** Post-orders of the given roots, one after the other. */
  ghost function PostAll(h: Hierarchy, roots: seq<Entity>): seq<Entity>
    requires h.Acyclic()
  {
    if roots == [] then [] else PostAll(h, roots[..|roots| - 1]) + Post(h, roots[|roots| - 1])
  }

  /** One more candidate: the loop of an untargeted run takes exactly this step. */
  lemma RootsStep(h: Hierarchy, candidates: seq<Entity>, j: nat, parent: map<Entity, Entity>, alive: set<Entity>)
    requires h.Acyclic() && j < |candidates|
    ensures var e := candidates[j];
      PostAll(h, Roots(candidates[..j + 1], parent, alive, h.matching))
      == PostAll(h, Roots(candidates[..j], parent, alive, h.matching))
         + (if IsRoot(e, parent, alive, h.matching) then Post(h, e) else [])
  {
    var e := candidates[j];
    assert candidates[..j + 1][..j] == candidates[..j];
    var r := Roots(candidates[..j], parent, alive, h.matching);
    if IsRoot(e, parent, alive, h.matching) {
      assert (r + [e])[..|r|] == r;
    } else {
      assert Roots(candidates[..j + 1], parent, alive, h.matching) == r;
    }
  }

  /**
   * `run_scoring_post_order_dfs`: the targets of the `OnScore` events it
   * queues, in order. A targeted run scores the subtree of its target; an
   * untargeted one scores the subtree of every root, in query order. The
   * traversal only descends through scored entities (`h.matching`).
   */
  method RunScoring(dfs: PostTraversal, trigger: Entity, candidates: seq<Entity>,
                    parent: map<Entity, Entity>, alive: set<Entity>)
    returns (events: seq<Entity>)
    requires dfs.Valid() && QueriedWorld(dfs.h, candidates, parent, alive)
    modifies dfs
    ensures dfs.Valid()
    ensures GetEntity(trigger).Some? ==> events == Post(dfs.h, trigger)
    ensures GetEntity(trigger).None? ==> events == PostAll(dfs.h, Roots(candidates, parent, alive, dfs.h.matching))
  {
    if GetEntity(trigger).Some? {
      events := dfs.Collect(trigger);
    } else {
      events := ScoreRoots(dfs, candidates, parent, alive);
    }
  }

  /** The untargeted half of `RunScoring`: filters the candidates and traverses from each root. */
  method ScoreRoots(dfs: PostTraversal, candidates: seq<Entity>, parent: map<Entity, Entity>, alive: set<Entity>)
    returns (events: seq<Entity>)
    requires dfs.Valid() && QueriedWorld(dfs.h, candidates, parent, alive)
    modifies dfs
    ensures dfs.Valid()
    ensures events == PostAll(dfs.h, Roots(candidates, parent, alive, dfs.h.matching))
  {
    events := [];
    var j := 0;
    while j < |candidates|
      invariant 0 <= j <= |candidates| && dfs.Valid()
      invariant events == PostAll(dfs.h, Roots(candidates[..j], parent, alive, dfs.h.matching))
    {
      var e := candidates[j];
      RootsStep(dfs.h, candidates, j, parent, alive);
      if IsRoot(e, parent, alive, dfs.h.matching) {
        var sorted := dfs.Collect(e);
        events := events + sorted;
      }
      j := j + 1;
    }
    assert candidates[..j] == candidates;
  }

  /** Whatever an untargeted run queues for one root, it queues every entity of that root's subtree. */
  lemma {:induction false} PostAllCovers(h: Hierarchy, roots: seq<Entity>, k: nat, x: Entity)
    requires h.Acyclic() && k < |roots| && x in Post(h, roots[k])
    ensures x in PostAll(h, roots)
  {
    if k < |roots| - 1 {
      PostAllCovers(h, roots[..|roots| - 1], k, x);
    }
  }

  /**
   * An untargeted run scores every entity with a `Score` whose chain of
   * scored ancestors, `chain[0]` first and its parent-child links intact,
   * starts at a root: an entity without a parent or under one without a
   * score.
   */
  lemma UntargetedCoversScored(h: Hierarchy, candidates: seq<Entity>, parent: map<Entity, Entity>,
                               alive: set<Entity>, chain: seq<Entity>)
    requires h.Acyclic() && QueriedWorld(h, candidates, parent, alive)
    requires chain != [] && forall k | 0 <= k < |chain| :: chain[k] in h.matching
    requires forall k | 0 < k < |chain| :: chain[k] in parent && parent[chain[k]] == chain[k - 1]
    requires IsRoot(chain[0], parent, alive, h.matching)
    ensures chain[|chain| - 1] in PostAll(h, Roots(candidates, parent, alive, h.matching))
  {
    forall k | 0 <= k < |chain| - 1
      ensures h.Expands(chain[k]) && chain[k + 1] in h.children[chain[k]]
    {
      assert chain[k + 1] in parent && parent[chain[k + 1]] == chain[k];
      assert chain[k] in alive;
    }
    assert IsPath(h, chain);
    ReachableInPost(h, chain);
    var roots := Roots(candidates, parent, alive, h.matching);
    assert chain[0] in roots;
    var k :| 0 <= k < |roots| && roots[k] == chain[0];
    PostAllCovers(h, roots, k, chain[|chain| - 1]);
  }

  /** The score `score_ancestor` assigns: from the closest holder of `T`, or `Score::MIN` without one. */
  function FromAncestor(w: Ancestry, into: Entity -> Score, scorer: Entity): Score
    requires w.Acyclic()
  {
    match Nearest(w, scorer)
    case Ok(found) => into(found)
    case Err(_) => MIN
  }

  /**
   * `score_ancestor<T, ScoreMarker>`: scorers with a `Score` and the
   * marker take their score from the closest holder of `T` at or above
   * them, converted by `into`; others are left alone.
   */
  method ScoreAncestor(store: ScoreStore, marked: set<Entity>, ancestors: AncestorQuery, w: Ancestry,
                       into: Entity -> Score, scorer: Entity)
    requires w.Acyclic()
    modifies store, ancestors
    ensures !(scorer in old(store.of) && scorer in marked) ==>
      store.of == old(store.of) && ancestors.cache == old(ancestors.cache)
    ensures scorer in old(store.of) && scorer in marked ==>
      store.of.Keys == old(store.of).Keys
      && (store.of[scorer] == MIN || exists f | w.Has(f) :: store.of[scorer] == into(f))
      && forall e | e in store.of && e != scorer :: store.of[e] == old(store.of)[e]
    ensures scorer in old(store.of) && scorer in marked && old(ancestors.CacheAgrees(w)) ==>
      store.of == old(store.of)[scorer := FromAncestor(w, into, scorer)] && ancestors.CacheAgrees(w)
  {
    if !(scorer in store.of && scorer in marked) {
      return;
    }
    var found := ancestors.Get(w, scorer);
    if found.Ok? {
      store.of := store.of[scorer := into(found.value)];
    } else {
      store.of := store.of[scorer := MIN];
    }
  }
}
