# bevy_observed_utility in Dafny

A model of the core of `bevy_observed_utility`, a utility-AI library for the
Bevy ECS. The library has three stages:

- **Scoring.** It scores a hierarchy of entities bottom-up: a
  depth-first post-order traversal queues one `OnScore` per entity. Each
  scorer then folds its children's scores into its own: fixed, sum,
  product, all-or-nothing, winning, measured or evaluated.
- **Picking.** Each actor's picker maps the chosen scored child to an
  action id. There are two policies: first to reach a threshold, and
  highest.
- **Acting.** A small lifecycle cancels the running action, records the
  next one and initiates it, and asks for a new pick when an action
  completes.

Scores are reals in [0, 1] (`Scoring.Score`). Deferred `Commands` are a
FIFO queue of events (`Events.CommandQueue`). A component column is a
`map<Entity, _>` that an observer overwrites in place (`Scoring.ScoreStore`).

State the source changes in place is a class with `modifies` clauses:
- the traversal queue (`Ecs.PostTraversal`);
- the ancestor cache (`Ecs.AncestorQuery`);
- the picker (`Picking.Picker`);
- the `Score` column;
- the command queue.

Each loop of the source is a `while` loop whose invariant ties it to a
reference function:
- the traversal to `Hierarchy.Post`;
- the fold of each aggregator to `Total`, `Prod`, `MaxFromZero`, `Inputs`
  or `AllOrNothingScore`;
- each picker's scan to `FirstReaching` or `HighestOf`;
- the multi-actor observers to `Concat` or `Announce`;
- the idle re-request loop to `IdleRequests`.

Lemmas state the properties of those reference functions. For the
traversal these are:
- post-order: children come before their parent;
- exactly the reachable entities are yielded, once each;
- the root comes last;
- siblings keep their order;
- the query filter stops descent, not yielding.

Modules, one per source file: `Entities` and `Ecs` (src/ecs.rs, with
`Hierarchy` holding the reference post-order), `Scoring`, `FixedScoring`,
`SumScoring`, `ProductScoring`, `AllOrNothingScoring`, `WinningScoring`,
`MeasuredScoring`, `EvaluatorScoring`, `Picking`, `FirstToScorePicking`,
`HighestPicking`, `Events`, `Acting` and `Lifecycle` (src/lib.rs).
`Wrappers` (Option/Result) and `RealArith` (small facts about real
multiplication and division) are helpers.

## Model

| member | source | states |
|---|---|---|
| Entities.GetEntity | src/ecs.rs:39-44 | `None` exactly for the placeholder entity; otherwise the triggered entity itself |
| Hierarchy.RootLast | src/ecs.rs:245-282 | the post-order of a subtree is non-empty and ends with its root |
| Hierarchy.ChildrenFirst | src/ecs.rs:250-281 | for every yielded entity whose children are visited, each child occurs before it (post-order) |
| Hierarchy.PostReachable | src/ecs.rs:245-282 | every yielded entity is reachable from the root through a parent-to-child path of expanded entities |
| Hierarchy.ReachableInPost | src/ecs.rs:245-282 | every entity at the end of such a path from the root is yielded |
| Hierarchy.PostNoDuplicates | src/ecs.rs:245-282 | in a forest no entity is yielded twice |
| Hierarchy.SiblingOrder | src/ecs.rs:271-273 | every entity of an earlier sibling's subtree comes before every entity of a later sibling's subtree |
| Hierarchy.FilterStopsDescent | src/ecs.rs:265-268 | a child occurs in a traversal only if its parent passed the filter and occurs too; a rejected entity is yielded but its children are not |
| Ecs.InsertAll | src/ecs.rs:271-273 | the children, tagged with the next depth, are inserted in order right after the given position |
| Ecs.Descend | src/ecs.rs:251-274 | the inner loop keeps the sequence still to be yielded unchanged and stops with the next entity to yield on top of the visited stack |
| Ecs.PostTraversal.Iter | src/ecs.rs:230-239 | the queue is exactly `[(0, root)]` with nothing visited, so nothing carries over; what remains to be yielded is the post-order of `root` |
| Ecs.PostTraversal.Next | src/ecs.rs:245-282 | yields the first entity still to come and removes it from the rest; once nothing remains it returns `None` and changes nothing (fused) |
| Ecs.PostTraversal.Collect | src/ecs.rs:217-219 | a full iteration from `root` yields exactly `Post(h, root)` |
| Ecs.Chain | src/ecs.rs:60-79 | the ancestor walk starts at `start`, follows parent links, and stops at the first holder, missing entity or parentless entity |
| Ecs.NearestIsEndOfChain | src/ecs.rs:60-79 | the search succeeds exactly when the end of the chain holds `T`; otherwise the error names that end |
| Ecs.NearestIsClosest | src/ecs.rs:60-79 | a found entity holds `T`, and every entity before it on the chain exists and lacks `T` |
| Ecs.AncestorQuery.Find | src/ecs.rs:60-80 | returns the closest holder, and caches `start -> found` only on success |
| Ecs.AncestorQuery.ClearCache | src/ecs.rs:83-85 | the cache becomes empty |
| Ecs.AncestorQuery.Get | src/ecs.rs:94-107 | a cached entry that still holds `T` is returned as is; a stale one is removed and the search redone; with a cache that agrees with the world, the answer is the closest holder |
| Ecs.World.ApplyOnce | src/ecs.rs:153-161 | the command runs only when the marker resource is absent, and the marker is inserted; otherwise nothing changes |
| Scoring.Clamp | src/scoring.rs:145-149 | the result is in `[lo, hi]`; in-range values are kept; values below and above go to the nearer end |
| Scoring.New | src/scoring.rs:145-149 | `Score::new` keeps in-range values and maps values below 0 to `MIN` and above 1 to `MAX` |
| Scoring.Score.Get | src/scoring.rs:163-165 | the value is in [0, 1], and `Score::new` of it gives back the same score |
| Scoring.Score.Set | src/scoring.rs:169-171 | the new score is the argument clamped to [0, 1]; the old value plays no part |
| Scoring.NewIdempotent | src/scoring.rs:145-149 | clamping twice is clamping once |
| Scoring.NewMonotone | src/scoring.rs:145-149 | `Score::new` preserves order |
| Scoring.SumReals | src/scoring.rs:219-224 | summing reals into a score gives the total clamped to [0, 1] |
| Scoring.SumScoresToReal | src/scoring.rs:226-233 | summing scores into a real gives a value in [0, 1] |
| Scoring.SumsAgree | src/scoring.rs:210-233 | summing scores into a score and into a real agree; the sum is the exact total when that total is at most 1, and `MAX` otherwise |
| Scoring.SumGrows | src/scoring.rs:210-217 | adding a score never lowers a sum |
| Scoring.ScoreRange.MinValue | src/scoring.rs:280-285 | `min_f32` is in [0, 1]: 0 for an unbounded minimum, else the bound's score |
| Scoring.ScoreRange.MaxValue | src/scoring.rs:295-300 | `max_f32` is in [0, 1]: 1 for an unbounded maximum, else the bound's score |
| Scoring.NewRange | src/scoring.rs:254-264 | with both ends bounded and max < min, only the two scores trade places and each end keeps its kind; any other input is stored unchanged |
| Scoring.RangeOrdered | src/scoring.rs:245-300 | every range `new` builds, and `FULL`, has `min_f32 <= max_f32`; `FULL` spans 0 to 1 |
| Scoring.ChildScores | src/scoring/sum.rs:68-70 | iterating the score query over the children yields at most one value per child, each in [0, 1] |
| Scoring.ChildScoresMembers | src/scoring/sum.rs:68-70 | exactly the scores of the children that have a score occur |
| Scoring.Roots | src/scoring.rs:107-119 | an entity is a root exactly when it is a candidate with no parent, or whose parent exists and has no score |
| Scoring.IsRoot | src/scoring.rs:107-119 | the root test: no parent, or a parent that exists and has no score; its use is stated by `Roots` |
| Scoring.RunScoring | src/scoring.rs:87-123 | in a world where the candidates are the scored entities and `Parent` agrees with `Children`: a targeted run queues `OnScore` along the post-order of its target; an untargeted run does so for every root, in query order |
| Scoring.ScoreRoots | src/scoring.rs:105-121 | the untargeted loop queues the post-orders of the roots one after another |
| Scoring.PostAllCovers | src/scoring.rs:116-120 | every entity in the subtree of any root is scored by an untargeted run |
| Scoring.UntargetedCoversScored | src/scoring.rs:105-121 | every scored entity whose chain of scored ancestors starts at a root is scored by an untargeted run, which is what `RunScoring` without a target promises |
| Scoring.ScoreAncestor | src/scoring.rs:366-384 | an entity without `Score` or the marker is untouched; otherwise it takes the nearest holder's converted score, or `MIN`, and no other score changes |
| Scoring.FromAncestor | src/scoring.rs:376-383 | the nearest ancestor holder's converted score, or `MIN` when there is none; stated by `ScoreAncestor` |
| FixedScoring.NewFixed | src/scoring/fixed.rs:38-40 | the configured value is clamped to [0, 1] |
| FixedScoring.SetValue | src/scoring/fixed.rs:48-50 | setting the value equals constructing anew; the old value plays no part |
| FixedScoring.Observer | src/scoring/fixed.rs:53-60 | an entity with `Score` and `FixedScore` takes the configured value exactly; children play no part; otherwise nothing changes |
| SumScoring.NewSum | src/scoring/sum.rs:42-46 | the threshold is clamped to [0, 1] |
| SumScoring.SumScore | src/scoring/sum.rs:66-81 | the thresholded, clamped total; stated by `SumScoreSpec` |
| SumScoring.SetThreshold | src/scoring/sum.rs:55-57 | setting the threshold equals constructing anew |
| SumScoring.SumScoreSpec | src/scoring/sum.rs:66-81 | below the threshold the score is 0; otherwise it is the clamped total; no scored children give 0 |
| SumScoring.SumExamples | src/scoring.rs:576-599 | threshold 0.4 over 0.9 and 0.8, and threshold 0.1 over 0.7 and 0.3, both give 1 |
| SumScoring.Observer | src/scoring/sum.rs:60-82 | an entity with `Children`, `Sum` and `Score` gets `SumScore` of its scored children; children without a score are skipped; otherwise nothing changes |
| ProductScoring.NewProduct | src/scoring/product.rs:46-51 | the threshold is clamped; compensation is off |
| ProductScoring.WithCompensation | src/scoring/product.rs:55-58 | only the compensation flag changes |
| ProductScoring.SetThreshold | src/scoring/product.rs:67-69 | only the threshold changes, clamped |
| ProductScoring.ProdBounds | src/scoring/product.rs:78-84 | a product of scores is in [0, 1] |
| ProductScoring.CompensationBounds | src/scoring/product.rs:86-90 | for p in [0, 1], compensation gives a value in [p, 1], and leaves p unchanged for one factor |
| ProductScoring.MakeUpBounds | src/scoring/product.rs:87-89 | `p + (1 - p) m p` lies in [p, 1] for p and m in [0, 1] |
| ProductScoring.ProductScore | src/scoring/product.rs:78-101 | the thresholded, optionally compensated product; stated by `ProductScoreSpec` |
| ProductScoring.ProductScoreSpec | src/scoring/product.rs:78-101 | without compensation the score is the product (1 with no children), or 0 below the threshold; with compensation the threshold applies to the compensated product, which is never lower |
| ProductScoring.ProductExamples | src/scoring.rs:554-573 | threshold 0.4 over 0.9 and 0.8 gives 0.72; threshold 0.1 over 0.7 and 0.3 gives 0.21 |
| ProductScoring.ThresholdAfterCompensation | src/scoring/product.rs:86-94 | two children at 0.5 under threshold 0.3 score 0 plainly but 0.34375 with compensation |
| ProductScoring.Observer | src/scoring/product.rs:72-102 | an entity with `Children`, `Product` and `Score` gets `ProductScore` of its scored children; otherwise nothing changes |
| AllOrNothingScoring.NewAllOrNothing | src/scoring/all_or_nothing.rs:43-47 | the threshold is clamped |
| AllOrNothingScoring.SetThreshold | src/scoring/all_or_nothing.rs:56-58 | setting the threshold equals constructing anew |
| AllOrNothingScoring.AllOrNothingScore | src/scoring/all_or_nothing.rs:67-82 | 0 when a child is below the threshold, else the clamped total; stated by `AllOrNothingSpec` |
| AllOrNothingScoring.AllOrNothingSpec | src/scoring/all_or_nothing.rs:67-82 | one scored child below the threshold gives 0; if none is, the clamped total; no scored children give 0 |
| AllOrNothingScoring.AllOrNothingExamples | src/scoring.rs:404-427 | over 0.7 and 0.3, threshold 0.5 gives 0 and threshold 0.2 gives 1 |
| AllOrNothingScoring.Scan | src/scoring/all_or_nothing.rs:67-75 | the scan with early break gives, once clamped, exactly `AllOrNothingScore` of the scored children |
| AllOrNothingScoring.Observer | src/scoring/all_or_nothing.rs:61-83 | an entity with `Children`, `AllOrNothing` and `Score` gets the scan's result clamped; otherwise nothing changes |
| WinningScoring.NewWinning | src/scoring/winning.rs:42-46 | the threshold is clamped |
| WinningScoring.SetThreshold | src/scoring/winning.rs:55-57 | the given score becomes the threshold as it is |
| WinningScoring.MaxFromZero | src/scoring/winning.rs:66-72 | the running maximum from 0 is at least every element, is non-negative, and is 0 or one of the elements |
| WinningScoring.WinningScore | src/scoring/winning.rs:66-75 | the thresholded maximum; stated by `WinningSpec` |
| WinningScoring.WinningSpec | src/scoring/winning.rs:66-75 | the score is the maximum child score when that reaches the threshold, and 0 otherwise; a nonzero result is some child's score; no children give 0 |
| WinningScoring.WinningExamples | src/scoring.rs:602-625 | threshold 0.5 over 0.9 and 0.8 gives 0.9, and over 0.7 and 0.3 gives 0.7 |
| WinningScoring.Observer | src/scoring/winning.rs:60-83 | an entity with `Children`, `Winning` and `Score` gets `WinningScore` of its scored children; otherwise nothing changes |
| MeasuredScoring.NewWeighted | src/scoring/measured.rs:148-150 | the weight is clamped to [0, 1] |
| MeasuredScoring.SetWeight | src/scoring/measured.rs:159-161 | setting the weight equals constructing anew |
| MeasuredScoring.WeightedMaximum | src/scoring/measured.rs:204-211 | the weighted maximum is non-negative and at least every score times weight |
| MeasuredScoring.MinWeightIgnored | src/scoring/measured.rs:134-138 | a child weighted `Weighted::MIN` changes neither the weighted total nor the weighted maximum: it is not considered |
| MeasuredScoring.WeightedMaximumAttained | src/scoring/measured.rs:204-211 | a nonzero weighted maximum is some input's score times weight |
| MeasuredScoring.RmsAsWritten | src/scoring/measured.rs:218-232 | the root mean square as written agrees with the corrected one whenever the total weight is at most 1 |
| MeasuredScoring.Rms | src/scoring/measured.rs:218-232 | the root mean square over the unclamped total weight; its meaning is stated by `RmsIsRoot` and `RmsOfEqualScores` |
| MeasuredScoring.RmsIsRoot | src/scoring/measured.rs:219-231 | with some weight, the result is the nonnegative root of the weighted mean of the squared scores, never cut by the clamp |
| MeasuredScoring.RmsZeroWeight | src/scoring/measured.rs:219-224 | a total weight of 0 gives `Score::MIN` |
| MeasuredScoring.RmsArgumentInUnit | src/scoring/measured.rs:225-229 | with the unclamped weight total, the argument of the square root is a weighted mean of squared scores, in [0, 1] |
| MeasuredScoring.RmsOfEqualScores | src/scoring/measured.rs:219-231 | with every score equal to `s` and a nonzero total weight, the root mean square is `s` |
| MeasuredScoring.RmsAsWrittenCounterexample | src/scoring/measured.rs:219-231 | two unweighted children at 0.5 give a result other than 0.5 as written, and 0.5 with the unclamped weight sum |
| MeasuredScoring.MeasureExamples | src/scoring.rs:466-550 | for (0.9, 0.9) and (0.8, 0.1): weighted sum 0.89, product 0.0648, max 0.81, and the RMS is the square root of 0.793 |
| MeasuredScoring.Calculate | src/scoring/measured.rs:176-233 | each measure's `calculate`, clamped into a score; without inputs the product gives 1 and every other measure 0 |
| MeasuredScoring.Inputs | src/scoring/measured.rs:84-88 | one input per scored child, in child order: its score and its weight, 1 for a child without `Weighted`; all values lie in [0, 1] |
| MeasuredScoring.Observer | src/scoring/measured.rs:74-98 | an entity with `Children`, `Measured` and `Score` gets `Calculate` of its gathered inputs as is (for `WeightedRMS` the corrected `Rms`); otherwise nothing changes |
| EvaluatorScoring.ClampK | src/scoring/evaluator.rs:220 | `k` is clamped to exactly [-0.99999, 0.99999]: kept within the limit, the nearer limit outside it, so always strictly inside (-1, 1) |
| EvaluatorScoring.Evaluator.Evaluate | src/scoring/evaluator.rs:142-355 | each curve's `evaluate`: linear and sigmoid outputs stay between the anchors' `y`; the rational curves give `a.y` at or below `a.x` |
| EvaluatorScoring.NewLinear | src/scoring/evaluator.rs:127-133 | keeps `a` and `b.y`; the evaluator is well defined exactly when `a.y <= b.y` |
| EvaluatorScoring.LinearFromRange | src/scoring/evaluator.rs:137-139 | the range form is well defined for every `min != max` |
| EvaluatorScoring.LinearEndpoints | src/scoring/evaluator.rs:142-146 | a linear evaluator maps `a.x` to `a.y` and `b.x` to `b.y` |
| EvaluatorScoring.LinearMonotone | src/scoring/evaluator.rs:142-146 | with increasing anchors the linear curve never decreases |
| EvaluatorScoring.LinearFromRangeSpec | src/scoring/evaluator.rs:137-146 | `from_range(min, max)` maps inputs at or below `min` to 0, at or above `max` to 1, and in between to `(v - min) / (max - min)` |
| EvaluatorScoring.DefaultLinear | src/scoring/evaluator.rs:148-152 | the default linear evaluator is the identity clamped to [0, 1] |
| EvaluatorScoring.NewPower | src/scoring/evaluator.rs:167-174 | the exponent is clamped to [0, 10000]; the evaluator is well defined exactly when `a.x < b.x` |
| EvaluatorScoring.PowerFromRange | src/scoring/evaluator.rs:184-186 | the range form is well defined exactly when `min < max` |
| EvaluatorScoring.PowerCurveShape | src/scoring/evaluator.rs:190-193 | the input is clamped to `[a.x, b.x]`: at or below `a.x` a positive exponent gives `a.y`, at or above `b.x` the result is `a.y + dy`; exponent 0 is constant `a.y + dy`; the curve stays between `a.y` and `a.y + dy` for `dy >= 0` |
| EvaluatorScoring.PowerShape | src/scoring/evaluator.rs:189-194 | a power evaluator has that shape |
| EvaluatorScoring.SquareExample | src/scoring/evaluator.rs:190-193 | the square over [0, 1] maps 0.7 to 0.49 |
| EvaluatorScoring.DefaultPowerExample | src/scoring/evaluator.rs:196-200 | the default power evaluator is the square, and maps 0.7 to 0.49 |
| EvaluatorScoring.Position | src/scoring/evaluator.rs:247-250 | the rescaled position of the clamped input lies in [-1, 1]: -1 at or below `a.x`, 1 at or above `b.x`, 0 at the midpoint |
| EvaluatorScoring.NewSigmoid | src/scoring/evaluator.rs:219-231 | keeps both anchors and clamps `k`; well defined exactly when `a.x < b.x` and `a.y <= b.y` |
| EvaluatorScoring.SigmoidFromRange | src/scoring/evaluator.rs:241-243 | the range form is well defined exactly when `min < max` |
| EvaluatorScoring.SigmoidFactorAnchors | src/scoring/evaluator.rs:249-250 | the corrected shape factor is -1, 0 and 1 at positions -1, 0 and 1 |
| EvaluatorScoring.AroundAnchors | src/scoring/evaluator.rs:251 | the output clamp keeps the result in `[a.y, b.y]`; factors -1, 0 and 1 land on `a.y`, the midpoint and `b.y` |
| EvaluatorScoring.SigmoidCurveShape | src/scoring/evaluator.rs:247-252 | the corrected sigmoid lies in `[a.y, b.y]`, is `a.y` at or below `a.x`, `b.y` at or above `b.x`, and the midpoint at the midpoint |
| EvaluatorScoring.SigmoidCurve | src/scoring/evaluator.rs:246-253 | the sigmoid with the corrected denominator stays in `[a.y, b.y]` |
| EvaluatorScoring.SigmoidShape | src/scoring/evaluator.rs:246-253 | a sigmoid evaluator, with the corrected denominator, has that shape (as written the source does not: see Findings) |
| EvaluatorScoring.FactorAsWrittenAtLeftAnchor | src/scoring/evaluator.rs:249-250 | as written, at position -1 with `k = -0.5` the denominator is -0.5 and the factor is 3 |
| EvaluatorScoring.SigmoidAsWritten | src/scoring/evaluator.rs:246-253 | the sigmoid as written is defined where its denominator is nonzero, and its output clamp keeps it in `[a.y, b.y]` |
| EvaluatorScoring.SigmoidAsWrittenCounterexample | src/scoring/evaluator.rs:247-258 | with the default `k = -0.5`, every input at or below `a.x` scores `b.y` as written, where the corrected curve gives `a.y` |
| EvaluatorScoring.NewExponential | src/scoring/evaluator.rs:274-282 | keeps `a` and `b.x` and clamps `k`; its bounds are ordered exactly when `a.x < b.x` |
| EvaluatorScoring.ExponentialFromRange | src/scoring/evaluator.rs:292-294 | from `(min, 0)` to `(max, 1)` with `k` clamped; ordered exactly when `min < max`; a range no wider than 1 has a positive denominator |
| EvaluatorScoring.ExponentialEndpoints | src/scoring/evaluator.rs:298-303 | with a positive denominator over the interval the curve is defined everywhere, passes through both anchors, and inputs outside `[a.x, b.x]` score as the nearer end |
| EvaluatorScoring.NewLogarithmic | src/scoring/evaluator.rs:325-333 | keeps `a` and `b.x` and clamps `k`; its bounds are ordered exactly when `a.x < b.x` |
| EvaluatorScoring.LogarithmicFromRange | src/scoring/evaluator.rs:343-345 | from `(min, 0)` to `(max, 1)` with `k` clamped; ordered exactly when `min < max`; a range no wider than 1 has a positive denominator |
| EvaluatorScoring.LogarithmicEndpoints | src/scoring/evaluator.rs:349-354 | with a positive denominator over the interval the curve starts at `a.y`, but reaches `a.y + dy / (1 + k dx)` at `b.x`, which is `b.y` only for `k = 0` |
| EvaluatorScoring.LogarithmicOvershoot | src/scoring/evaluator.rs:349-354 | over [0, 1] with `k = -0.5` the curve reaches 2 at 1, which `Score::set` cuts to 1 |
| EvaluatorScoring.DefinedEverywhere | src/scoring/evaluator.rs:297-355 | an exponential or logarithmic evaluator divides by zero at no input exactly when `1 + k (b.x - a.x)` is positive |
| EvaluatorScoring.Pole | src/scoring/evaluator.rs:301-302 | a denominator `1 + k u` not positive at `d` vanishes at some `u` in (0, d] |
| EvaluatorScoring.DefaultExponential | src/scoring/evaluator.rs:284-309 | the default exponential evaluator is `from_k(-0.5)`, i.e. `new(-0.5, (0, 0), (1, 1))`; it is defined at every input and maps 0 to 0 and 1 to 1 |
| EvaluatorScoring.ExponentialPastPole | src/scoring/evaluator.rs:274-303 | over [0, 3] with `k = -0.5` the exponential curve gives -2/3 at 0.5, which `Score::set` cuts to 0, and divides by zero at 1 |
| EvaluatorScoring.Observer | src/scoring/evaluator.rs:72-89 | only an entity with exactly one child that has a score, and a score of its own, changes: it gets `Evaluate` of the child score (the corrected sigmoid), clamped; only in that case must the evaluator be `Defined` and, for the rational curves, not at its pole for that child's score |
| Picking.Resolve | src/picking.rs:89-95 | a present entity with a choice resolves to that choice; none, or an unknown entity, resolves to the default; the result is the default or a choice |
| Picking.Picker.constructor | src/picking.rs:73-79 | no choices, and the default is both default and picked |
| Picking.Picker.IsDefault | src/picking.rs:99-101 | true exactly for the default action |
| Picking.Picker.PickedDefault | src/picking.rs:105-107 | true exactly when the last pick is the default; `Pick` states when that holds |
| Picking.Picker.With | src/picking.rs:83-86 | maps the entity to the action, overwriting an earlier mapping; nothing else changes |
| Picking.Picker.Pick | src/picking.rs:89-95 | returns the resolved action and stores it as `picked`; choices and default stay; `picked` is the default or a choice; `picked_default` holds iff the default was returned |
| Picking.OnPickEach | src/picking.rs:50-52 | one `OnPick` per picker, in order |
| Picking.OnPickEachCovers | src/picking.rs:50-52 | when the query lists exactly the `With<Picker>` entities, an `OnPick` is queued for an entity exactly when it has a `Picker` |
| Picking.RunPicking | src/picking.rs:42-54 | over the `With<Picker>` query (each picker once), a targeted run queues `OnPick` for its target only; an untargeted one queues it for every picker, in query order |
| FirstToScorePicking.NewFirstToScore | src/picking/first_to_score.rs:68-72 | the threshold is clamped to [0, 1] |
| FirstToScorePicking.SetThreshold | src/picking/first_to_score.rs:81-83 | the threshold is clamped to [0, 1] |
| FirstToScorePicking.FirstReaching | src/picking/first_to_score.rs:101-106 | a result is a scored child at or above the threshold; no result means every scored child is below it |
| FirstToScorePicking.FirstReachingIsFirst | src/picking/first_to_score.rs:101-105 | every scored child before the one found is below the threshold |
| FirstToScorePicking.EventsForSpec | src/picking/first_to_score.rs:101-110 | when some child reaches the threshold nothing is queued; otherwise the default is picked and `OnPicked` with it is queued |
| FirstToScorePicking.FirstToScoreExample | src/picking.rs:127-148 | a scorer at 0.7 under threshold 0.5 gets its mapped action, and nothing is queued |
| FirstToScorePicking.Run | src/picking/first_to_score.rs:93-111 | the picker picks `PickFor` of the scan; choices and default stay; the queue grows by `EventsFor` |
| FirstToScorePicking.ConcatSpec | src/picking/first_to_score.rs:118-122 | an untargeted run queues only `OnPicked(default)` for actors that fell back to the default, and one for each of them |
| FirstToScorePicking.RunAll | src/picking/first_to_score.rs:118-122 | every actor gets its own pick, other pickers are untouched, and the queue grows by each actor's events in query order |
| FirstToScorePicking.Advance | src/picking/first_to_score.rs:119-121 | one loop step sets the next actor's pick and appends its events; the loop invariant then covers one more actor |
| FirstToScorePicking.Observer | src/picking/first_to_score.rs:87-123 | a targeted trigger runs for its target if the query holds it, touches no other picker, and changes nothing when the query lacks it; an untargeted one runs for every actor |
| HighestPicking.HighestOf | src/picking/highest.rs:77-86 | no result exactly when no child is scored; a result is a scored child whose score is at least every scored child's |
| HighestPicking.HighestIsEarliest | src/picking/highest.rs:77-86 | ties go to the earliest child: every scored child before the winner scores strictly less |
| HighestPicking.PickForDefaults | src/picking/highest.rs:88 | no scored children, or a winner without a choice, give the default |
| HighestPicking.HighestExample | src/picking.rs:151-172 | a single scorer at 0.7 mapped to an action gets that action |
| HighestPicking.HighestTieExample | src/picking/highest.rs:79-82 | of two scorers at 0.5 the first wins; a later one at 0.6 replaces it |
| HighestPicking.Run | src/picking/highest.rs:70-90 | the picker picks the highest child's choice (or the default); choices and default stay; `OnPicked` with the picked action is always queued |
| HighestPicking.AnnounceSpec | src/picking/highest.rs:97-100 | an untargeted run queues one `OnPicked` per actor, in query order, each with that actor's pick |
| HighestPicking.RunAll | src/picking/highest.rs:97-100 | every actor gets its own pick, other pickers are untouched, and the queue grows by the announcements in query order |
| HighestPicking.Advance | src/picking/highest.rs:98-99 | one loop step sets the next actor's pick and appends its announcement; the loop invariant then covers one more actor |
| HighestPicking.Observer | src/picking/highest.rs:64-102 | a targeted trigger runs for its target if the query holds it, touches no other picker, and changes nothing when the query lacks it; an untargeted one runs for every actor |
| Events.CompletedEnd | src/event.rs:127-132 | carries the action with reason `Completed` |
| Events.CancelledEnd | src/event.rs:136-141 | carries the action with reason `Cancelled` |
| Events.EndConstructors | src/event.rs:124-153 | the two constructors never agree, and each one is injective in its action |
| Events.DefaultRequest | src/event.rs:93-99 | the default request carries no action |
| Acting.CurrentOf | src/acting.rs:47 | the actor's current action, present exactly when the actor has one |
| Acting.NextAction | src/acting.rs:48 | the requested action if there is one, else the picker's last pick |
| Acting.RequestCommands | src/acting.rs:44-70 | the commands of one request; stated by `RequestQuiet`, `CancelBeforeInitiate`, `InitiateFromIdle` and `RequestEffect` |
| Acting.OnRequestCancelAndInitiate | src/acting.rs:39-71 | the queue grows by exactly `RequestCommands` for the actor's pick and current action |
| Acting.RequestQuiet | src/acting.rs:46-54 | no picker, or a next action equal to the current one, queues nothing; any other case queues something |
| Acting.CancelBeforeInitiate | src/acting.rs:56-69 | switching queues the cancellation of the old action, then the insert and the initiation of the new one, and nothing else |
| Acting.InitiateFromIdle | src/acting.rs:63-69 | with no current action the next one is recorded and initiated, and nothing is cancelled |
| Acting.RequestEffect | src/acting.rs:63-64 | after the queued inserts the actor's current action is the resolved one, and no other actor's changes |
| Acting.IdempotentRequest | src/acting.rs:50-54 | repeating a request after its commands are applied queues nothing |
| Acting.OnEndedRequestAgain | src/acting.rs:74-86 | the queue grows by `EndedCommands`: a default request on completion, nothing on cancellation |
| Acting.EndedCommands | src/acting.rs:74-86 | the commands after an action ends; stated by `EndedSpec` |
| Acting.EndedSpec | src/acting.rs:77-85 | completion queues exactly one default request for the actor; cancellation queues nothing |
| Acting.ReRequestAfterCompletion | src/acting.rs:44-86 | after completion, the re-request queues nothing if the picker still picks the finished action; otherwise it cancels the finished action, then records and initiates the new pick |
| Lifecycle.IdleRequestsSpec | src/lib.rs:324-328 | exactly the idle actors, those with no current action or running their default, get a default request |
| Lifecycle.IdleRequestsForEveryPicker | src/lib.rs:322-328 | over a query listing every `Picker` entity, a picker gets a default request exactly when it is idle |
| Lifecycle.IdleRequestsDistinct | src/lib.rs:322-328 | when the query lists each actor once, no request is queued twice |
| Lifecycle.RequestActionIfNoneOrDefault | src/lib.rs:320-329 | over the query of every `Picker` entity, each once, the queue grows by `IdleRequests` for those actors, in query order |
| Lifecycle.BusyActorsNotRequested | src/lib.rs:325 | an actor running a non-default action gets no request |
| Lifecycle.ScoreAndPick | src/lib.rs:313-316 | an untargeted `RunScoring` is queued before an untargeted `RunPicking` |

## Left out

- Floating point: scores and curve parameters are reals. NaN, infinities, rounding and the panic of `f32::clamp` when `min > max` are not modelled. Where a clamp's bounds must be ordered, that is a precondition (`Clamp`, the `Defined` predicate of evaluators). Where the source divides by zero, that input is excluded by precondition (`DefinedAt`).
- MeasuredScoring: `sqrt` in the root mean square is a function parameter. Lemmas that need it to be a square root say so with `IsSqrt`.
- EvaluatorScoring.NewPower: the exponent is a whole number, because `powf` with a real exponent has no model here. This covers the default exponent 2 and the 0.49 case.
- EvaluatorScoring.NewLinear, NewExponential, NewLogarithmic: they require `a.x != b.x`, because the source divides by `b.x - a.x`. The sigmoid keeps its anchors and derives the same quantities inside `Evaluate`, instead of storing `two_over_dx`, `x_mean`, `y_mean`, `dy_over_two` and `one_minus_k`.
- EvaluatorScoring.Evaluator.Evaluate: at the single input where an exponential or logarithmic denominator `1 + k u` is exactly zero, the source produces an infinity or NaN, which `Score::set` turns into 1, 0 or NaN. That input is excluded by `DefinedAt`. Every other input is modelled, including a negative denominator past the pole (`ExponentialPastPole`); `DefinedEverywhere` says when no input is excluded.
- EvaluatorScoring.NewExponential, NewLogarithmic, ExponentialFromRange, LogarithmicFromRange: they accept every `k` and range the source accepts. They do not promise a positive denominator, which holds only when `1 + k (b.x - a.x) > 0`, for instance for a range no wider than 1.
- EvaluatorScoring.Observer: only when the entity has exactly one child with a score (the only case in which the source evaluates) does it require the evaluator to be `Defined` (ordered clamp bounds, where `f32::clamp` would panic) and `DefinedAt` that child's score (no division by zero).
- EvaluatorScoring.Evaluator.Evaluate, EvaluatorScoring.Observer: the sigmoid case uses the corrected denominator `SigmoidCurve`, not the source's `SigmoidAsWritten` (see Findings). The two disagree: for the default sigmoid at inputs at or below `a.x` the source gives `b.y` and the model gives `a.y`.
- MeasuredScoring.Calculate, MeasuredScoring.Observer: `WeightedRMS` uses the corrected `Rms`, which divides by the unclamped total weight, not the source's `RmsAsWritten` (see Findings). The two agree when the total weight is at most 1 and differ above it: two unweighted children at 0.5 give 0.5 in the model and the square root of 0.5 in the source.
- Scoring.RunScoring, Scoring.ScoreRoots: the query results and the `Parent` map are parameters; `QueriedWorld` states how they agree with the hierarchy, as Bevy keeps `Parent` and `Children` in step.
- The `Evaluated` component wrapper and the boxed evaluator or measure are replaced by the `Evaluator` and `Measure` datatypes. The blanket closure impls of `Evaluator` and `Measure` are foreign code and are not modelled.
- src/scoring/random.rs and src/picking/random.rs depend on a random number generator and are not part of this model.
- Plugin `build` methods, component hooks, observer registration, `TargetedAction` dispatch by component id, and flushing of `Commands` are host plumbing. Commands are a FIFO queue of events, and observers are called directly.
- src/acting.rs: `on_action_initiated_insert_default`, `on_action_initiated_insert_from_resource` and `on_action_ended_remove` only insert or remove a component, and are not modelled.
- Ecs.AncestorQuery.Get: `get_mut` is the same logic as `get`, handing out a mutable reference instead, and is not modelled separately.
- Hierarchy: cyclic hierarchies are excluded by precondition (`Acyclic`, a ghost rank). Distinctness and at-most-one-parent (`Forest`) are assumed only where duplicates matter. The host removes empty `Children` lists, so the traversal requires non-empty child lists (`NonEmptyChildren`).
- Picking.Picker.With: keeps `Valid` (picked is the default or a choice) only when the mapped entity was new or nothing but the default was picked. Overwriting the mapping of the last pick can leave `picked` outside the choices, as in the source.
- Picking.RunPicking, Lifecycle.RequestActionIfNoneOrDefault: the query is given as a sequence of entities, required to list every `Picker` entity exactly once; its iteration order is Bevy's and is not modelled.
- FirstToScorePicking.Observer and HighestPicking.Observer: the query is given as its list of actors, each once (`IsQuery`). Each actor owns a distinct `Picker` object (`Unaliased`).
- The module documentation of src/scoring.rs describes `AllOrNothing` as the sum compared with the threshold. The model follows the code, which compares each child with the threshold.
- The examples (examples/thirst.rs) and the benchmark (benches/score.rs) are not part of this model.

## Findings

| source | as written | input that shows it | evidently intended | confidence | as-written member | corrected member |
|---|---|---|---|---|---|---|
| src/scoring/measured.rs:220 | `WeightedRMS` sums the weights through the clamping `Sum<Score> for f32` impl, so a total weight above 1 is cut to 1 before it divides | two unweighted children (weight 1 each) both at 0.5: the mean square is 0.5 instead of 0.25, so the result is the square root of 0.5, not 0.5 | divide by the unclamped total weight, so the mean of equal scores `s` is `s`; the model's `Calculate` and observer use this | not executed; high | MeasuredScoring.RmsAsWritten, MeasuredScoring.RmsAsWrittenCounterexample | MeasuredScoring.Rms, MeasuredScoring.RmsOfEqualScores |
| src/scoring/evaluator.rs:250 | the sigmoid denominator is `1 + k * abs(1 - 2t)`, where `t` in [-1, 1] is the rescaled input | the default sigmoid (`k = -0.5` over [0, 1]) at input 0: `t = -1`, the denominator is -0.5, the factor is 3, and the output clamps to 1 instead of 0 | the normalized tunable sigmoid's denominator `1 + k * (1 - 2 abs(t))`, which stays in `[1 - abs(k), 1 + abs(k)]` and maps the anchors to `a.y` and `b.y`; the model's `Evaluate` and observer use this | not executed; high | EvaluatorScoring.SigmoidAsWritten, EvaluatorScoring.SigmoidAsWrittenCounterexample | EvaluatorScoring.SigmoidCurve, EvaluatorScoring.SigmoidCurveShape |
