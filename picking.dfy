/**
 * The picker: maps the child score entity a picking policy selected to an
 * action, falling back to a default, and remembers the last pick.
 */
module Picking {
  import opened Wrappers
  import opened Entities
  import opened Events

  /** The action `pick` resolves `score` to. */
  function Resolve(choices: map<Entity, ActionId>, defaultAction: ActionId, score: Option<Entity>): (a: ActionId)
    ensures score.Some? && score.value in choices ==> a == choices[score.value]
    ensures (score.None? || score.value !in choices) ==> a == defaultAction
    ensures a == defaultAction || a in choices.Values
  {
    if score.Some? && score.value in choices then choices[score.value] else defaultAction
  }

  class Picker {
    var defaultAction: ActionId
    var choices: map<Entity, ActionId>
    var picked: ActionId

    /** The last pick is the default or one of the choices. */
    predicate Valid()
      reads this
    {
      picked == defaultAction || picked in choices.Values
    }

    /** `is_default`. */
    predicate IsDefault(action: ActionId)
      reads this
    {
      action == defaultAction
    }

    /** `picked_default`. */
    predicate PickedDefault()
      reads this
    {
      IsDefault(picked)
    }

    /** `Picker::new`: no choices, and the default counts as picked. */
    constructor (d: ActionId)
      ensures defaultAction == d && choices == map[] && picked == d
      ensures Valid() && PickedDefault()
    {
      defaultAction := d;
      choices := map[];
      picked := d;
    }

    /**
     * `Picker::with`: maps `scoreEntity` to `action`, replacing an earlier
     * mapping. Replacing the mapping of the last pick can leave `picked`
     * outside the choices, so validity is kept only when that cannot happen.
     */
    method With(scoreEntity: Entity, action: ActionId)
      modifies this
      ensures choices == old(choices)[scoreEntity := action]
      ensures defaultAction == old(defaultAction) && picked == old(picked)
      ensures old(PickedDefault()) ==> Valid()
      ensures old(Valid()) && scoreEntity !in old(choices) ==> Valid()
    {
      choices := choices[scoreEntity := action];
      assert scoreEntity !in old(choices) ==> forall a | a in old(choices).Values :: a in choices.Values by {
        if scoreEntity !in old(choices) {
          forall a | a in old(choices).Values
            ensures a in choices.Values
          {
            var e :| e in old(choices) && old(choices)[e] == a;
            assert choices[e] == a;
          }
        }
      }
    }

    /**
     * `Picker::pick`: the choice of `score` when there is one, the default
     * otherwise; the result becomes `picked`, and nothing else changes.
     */
    method Pick(score: Option<Entity>) returns (action: ActionId)
      modifies this
      ensures action == Resolve(old(choices), old(defaultAction), score)
      ensures picked == action && choices == old(choices) && defaultAction == old(defaultAction)
      ensures Valid()
      ensures PickedDefault() <==> action == defaultAction
    {
      action := if score.Some? && score.value in choices then choices[score.value] else defaultAction;
      picked := action;
    }
  }

  /** No entity occurs twice in `xs`. */
  predicate Distinct(xs: seq<Entity>)
  {
    forall i, j {:trigger Unequal(xs[i], xs[j])} | 0 <= i < j < |xs| :: Unequal(xs[i], xs[j])
  }

  /** Two entities differ. */
  predicate Unequal(x: Entity, y: Entity)
  {
    x != y
  }

  /** Each entity owns its own picker component. */
  predicate Unaliased(pickers: map<Entity, Picker>)
  {
    forall x, y {:trigger Apart(pickers[x], pickers[y])} | x in pickers && y in pickers && x != y ::
      Apart(pickers[x], pickers[y])
  }

  /** Two picker components are distinct objects. */
  predicate Apart(p: Picker, q: Picker)
  {
    p != q
  }

  /** Each picker's choices, by entity. */
  ghost function Choices(pickers: map<Entity, Picker>): map<Entity, map<Entity, ActionId>>
    reads set a | a in pickers :: pickers[a]
  {
    map a | a in pickers :: pickers[a].choices
  }

  /** Each picker's default action, by entity. */
  ghost function Defaults(pickers: map<Entity, Picker>): map<Entity, ActionId>
    reads set a | a in pickers :: pickers[a]
  {
    map a | a in pickers :: pickers[a].defaultAction
  }

  /** Each picker's last pick, by entity. */
  ghost function Picks(pickers: map<Entity, Picker>): map<Entity, ActionId>
    reads set a | a in pickers :: pickers[a]
  {
    map a | a in pickers :: pickers[a].picked
  }

  /** The `OnPick` commands for the given pickers, in order. */
  function OnPickEach(pickers: seq<Entity>): (r: seq<Event>)
    ensures |r| == |pickers|
    ensures forall k | 0 <= k < |r| :: r[k] == OnPick(pickers[k])
  {
    if pickers == [] then [] else OnPickEach(pickers[..|pickers| - 1]) + [OnPick(pickers[|pickers| - 1])]
  }

  /**
   * Every entity with a `Picker` is asked to pick by the `OnPick` commands
   * of the query over them, and no other entity is.
   */
  lemma OnPickEachCovers(pickers: seq<Entity>, withPicker: set<Entity>)
    requires forall a :: a in pickers <==> a in withPicker
    ensures forall a :: OnPick(a) in OnPickEach(pickers) <==> a in withPicker
  {
    forall a | a in withPicker
      ensures OnPick(a) in OnPickEach(pickers)
    {
      var k :| 0 <= k < |pickers| && pickers[k] == a;
      assert OnPickEach(pickers)[k] == OnPick(a);
    }
  }

  /**
   * `PickingPlugin::run_picking`: a targeted run asks only its target to
   * pick; an untargeted one asks every picker, in query order.
   * `pickers` is the `With<Picker>` query: each entity of `withPicker` once.
   */
  method RunPicking(trigger: Entity, pickers: seq<Entity>, withPicker: set<Entity>, commands: CommandQueue)
    requires (forall a :: a in pickers <==> a in withPicker) && Distinct(pickers)
    modifies commands
    ensures GetEntity(trigger).Some? ==> commands.queue == old(commands.queue) + [OnPick(trigger)]
    ensures GetEntity(trigger).None? ==> commands.queue == old(commands.queue) + OnPickEach(pickers)
  {
    if GetEntity(trigger).Some? {
      commands.Trigger(OnPick(trigger));
      return;
    }
    var j := 0;
    while j < |pickers|
      invariant 0 <= j <= |pickers|
      invariant commands.queue == old(commands.queue) + OnPickEach(pickers[..j])
    {
      assert pickers[..j + 1][..j] == pickers[..j];
      commands.Trigger(OnPick(pickers[j]));
      j := j + 1;
    }
    assert pickers[..j] == pickers;
  }
}
