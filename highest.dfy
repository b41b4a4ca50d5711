/**
 * `Highest`: picks the scored child with the greatest score, the earliest
 * one on a tie, and always announces the pick.
 */
module HighestPicking {
  import opened Wrappers
  import opened Entities
  import opened Scoring
  import opened Events
  import opened Picking

  /**
   * The running best of the observer's scan over the scored children:
   * a later child replaces the best only when its score is strictly greater.
   */
  function HighestOf(cs: seq<Entity>, of: map<Entity, Score>): (r: Option<Entity>)
    ensures r.None? <==> forall k | 0 <= k < |cs| :: cs[k] !in of
    ensures r.Some? ==> r.value in cs && r.value in of
    ensures r.Some? ==> forall k | 0 <= k < |cs| && cs[k] in of :: of[cs[k]].value <= of[r.value].value
  {
    if cs == [] then None
    else
      var front := cs[..|cs| - 1];
      var last := cs[|cs| - 1];
      var best := HighestOf(front, of);
      assert forall k | 0 <= k < |cs| - 1 :: cs[k] == front[k];
      if last !in of then best
      else if best.None? then Some(last)
      else if of[last].value > of[best.value].value then Some(last)
      else best
  }

  /** Ties go to the earliest child: every scored child before the winner scores strictly less. */
  lemma {:induction false} HighestIsEarliest(cs: seq<Entity>, of: map<Entity, Score>)
    requires HighestOf(cs, of).Some?
    ensures exists k | 0 <= k < |cs| ::
      (cs[k] == HighestOf(cs, of).value
       && forall i | 0 <= i < k && cs[i] in of :: of[cs[i]].value < of[cs[k]].value)
  {
    var front := cs[..|cs| - 1];
    var last := cs[|cs| - 1];
    var best := HighestOf(front, of);
    var h := HighestOf(cs, of).value;
    assert forall k | 0 <= k < |cs| - 1 :: cs[k] == front[k];
    if best.Some? && h == best.value {
      HighestIsEarliest(front, of);
      var k :| 0 <= k < |front| && front[k] == best.value
        && forall i | 0 <= i < k && front[i] in of :: of[front[i]].value < of[front[k]].value;
      assert cs[k] == h;
    } else {
      assert h == last;
      forall i | 0 <= i < |cs| - 1 && cs[i] in of
        ensures of[cs[i]].value < of[last].value
      {
        assert front[i] in of;
      }
      assert cs[|cs| - 1] == h;
    }
  }

  /** The action one actor ends up with: the winner's choice, or the default. */
  function PickFor(cs: seq<Entity>, of: map<Entity, Score>, choices: map<Entity, ActionId>,
                   defaultAction: ActionId): ActionId
  {
    Resolve(choices, defaultAction, HighestOf(cs, of))
  }

  /**
   * No scored child means the default; a winner without a choice means
   * the default too, even when a lower-scoring child has one.
   */
  lemma PickForDefaults(cs: seq<Entity>, of: map<Entity, Score>, choices: map<Entity, ActionId>,
                        defaultAction: ActionId)
    ensures (forall k | 0 <= k < |cs| :: cs[k] !in of) ==> PickFor(cs, of, choices, defaultAction) == defaultAction
    ensures HighestOf(cs, of).Some? && HighestOf(cs, of).value !in choices
      ==> PickFor(cs, of, choices, defaultAction) == defaultAction
  {
  }

  /** A single scorer at 0.7, mapped to an action, gets that action picked. */
  lemma HighestExample(scorer: Entity, action: ActionId, idle: ActionId)
    ensures PickFor([scorer], map[scorer := New(0.7)], map[scorer := action], idle) == action
  {
    assert HighestOf([scorer][..0], map[scorer := New(0.7)]) == None;
  }

  /** Of two scorers at 0.5, the first wins; a strictly higher later one would replace it. */
  lemma HighestTieExample(x: Entity, y: Entity)
    requires x != y
    ensures HighestOf([x, y], map[x := New(0.5), y := New(0.5)]) == Some(x)
    ensures HighestOf([x, y], map[x := New(0.5), y := New(0.6)]) == Some(y)
  {
    assert [x, y][..1] == [x];
    assert [x][..0] == [];
  }

  /**
   * The observer's `run` for one actor: keeps the best scored child so
   * far, picks it and always queues `OnPicked` with the resulting action.
   */
  method Run(actor: Entity, cs: seq<Entity>, picker: Picker, of: map<Entity, Score>, commands: CommandQueue)
    modifies picker, commands
    ensures picker.picked == PickFor(cs, of, old(picker.choices), old(picker.defaultAction))
    ensures picker.choices == old(picker.choices) && picker.defaultAction == old(picker.defaultAction)
    ensures commands.queue == old(commands.queue) + [OnPicked(actor, picker.picked)]
  {
    var best: Option<Entity> := None;
    var j := 0;
    while j < |cs|
      invariant 0 <= j <= |cs|
      invariant best == HighestOf(cs[..j], of)
    {
      assert cs[..j + 1][..j] == cs[..j];
      if cs[j] in of {
        if best.Some? {
          if of[cs[j]].Get() > of[best.value].Get() {
            best := Some(cs[j]);
          }
        } else {
          best := Some(cs[j]);
        }
      }
      j := j + 1;
    }
    assert cs[..j] == cs;
    var action := picker.Pick(best);
    commands.Trigger(OnPicked(actor, action));
  }

  /** What an untargeted run leaves each actor with, by entity. */
  function PicksFor(actors: seq<Entity>, children: map<Entity, seq<Entity>>, of: map<Entity, Score>,
                    choices: map<Entity, map<Entity, ActionId>>, defaults: map<Entity, ActionId>): map<Entity, ActionId>
    requires forall a | a in actors :: a in children && a in choices && a in defaults
  {
    map a | a in actors :: PickFor(children[a], of, choices[a], defaults[a])
  }

  /** The `OnPicked` commands announcing `picks` for `actors`, in order. */
  function Announce(actors: seq<Entity>, picks: map<Entity, ActionId>): seq<Event>
    requires forall a | a in actors :: a in picks
  {
    if actors == [] then []
    else Announce(actors[..|actors| - 1], picks) + [OnPicked(actors[|actors| - 1], picks[actors[|actors| - 1]])]
  }

  /** One `OnPicked` per actor, in query order, each carrying that actor's pick. */
  lemma {:induction false} AnnounceSpec(actors: seq<Entity>, picks: map<Entity, ActionId>)
    requires forall a | a in actors :: a in picks
    ensures |Announce(actors, picks)| == |actors|
    ensures forall k | 0 <= k < |actors| :: Announce(actors, picks)[k] == OnPicked(actors[k], picks[actors[k]])
  {
    if actors != [] {
      var front := actors[..|actors| - 1];
      AnnounceSpec(front, picks);
      assert forall k | 0 <= k < |actors| - 1 :: actors[k] == front[k];
    }
  }

  /**
   * The entities the observer's query yields: those with children, a
   * picker and the `Highest` marker, each once.
   */
  predicate IsQuery(actors: seq<Entity>, children: map<Entity, seq<Entity>>, pickers: map<Entity, Picker>,
                    marked: set<Entity>)
  {
    (forall a | a in actors :: a in children && a in pickers && a in marked)
    && (forall a | a in children && a in pickers && a in marked :: a in actors)
    && Distinct(actors)
  }

  /**
   * The observer for `OnPick`: a targeted trigger runs for its target when
   * the query holds it, and changes no other picker; an untargeted one runs
   * for every actor in query order.
   */
  method Observer(trigger: Entity, actors: seq<Entity>, children: map<Entity, seq<Entity>>,
                  pickers: map<Entity, Picker>, marked: set<Entity>,
                  of: map<Entity, Score>, commands: CommandQueue)
    requires IsQuery(actors, children, pickers, marked) && Unaliased(pickers)
    modifies set a | a in pickers :: pickers[a], commands
    ensures forall a | a in pickers ::
      pickers[a].choices == old(pickers[a].choices) && pickers[a].defaultAction == old(pickers[a].defaultAction)
    ensures GetEntity(trigger).Some? && trigger in actors ==>
      pickers[trigger].picked
        == PickFor(children[trigger], of, old(pickers[trigger].choices), old(pickers[trigger].defaultAction))
      && commands.queue == old(commands.queue) + [OnPicked(trigger, pickers[trigger].picked)]
    ensures GetEntity(trigger).Some? && trigger !in actors ==>
      commands.queue == old(commands.queue) && forall a | a in pickers :: pickers[a].picked == old(pickers[a].picked)
    ensures GetEntity(trigger).Some? ==>
      forall a | a in pickers && a != trigger :: pickers[a].picked == old(pickers[a].picked)
    ensures GetEntity(trigger).None? ==>
      forall a | a in actors ::
        pickers[a].picked == PickFor(children[a], of, old(pickers[a].choices), old(pickers[a].defaultAction))
    ensures GetEntity(trigger).None? ==>
      commands.queue == old(commands.queue)
        + Announce(actors, PicksFor(actors, children, of, old(Choices(pickers)), old(Defaults(pickers))))
    ensures GetEntity(trigger).None? ==>
      forall a | a in pickers && a !in actors :: pickers[a].picked == old(pickers[a].picked)
  {
    if GetEntity(trigger).Some? {
      if trigger in children && trigger in pickers && trigger in marked {
        assert forall x | x in pickers && x != trigger :: Apart(pickers[x], pickers[trigger]);
        Run(trigger, children[trigger], pickers[trigger], of, commands);
      }
    } else {
      RunAll(actors, children, pickers, marked, of, commands);
    }
  }

  /** The untargeted half of `Observer`: one run per actor, in order. */
  method RunAll(actors: seq<Entity>, children: map<Entity, seq<Entity>>,
                pickers: map<Entity, Picker>, marked: set<Entity>,
                of: map<Entity, Score>, commands: CommandQueue)
    requires IsQuery(actors, children, pickers, marked) && Unaliased(pickers)
    modifies set a | a in pickers :: pickers[a], commands
    ensures forall a | a in pickers ::
      pickers[a].choices == old(pickers[a].choices) && pickers[a].defaultAction == old(pickers[a].defaultAction)
    ensures forall a | a in actors ::
      pickers[a].picked == PickFor(children[a], of, old(pickers[a].choices), old(pickers[a].defaultAction))
    ensures commands.queue == old(commands.queue)
      + Announce(actors, PicksFor(actors, children, of, old(Choices(pickers)), old(Defaults(pickers))))
    ensures forall a | a in pickers && a !in actors :: pickers[a].picked == old(pickers[a].picked)
  {
    ghost var choices := Choices(pickers);
    ghost var defaults := Defaults(pickers);
    ghost var picked := Picks(pickers);
    ghost var target := PicksFor(actors, children, of, choices, defaults);
    ghost var queue := commands.queue;
    ProgressStart(actors, children, pickers, marked, commands, choices, defaults, picked, target, queue);
    var j := 0;
    while j < |actors|
      invariant 0 <= j <= |actors|
      invariant Progress(j, actors, children, pickers, commands, choices, defaults, picked, target, queue)
    {
      assert forall x | x in pickers && x != actors[j] :: Apart(pickers[x], pickers[actors[j]]);
      assert forall k | 0 <= k < j :: Unequal(actors[k], actors[j]);
      j := Advance(j, actors, children, pickers, of, commands, choices, defaults, picked, target, queue);
    }
    ProgressEnd(actors, children, pickers, commands, choices, defaults, picked, target, queue);
  }

  /** What `RunAll` has done after running the first `j` actors, towards the picks `target`. */
  ghost predicate Progress(j: nat, actors: seq<Entity>, children: map<Entity, seq<Entity>>,
                           pickers: map<Entity, Picker>, commands: CommandQueue,
                           choices: map<Entity, map<Entity, ActionId>>, defaults: map<Entity, ActionId>,
                           picked: map<Entity, ActionId>, target: map<Entity, ActionId>, queue: seq<Event>)
    reads set a | a in pickers :: pickers[a], commands
  {
    && j <= |actors|
    && (forall a | a in actors :: a in children && a in pickers && a in target)
    && (forall a | a in pickers :: a in choices && a in defaults && a in picked)
    && (forall a | a in pickers ::
         pickers[a].choices == choices[a] && pickers[a].defaultAction == defaults[a])
    && (forall k | 0 <= k < j :: pickers[actors[k]].picked == target[actors[k]])
    && (forall a | a in pickers && a !in actors[..j] :: pickers[a].picked == picked[a])
    && commands.queue == queue + Announce(actors[..j], target)
  }

  /** Nothing is done before the first run. */
  lemma ProgressStart(actors: seq<Entity>, children: map<Entity, seq<Entity>>,
                      pickers: map<Entity, Picker>, marked: set<Entity>, commands: CommandQueue,
                      choices: map<Entity, map<Entity, ActionId>>, defaults: map<Entity, ActionId>,
                      picked: map<Entity, ActionId>, target: map<Entity, ActionId>, queue: seq<Event>)
    requires IsQuery(actors, children, pickers, marked)
    requires choices == Choices(pickers) && defaults == Defaults(pickers) && picked == Picks(pickers)
    requires target.Keys == set a | a in actors
    requires queue == commands.queue
    ensures Progress(0, actors, children, pickers, commands, choices, defaults, picked, target, queue)
  {
    assert actors[..0] == [];
  }

  /** After the last run every actor has its pick and every announcement is queued. */
  lemma ProgressEnd(actors: seq<Entity>, children: map<Entity, seq<Entity>>,
                    pickers: map<Entity, Picker>, commands: CommandQueue,
                    choices: map<Entity, map<Entity, ActionId>>, defaults: map<Entity, ActionId>,
                    picked: map<Entity, ActionId>, target: map<Entity, ActionId>, queue: seq<Event>)
    requires Progress(|actors|, actors, children, pickers, commands, choices, defaults, picked, target, queue)
    ensures forall a | a in pickers ::
      pickers[a].choices == choices[a] && pickers[a].defaultAction == defaults[a]
    ensures forall a | a in actors :: pickers[a].picked == target[a]
    ensures forall a | a in pickers && a !in actors :: pickers[a].picked == picked[a]
    ensures commands.queue == queue + Announce(actors, target)
  {
    assert actors[..|actors|] == actors;
  }

  /** One step of `RunAll`: runs actor `j`. */
  method Advance(j: nat, actors: seq<Entity>, children: map<Entity, seq<Entity>>,
                 pickers: map<Entity, Picker>, of: map<Entity, Score>, commands: CommandQueue,
                 ghost choices: map<Entity, map<Entity, ActionId>>, ghost defaults: map<Entity, ActionId>,
                 ghost picked: map<Entity, ActionId>, ghost target: map<Entity, ActionId>, ghost queue: seq<Event>)
    returns (next: nat)
    requires j < |actors|
    requires Progress(j, actors, children, pickers, commands, choices, defaults, picked, target, queue)
    requires target[actors[j]] == PickFor(children[actors[j]], of, choices[actors[j]], defaults[actors[j]])
    requires forall x | x in pickers && x != actors[j] :: pickers[x] != pickers[actors[j]]
    requires forall k | 0 <= k < j :: actors[k] != actors[j]
    modifies pickers[actors[j]], commands
    ensures next == j + 1
    ensures Progress(next, actors, children, pickers, commands, choices, defaults, picked, target, queue)
  {
    next := j + 1;
    var a := actors[j];
    assert actors[..j + 1][..j] == actors[..j];
    ghost var before := commands.queue;
    assert Announce(actors[..j + 1], target) == Announce(actors[..j], target) + [OnPicked(a, target[a])];
    Run(a, children[a], pickers[a], of, commands);
    assert commands.queue == before + [OnPicked(a, target[a])];
    forall x | x in pickers && x != a
      ensures pickers[x].picked == old(pickers[x].picked)
      ensures pickers[x].choices == choices[x] && pickers[x].defaultAction == defaults[x]
    {
      assert pickers[x] != pickers[a];
    }
    forall k | 0 <= k < next
      ensures pickers[actors[k]].picked == target[actors[k]]
    {
      if k < j {
        assert actors[k] != a;
      }
    }
    forall x | x in pickers && x !in actors[..next]
      ensures pickers[x].picked == picked[x]
    {
      assert x != a && x !in actors[..j];
    }
  }
}
