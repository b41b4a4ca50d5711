/**
 * `FirstToScore`: picks the first child, in hierarchy order, whose score
 * reaches a threshold.
 */
module FirstToScorePicking {
  import opened Wrappers
  import opened Entities
  import opened Scoring
  import opened Events
  import opened Picking

  datatype FirstToScore = FirstToScore(threshold: Score)

  /** `FirstToScore::new`: the threshold is clamped to [0, 1]. */
  function NewFirstToScore(t: real): (f: FirstToScore)
    ensures f.threshold == New(t)
  {
    FirstToScore(New(t))
  }

  /** `FirstToScore::set_threshold`: clamps like `new`. */
  function SetThreshold(f: FirstToScore, t: real): (g: FirstToScore)
    ensures g.threshold == New(t)
  {
    f.(threshold := New(t))
  }

  /** The first of `cs` that has a score at or above `threshold`, scanning front to back. */
  function FirstReaching(cs: seq<Entity>, of: map<Entity, Score>, threshold: real): (r: Option<Entity>)
    ensures r.Some? ==> r.value in cs && r.value in of && threshold <= of[r.value].value
    ensures r.None? ==> forall k | 0 <= k < |cs| && cs[k] in of :: of[cs[k]].value < threshold
  {
    if cs == [] then None
    else if cs[0] in of && threshold <= of[cs[0]].value then Some(cs[0])
    else
      var r := FirstReaching(cs[1..], of, threshold);
      assert forall k | 1 <= k < |cs| :: cs[k] == cs[1..][k - 1];
      r
  }

  /** Every scored child before the one `FirstReaching` finds is below the threshold. */
  lemma {:induction false} FirstReachingIsFirst(cs: seq<Entity>, of: map<Entity, Score>, threshold: real)
    requires FirstReaching(cs, of, threshold).Some?
    ensures exists k | 0 <= k < |cs| ::
      (cs[k] == FirstReaching(cs, of, threshold).value
       && forall i | 0 <= i < k && cs[i] in of :: of[cs[i]].value < threshold)
  {
    if !(cs[0] in of && threshold <= of[cs[0]].value) {
      FirstReachingIsFirst(cs[1..], of, threshold);
      var k :| 0 <= k < |cs[1..]| && cs[1..][k] == FirstReaching(cs[1..], of, threshold).value
        && forall i | 0 <= i < k && cs[1..][i] in of :: of[cs[1..][i]].value < threshold;
      assert cs[k + 1] == FirstReaching(cs, of, threshold).value;
      forall i | 0 <= i < k + 1 && cs[i] in of
        ensures of[cs[i]].value < threshold
      {
        if i > 0 {
          assert cs[i] == cs[1..][i - 1];
        }
      }
    } else {
      assert cs[0] == FirstReaching(cs, of, threshold).value;
    }
  }

  /** The action one actor ends up with. */
  function PickFor(cs: seq<Entity>, of: map<Entity, Score>, settings: FirstToScore,
                   choices: map<Entity, ActionId>, defaultAction: ActionId): ActionId
  {
    Resolve(choices, defaultAction, FirstReaching(cs, of, settings.threshold.value))
  }

  /** The commands one actor's run queues: `OnPicked` only when falling back to the default. */
  function EventsFor(actor: Entity, cs: seq<Entity>, of: map<Entity, Score>, settings: FirstToScore,
                     defaultAction: ActionId): seq<Event>
  {
    if FirstReaching(cs, of, settings.threshold.value).None? then [OnPicked(actor, defaultAction)] else []
  }

  /**
   * When a child reaches the threshold no `OnPicked` is queued, even when
   * that child has no choice and the default is picked; otherwise the
   * default is picked and announced.
   */
  lemma EventsForSpec(actor: Entity, cs: seq<Entity>, of: map<Entity, Score>, settings: FirstToScore,
                      choices: map<Entity, ActionId>, defaultAction: ActionId)
    ensures (exists k | 0 <= k < |cs| :: cs[k] in of && settings.threshold.value <= of[cs[k]].value)
      ==> EventsFor(actor, cs, of, settings, defaultAction) == []
    ensures (forall k | 0 <= k < |cs| && cs[k] in of :: of[cs[k]].value < settings.threshold.value)
      ==> (EventsFor(actor, cs, of, settings, defaultAction) == [OnPicked(actor, defaultAction)]
           && PickFor(cs, of, settings, choices, defaultAction) == defaultAction)
  {
  }

  /** A scorer at 0.7 under threshold 0.5, mapped to an action, gets that action picked. */
  lemma FirstToScoreExample(actor: Entity, scorer: Entity, action: ActionId, idle: ActionId)
    ensures PickFor([scorer], map[scorer := New(0.7)], NewFirstToScore(0.5), map[scorer := action], idle) == action
    ensures EventsFor(actor, [scorer], map[scorer := New(0.7)], NewFirstToScore(0.5), idle) == []
  {
  }

  /**
   * The observer's `run` for one actor: scans the children in order,
   * picks the first that reaches the threshold and returns; when none
   * does, picks the default and queues `OnPicked`.
   */
  method Run(actor: Entity, cs: seq<Entity>, picker: Picker, settings: FirstToScore,
             of: map<Entity, Score>, commands: CommandQueue)
    modifies picker, commands
    ensures picker.picked == PickFor(cs, of, settings, old(picker.choices), old(picker.defaultAction))
    ensures picker.choices == old(picker.choices) && picker.defaultAction == old(picker.defaultAction)
    ensures commands.queue == old(commands.queue) + EventsFor(actor, cs, of, settings, old(picker.defaultAction))
  {
    var j := 0;
    while j < |cs|
      invariant 0 <= j <= |cs|
      invariant FirstReaching(cs, of, settings.threshold.value) == FirstReaching(cs[j..], of, settings.threshold.value)
      invariant picker.choices == old(picker.choices) && picker.defaultAction == old(picker.defaultAction)
      invariant commands.queue == old(commands.queue)
    {
      if cs[j] in of && of[cs[j]].Get() >= settings.threshold.Get() {
        var _ := picker.Pick(Some(cs[j]));
        return;
      }
      assert cs[j..][1..] == cs[j + 1..];
      j := j + 1;
    }
    var action := picker.Pick(None);
    commands.Trigger(OnPicked(actor, action));
  }

  /** The commands each actor's run queues, by entity. */
  function EventsMap(actors: seq<Entity>, children: map<Entity, seq<Entity>>, settings: map<Entity, FirstToScore>,
                     defaults: map<Entity, ActionId>, of: map<Entity, Score>): map<Entity, seq<Event>>
    requires forall a | a in actors :: a in children && a in settings && a in defaults
  {
    map a | a in actors :: EventsFor(a, children[a], of, settings[a], defaults[a])
  }

  /** The commands of `actors`' runs, one actor after another. */
  function Concat(actors: seq<Entity>, events: map<Entity, seq<Event>>): seq<Event>
    requires forall a | a in actors :: a in events
  {
    if actors == [] then [] else Concat(actors[..|actors| - 1], events) + events[actors[|actors| - 1]]
  }

  /**
   * An untargeted run queues one `OnPicked` per actor that fell back to
   * its default, in query order, and nothing for the others.
   */
  lemma {:induction false} ConcatSpec(actors: seq<Entity>, children: map<Entity, seq<Entity>>,
                                      settings: map<Entity, FirstToScore>, defaults: map<Entity, ActionId>,
                                      of: map<Entity, Score>)
    requires forall a | a in actors :: a in children && a in settings && a in defaults
    ensures var evs := Concat(actors, EventsMap(actors, children, settings, defaults, of));
      forall e | e in evs :: e.OnPicked? && e.actor in actors && e.action == defaults[e.actor]
        && FirstReaching(children[e.actor], of, settings[e.actor].threshold.value).None?
    ensures var evs := Concat(actors, EventsMap(actors, children, settings, defaults, of));
      forall a | a in actors && FirstReaching(children[a], of, settings[a].threshold.value).None? ::
        OnPicked(a, defaults[a]) in evs
  {
    if actors != [] {
      var front := actors[..|actors| - 1];
      var last := actors[|actors| - 1];
      var m := EventsMap(actors, children, settings, defaults, of);
      var m' := EventsMap(front, children, settings, defaults, of);
      ConcatSpec(front, children, settings, defaults, of);
      ConcatAgree(front, m, m');
      assert forall a | a in actors :: a in front || a == last;
    }
  }

  /** Only the entries of the listed actors matter. */
  lemma {:induction false} ConcatAgree(actors: seq<Entity>, m: map<Entity, seq<Event>>, m': map<Entity, seq<Event>>)
    requires forall a | a in actors :: a in m && a in m' && m[a] == m'[a]
    ensures Concat(actors, m) == Concat(actors, m')
  {
    if actors != [] {
      ConcatAgree(actors[..|actors| - 1], m, m');
    }
  }

  /**
   * The entities the observer's query yields: those with children, a
   * picker and `FirstToScore`, each once.
   */
  predicate IsQuery(actors: seq<Entity>, children: map<Entity, seq<Entity>>, pickers: map<Entity, Picker>,
                    settings: map<Entity, FirstToScore>)
  {
    (forall a | a in actors :: a in children && a in pickers && a in settings)
    && (forall a | a in children && a in pickers && a in settings :: a in actors)
    && Distinct(actors)
  }

  /**
   * The observer for `OnPick`: a targeted trigger runs for its target when
   * the query holds it, and changes no other picker; an untargeted one runs
   * for every actor in query order (see `RunAll`).
   */
  method Observer(trigger: Entity, actors: seq<Entity>, children: map<Entity, seq<Entity>>,
                  pickers: map<Entity, Picker>, settings: map<Entity, FirstToScore>,
                  of: map<Entity, Score>, commands: CommandQueue)
    requires IsQuery(actors, children, pickers, settings) && Unaliased(pickers)
    modifies set a | a in pickers :: pickers[a], commands
    ensures forall a | a in pickers ::
      pickers[a].choices == old(pickers[a].choices) && pickers[a].defaultAction == old(pickers[a].defaultAction)
    ensures GetEntity(trigger).Some? && trigger in actors ==>
      pickers[trigger].picked
        == PickFor(children[trigger], of, settings[trigger], old(pickers[trigger].choices), old(pickers[trigger].defaultAction))
      && commands.queue
        == old(commands.queue) + EventsFor(trigger, children[trigger], of, settings[trigger], old(pickers[trigger].defaultAction))
    ensures GetEntity(trigger).Some? && trigger !in actors ==>
      commands.queue == old(commands.queue) && forall a | a in pickers :: pickers[a].picked == old(pickers[a].picked)
    ensures GetEntity(trigger).Some? ==>
      forall a | a in pickers && a != trigger :: pickers[a].picked == old(pickers[a].picked)
    ensures GetEntity(trigger).None? ==>
      forall a | a in actors ::
        pickers[a].picked == PickFor(children[a], of, settings[a], old(pickers[a].choices), old(pickers[a].defaultAction))
    ensures GetEntity(trigger).None? ==>
      commands.queue == old(commands.queue) + Concat(actors, EventsMap(actors, children, settings, old(Defaults(pickers)), of))
    ensures GetEntity(trigger).None? ==>
      forall a | a in pickers && a !in actors :: pickers[a].picked == old(pickers[a].picked)
  {
    if GetEntity(trigger).Some? {
      if trigger in children && trigger in pickers && trigger in settings {
        assert forall x | x in pickers && x != trigger :: Apart(pickers[x], pickers[trigger]);
        Run(trigger, children[trigger], pickers[trigger], settings[trigger], of, commands);
      }
    } else {
      RunAll(actors, children, pickers, settings, of, commands);
    }
  }

  /** The untargeted half of `Observer`: one run per actor, in order. */
  method RunAll(actors: seq<Entity>, children: map<Entity, seq<Entity>>,
                pickers: map<Entity, Picker>, settings: map<Entity, FirstToScore>,
                of: map<Entity, Score>, commands: CommandQueue)
    requires IsQuery(actors, children, pickers, settings) && Unaliased(pickers)
    modifies set a | a in pickers :: pickers[a], commands
    ensures forall a | a in pickers ::
      pickers[a].choices == old(pickers[a].choices) && pickers[a].defaultAction == old(pickers[a].defaultAction)
    ensures forall a | a in actors ::
      pickers[a].picked == PickFor(children[a], of, settings[a], old(pickers[a].choices), old(pickers[a].defaultAction))
    ensures commands.queue == old(commands.queue) + Concat(actors, EventsMap(actors, children, settings, old(Defaults(pickers)), of))
    ensures forall a | a in pickers && a !in actors :: pickers[a].picked == old(pickers[a].picked)
  {
    ghost var choices := Choices(pickers);
    ghost var defaults := Defaults(pickers);
    ghost var picked := Picks(pickers);
    ghost var target := map a | a in actors :: PickFor(children[a], of, settings[a], choices[a], defaults[a]);
    ghost var events := EventsMap(actors, children, settings, defaults, of);
    ghost var queue := commands.queue;
    ProgressStart(actors, children, pickers, settings, of, commands, choices, defaults, picked, target, events, queue);
    var j := 0;
    while j < |actors|
      invariant 0 <= j <= |actors|
      invariant Progress(j, actors, children, pickers, settings, of, commands, choices, defaults, picked, target, events, queue)
    {
      assert forall x | x in pickers && x != actors[j] :: Apart(pickers[x], pickers[actors[j]]);
      assert forall k | 0 <= k < j :: Unequal(actors[k], actors[j]);
      j := Advance(j, actors, children, pickers, settings, of, commands, choices, defaults, picked, target, events, queue);
    }
    ProgressEnd(actors, children, pickers, settings, of, commands, choices, defaults, picked, target, events, queue);
  }

  /** What `RunAll` has done after running the first `j` actors, towards the picks `target`. */
  ghost predicate Progress(j: nat, actors: seq<Entity>, children: map<Entity, seq<Entity>>,
                           pickers: map<Entity, Picker>, settings: map<Entity, FirstToScore>,
                           of: map<Entity, Score>, commands: CommandQueue,
                           choices: map<Entity, map<Entity, ActionId>>, defaults: map<Entity, ActionId>,
                           picked: map<Entity, ActionId>, target: map<Entity, ActionId>,
                           events: map<Entity, seq<Event>>, queue: seq<Event>)
    reads set a | a in pickers :: pickers[a], commands
  {
    && j <= |actors|
    && (forall a | a in actors :: a in children && a in pickers && a in settings && a in target && a in events)
    && (forall a | a in pickers :: a in choices && a in defaults && a in picked)
    && (forall a | a in pickers ::
         pickers[a].choices == choices[a] && pickers[a].defaultAction == defaults[a])
    && (forall k | 0 <= k < j :: pickers[actors[k]].picked == target[actors[k]])
    && (forall a | a in pickers && a !in actors[..j] :: pickers[a].picked == picked[a])
    && commands.queue == queue + Concat(actors[..j], events)
  }

  /** Nothing is done before the first run. */
  lemma ProgressStart(actors: seq<Entity>, children: map<Entity, seq<Entity>>,
                      pickers: map<Entity, Picker>, settings: map<Entity, FirstToScore>,
                      of: map<Entity, Score>, commands: CommandQueue,
                      choices: map<Entity, map<Entity, ActionId>>, defaults: map<Entity, ActionId>,
                      picked: map<Entity, ActionId>, target: map<Entity, ActionId>,
                           events: map<Entity, seq<Event>>, queue: seq<Event>)
    requires IsQuery(actors, children, pickers, settings)
    requires choices == Choices(pickers) && defaults == Defaults(pickers) && picked == Picks(pickers)
    requires target.Keys == set a | a in actors
    requires events.Keys == set a | a in actors
    requires queue == commands.queue
    ensures Progress(0, actors, children, pickers, settings, of, commands, choices, defaults, picked, target, events, queue)
  {
    assert actors[..0] == [];
  }

  /** After the last run every actor has its pick and every run's commands are queued. */
  lemma ProgressEnd(actors: seq<Entity>, children: map<Entity, seq<Entity>>,
                    pickers: map<Entity, Picker>, settings: map<Entity, FirstToScore>,
                    of: map<Entity, Score>, commands: CommandQueue,
                    choices: map<Entity, map<Entity, ActionId>>, defaults: map<Entity, ActionId>,
                    picked: map<Entity, ActionId>, target: map<Entity, ActionId>,
                    events: map<Entity, seq<Event>>, queue: seq<Event>)
    requires Progress(|actors|, actors, children, pickers, settings, of, commands, choices, defaults, picked, target, events, queue)
    ensures forall a | a in pickers ::
      pickers[a].choices == choices[a] && pickers[a].defaultAction == defaults[a]
    ensures forall a | a in actors :: pickers[a].picked == target[a]
    ensures forall a | a in pickers && a !in actors :: pickers[a].picked == picked[a]
    ensures commands.queue == queue + Concat(actors, events)
  {
    assert actors[..|actors|] == actors;
  }

  /** One step of `RunAll`: runs actor `j`. */
  method Advance(j: nat, actors: seq<Entity>, children: map<Entity, seq<Entity>>,
                 pickers: map<Entity, Picker>, settings: map<Entity, FirstToScore>,
                 of: map<Entity, Score>, commands: CommandQueue,
                 ghost choices: map<Entity, map<Entity, ActionId>>, ghost defaults: map<Entity, ActionId>,
                 ghost picked: map<Entity, ActionId>, ghost target: map<Entity, ActionId>,
                 ghost events: map<Entity, seq<Event>>, ghost queue: seq<Event>) returns (next: nat)
    requires j < |actors|
    requires Progress(j, actors, children, pickers, settings, of, commands, choices, defaults, picked, target, events, queue)
    requires target[actors[j]]
      == PickFor(children[actors[j]], of, settings[actors[j]], choices[actors[j]], defaults[actors[j]])
    requires events[actors[j]] == EventsFor(actors[j], children[actors[j]], of, settings[actors[j]], defaults[actors[j]])
    requires forall x | x in pickers && x != actors[j] :: pickers[x] != pickers[actors[j]]
    requires forall k | 0 <= k < j :: actors[k] != actors[j]
    modifies pickers[actors[j]], commands
    ensures next == j + 1
    ensures Progress(next, actors, children, pickers, settings, of, commands, choices, defaults, picked, target, events, queue)
  {
    next := j + 1;
    var a := actors[j];
    assert actors[..j + 1][..j] == actors[..j];
    ghost var before := commands.queue;
    ghost var step := events[a];
    assert Concat(actors[..j + 1], events) == Concat(actors[..j], events) + step;
    Run(a, children[a], pickers[a], settings[a], of, commands);
    assert commands.queue == before + step;
    forall x | x in pickers && x != a
      ensures pickers[x].picked == old(pickers[x].picked)
      ensures pickers[x].choices == choices[x] && pickers[x].defaultAction == defaults[x]
    {
      assert pickers[x] != pickers[a];
    }
    forall k | 0 <= k < next
      ensures pickers[actors[k]].picked == target[actors[k]]
    {
      if k < j {
        assert actors[k] != a;
      }
    }
    forall x | x in pickers && x !in actors[..next]
      ensures pickers[x].picked == picked[x]
    {
      assert x != a && x !in actors[..j];
    }
  }
}
