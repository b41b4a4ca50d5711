/**
 * The realtime lifecycle systems: every tick scoring and picking are run,
 * and idle actors ask for their picked action.
 */
module Lifecycle {
  import opened Wrappers
  import opened Entities
  import opened Events
  import opened Picking
  import opened Acting

  /**
   * An actor is idle when it has no current action or its current action
   * is its picker's default.
   */
  predicate Idle(actor: Entity, defaults: map<Entity, ActionId>, current: map<Entity, ActionId>)
    requires actor in defaults
  {
    actor !in current || current[actor] == defaults[actor]
  }

  /** The requests the system queues for `actors`, in query order. */
  function IdleRequests(actors: seq<Entity>, defaults: map<Entity, ActionId>, current: map<Entity, ActionId>): seq<Event>
    requires forall a | a in actors :: a in defaults
  {
    if actors == [] then []
    else
      var a := actors[|actors| - 1];
      IdleRequests(actors[..|actors| - 1], defaults, current)
        + (if Idle(a, defaults, current) then [Request(a, RequestAction(None))] else [])
  }

  /**
   * Exactly the idle actors get a request, each a default request for
   * itself, and nothing else is queued.
   */
  lemma {:induction false} IdleRequestsSpec(actors: seq<Entity>, defaults: map<Entity, ActionId>,
                                            current: map<Entity, ActionId>)
    requires forall a | a in actors :: a in defaults
    ensures forall e | e in IdleRequests(actors, defaults, current) ::
      e.Request? && e.actor in actors && e.request == DefaultRequest() && Idle(e.actor, defaults, current)
    ensures forall a | a in actors && Idle(a, defaults, current) ::
      Request(a, DefaultRequest()) in IdleRequests(actors, defaults, current)
    ensures |IdleRequests(actors, defaults, current)| <= |actors|
  {
    if actors != [] {
      var front := actors[..|actors| - 1];
      IdleRequestsSpec(front, defaults, current);
      assert forall a | a in actors :: a in front || a == actors[|actors| - 1];
    }
  }

  /**
   * `request_action_if_none_or_default`: for every picker actor, in query
   * order, a default `RequestAction` when it has no current action or is
   * running its default.
   */
  method RequestActionIfNoneOrDefault(actors: seq<Entity>, pickers: map<Entity, Picker>,
                                      current: map<Entity, ActionId>, commands: CommandQueue)
    requires (forall a :: a in actors <==> a in pickers) && Distinct(actors)
    modifies commands
    ensures commands.queue == old(commands.queue) + IdleRequests(actors, Defaults(pickers), current)
  {
    var j := 0;
    while j < |actors|
      invariant 0 <= j <= |actors|
      invariant commands.queue == old(commands.queue) + IdleRequests(actors[..j], Defaults(pickers), current)
    {
      var actor := actors[j];
      var picker := pickers[actor];
      assert actors[..j + 1][..j] == actors[..j];
      if (actor in current && picker.IsDefault(current[actor])) || actor !in current {
        commands.Trigger(Request(actor, RequestAction(None)));
      }
      j := j + 1;
    }
    assert actors[..j] == actors;
  }

  /**
   * Over the query of every `Picker` entity: a picker actor gets a default
   * request exactly when it is idle.
   */
  lemma IdleRequestsForEveryPicker(actors: seq<Entity>, defaults: map<Entity, ActionId>,
                                   current: map<Entity, ActionId>)
    requires forall a :: a in actors <==> a in defaults
    ensures forall a | a in defaults ::
      Request(a, DefaultRequest()) in IdleRequests(actors, defaults, current) <==> Idle(a, defaults, current)
  {
    IdleRequestsSpec(actors, defaults, current);
  }

  /** When the query lists each actor once, no request is queued twice. */
  lemma {:induction false} IdleRequestsDistinct(actors: seq<Entity>, defaults: map<Entity, ActionId>,
                                                current: map<Entity, ActionId>)
    requires (forall a | a in actors :: a in defaults) && Distinct(actors)
    ensures forall i, j | 0 <= i < j < |IdleRequests(actors, defaults, current)| ::
      IdleRequests(actors, defaults, current)[i] != IdleRequests(actors, defaults, current)[j]
  {
    if actors != [] {
      var n := |actors| - 1;
      var front := actors[..n];
      assert Distinct(front) by {
        forall i, j | 0 <= i < j < |front| ensures Unequal(front[i], front[j]) {
          assert Unequal(actors[i], actors[j]);
        }
      }
      IdleRequestsDistinct(front, defaults, current);
      IdleRequestsSpec(front, defaults, current);
      forall a | a in front ensures a != actors[n] {
        var k :| 0 <= k < n && front[k] == a;
        assert Unequal(actors[k], actors[n]);
      }
    }
  }

  /** An actor running a non-default action is never asked to re-pick. */
  lemma BusyActorsNotRequested(actors: seq<Entity>, defaults: map<Entity, ActionId>,
                               current: map<Entity, ActionId>, busy: Entity)
    requires forall a | a in actors :: a in defaults
    requires busy in current && busy in defaults && current[busy] != defaults[busy]
    ensures forall e | e in IdleRequests(actors, defaults, current) :: e.Request? && e.actor != busy
  {
    IdleRequestsSpec(actors, defaults, current);
  }

  /** `score_and_pick`: an untargeted scoring run, then an untargeted picking run. */
  method ScoreAndPick(commands: CommandQueue)
    modifies commands
    ensures commands.queue == old(commands.queue) + [RunScoring(None), RunPicking(None)]
  {
    commands.Trigger(RunScoring(None));
    commands.Trigger(RunPicking(None));
  }
}
