/**
 * The action lifecycle of one actor: a request cancels the running action
 * (if any and if different) before the next one is recorded and initiated,
 * and a completed action asks for a new pick.
 */
module Acting {
  import opened Wrappers
  import opened Entities
  import opened Events
  import opened Picking

  /** The `CurrentAction` component of `actor`, if it has one. */
  function CurrentOf(current: map<Entity, ActionId>, actor: Entity): (r: Option<ActionId>)
    ensures r.Some? <==> actor in current
    ensures r.Some? ==> r.value == current[actor]
  {
    if actor in current then Some(current[actor]) else None
  }

  /** The action a request resolves to: the one asked for, else the picker's last pick. */
  function NextAction(requested: Option<ActionId>, picked: ActionId): (a: ActionId)
    ensures requested.Some? ==> a == requested.value
    ensures requested.None? ==> a == picked
  {
    if requested.Some? then requested.value else picked
  }

  /**
   * The commands one `RequestAction` for `actor` queues, given the actor's
   * last pick (`None` when it has no picker) and its current action.
   */
  function RequestCommands(actor: Entity, requested: Option<ActionId>, picked: Option<ActionId>,
                           current: Option<ActionId>): seq<Event>
  {
    if picked.None? then []
    else
      var next := NextAction(requested, picked.value);
      if current.Some? && current.value == next then []
      else
        (if current.Some? then [Ended(actor, CancelledEnd(current.value))] else [])
        + [InsertCurrentAction(actor, next), OnActionInitiated(actor, next)]
  }

  /**
   * `on_request_cancel_and_initiate`: for an actor with a picker, resolves
   * the next action; when it is already current nothing happens, otherwise
   * the current action (if any) is cancelled, the next one becomes current
   * and is initiated, in that order.
   */
  method OnRequestCancelAndInitiate(actor: Entity, requested: Option<ActionId>, pickers: map<Entity, Picker>,
                                    current: map<Entity, ActionId>, commands: CommandQueue)
    modifies commands
    ensures commands.queue == old(commands.queue)
      + RequestCommands(actor, requested, if actor in pickers then Some(pickers[actor].picked) else None,
                        CurrentOf(current, actor))
  {
    if actor in pickers {
      var picker := pickers[actor];
      var currentAction := CurrentOf(current, actor);
      var next := if requested.Some? then requested.value else picker.picked;
      if currentAction.Some? {
        if next == currentAction.value {
          return;
        }
        commands.Trigger(Ended(actor, CancelledEnd(currentAction.value)));
      }
      commands.Trigger(InsertCurrentAction(actor, next));
      commands.Trigger(OnActionInitiated(actor, next));
    }
  }

  /** No picker, no commands; an unchanged action, no commands. */
  lemma RequestQuiet(actor: Entity, requested: Option<ActionId>, picked: Option<ActionId>, current: Option<ActionId>)
    ensures picked.None? ==> RequestCommands(actor, requested, picked, current) == []
    ensures picked.Some? && current.Some? && current.value == NextAction(requested, picked.value)
      ==> RequestCommands(actor, requested, picked, current) == []
    ensures picked.Some? && (current.None? || current.value != NextAction(requested, picked.value))
      ==> RequestCommands(actor, requested, picked, current) != []
  {
  }

  /**
   * Switching actions: the old action is cancelled strictly before the new
   * one is recorded and initiated, and nothing else is queued.
   */
  lemma CancelBeforeInitiate(actor: Entity, requested: Option<ActionId>, picked: ActionId, current: ActionId)
    requires current != NextAction(requested, picked)
    ensures var cmds := RequestCommands(actor, requested, Some(picked), Some(current));
      var next := NextAction(requested, picked);
      && cmds == [Ended(actor, CancelledEnd(current)), InsertCurrentAction(actor, next), OnActionInitiated(actor, next)]
      && (forall i, j | 0 <= i < |cmds| && 0 <= j < |cmds|
            && cmds[i].Ended? && cmds[j].OnActionInitiated? :: i < j)
  {
  }

  /** Starting from idle: the next action is recorded and initiated, and nothing is cancelled. */
  lemma InitiateFromIdle(actor: Entity, requested: Option<ActionId>, picked: ActionId)
    ensures var cmds := RequestCommands(actor, requested, Some(picked), None);
      var next := NextAction(requested, picked);
      && cmds == [InsertCurrentAction(actor, next), OnActionInitiated(actor, next)]
      && forall i | 0 <= i < |cmds| :: !cmds[i].Ended?
  {
  }

  /** The `CurrentAction` components after the queued inserts have been applied, in order. */
  function ApplyInserts(current: map<Entity, ActionId>, cmds: seq<Event>): map<Entity, ActionId>
  {
    if cmds == [] then current
    else
      var rest := ApplyInserts(current, cmds[..|cmds| - 1]);
      var e := cmds[|cmds| - 1];
      if e.InsertCurrentAction? then rest[e.actor := e.action] else rest
  }

  /** Applying the inserts of two queued runs is applying them one after the other. */
  lemma {:induction false} ApplyInsertsAppend(current: map<Entity, ActionId>, xs: seq<Event>, ys: seq<Event>)
    ensures ApplyInserts(current, xs + ys) == ApplyInserts(ApplyInserts(current, xs), ys)
  {
    if ys != [] {
      assert (xs + ys)[..|xs + ys| - 1] == xs + ys[..|ys| - 1];
      ApplyInsertsAppend(current, xs, ys[..|ys| - 1]);
    } else {
      assert xs + ys == xs;
    }
  }

  /**
   * Once a request's commands are applied, the actor's current action is
   * the resolved one, whether or not anything was queued, and no other
   * actor's current action changes.
   */
  lemma RequestEffect(current: map<Entity, ActionId>, actor: Entity, requested: Option<ActionId>, picked: ActionId)
    ensures var after := ApplyInserts(current, RequestCommands(actor, requested, Some(picked), CurrentOf(current, actor)));
      CurrentOf(after, actor) == Some(NextAction(requested, picked))
    ensures var after := ApplyInserts(current, RequestCommands(actor, requested, Some(picked), CurrentOf(current, actor)));
      forall other | other != actor :: CurrentOf(after, other) == CurrentOf(current, other)
  {
    var cmds := RequestCommands(actor, requested, Some(picked), CurrentOf(current, actor));
    var next := NextAction(requested, picked);
    if cmds != [] {
      var pre := if actor in current then [Ended(actor, CancelledEnd(current[actor]))] else [];
      assert cmds == pre + [InsertCurrentAction(actor, next)] + [OnActionInitiated(actor, next)];
      ApplyInsertsAppend(current, pre + [InsertCurrentAction(actor, next)], [OnActionInitiated(actor, next)]);
      ApplyInsertsAppend(current, pre, [InsertCurrentAction(actor, next)]);
      assert ApplyInserts(current, pre) == current by {
        if pre != [] {
          assert pre[..0] == [];
        }
      }
      assert ApplyInserts(current, cmds) == current[actor := next];
    }
  }

  /**
   * Requests are idempotent: once the commands of a request are applied,
   * repeating the same request queues nothing.
   */
  lemma IdempotentRequest(current: map<Entity, ActionId>, actor: Entity, requested: Option<ActionId>, picked: ActionId)
    ensures var after := ApplyInserts(current, RequestCommands(actor, requested, Some(picked), CurrentOf(current, actor)));
      RequestCommands(actor, requested, Some(picked), CurrentOf(after, actor)) == []
  {
    RequestEffect(current, actor, requested, picked);
  }

  /** The commands `on_ended_request_again` queues for one ended action. */
  function EndedCommands(actor: Entity, ended: OnActionEnded): seq<Event>
  {
    match ended.reason
    case Completed => [Request(actor, RequestAction(None))]
    case Cancelled => []
  }

  /**
   * `on_ended_request_again`: a completed action asks for the picked
   * action again; a cancelled one queues nothing.
   */
  method OnEndedRequestAgain(actor: Entity, ended: OnActionEnded, commands: CommandQueue)
    modifies commands
    ensures commands.queue == old(commands.queue) + EndedCommands(actor, ended)
  {
    match ended.reason {
      case Completed =>
        commands.Trigger(Request(actor, RequestAction(None)));
      case Cancelled =>
    }
  }

  /**
   * Completion and cancellation never feed each other: completion asks
   * for the pick exactly once, cancellation (including the one a switch
   * queues) asks for nothing, so a switch cannot start a request loop.
   */
  lemma EndedSpec(actor: Entity, action: ActionId)
    ensures EndedCommands(actor, CompletedEnd(action)) == [Request(actor, DefaultRequest())]
    ensures EndedCommands(actor, CancelledEnd(action)) == []
  {
  }

  /**
   * After completion the finished action is still current, so the
   * re-request it triggers initiates nothing when the picker still picks
   * that action, and switches to the new pick otherwise.
   */
  lemma ReRequestAfterCompletion(actor: Entity, finished: ActionId, picked: ActionId)
    ensures var req := EndedCommands(actor, CompletedEnd(finished))[0].request;
      && (picked == finished ==> RequestCommands(actor, req.action, Some(picked), Some(finished)) == [])
      && (picked != finished ==>
            RequestCommands(actor, req.action, Some(picked), Some(finished))
              == [Ended(actor, CancelledEnd(finished)), InsertCurrentAction(actor, picked),
                  OnActionInitiated(actor, picked)])
  {
  }
}
