/**
 * The events of the picking and action lifecycle, and the queue of
 * deferred commands that observers issue: each command triggers one event
 * (or inserts one component) when the queue is flushed, in FIFO order.
 */
module Events {
  import opened Wrappers
  import opened Entities

  /** Why an action ended: exactly two cases. */
  datatype ActionEndReason = Completed | Cancelled

  /** `OnActionEnded`: the action that ended and why. */
  datatype OnActionEnded = OnActionEnded(action: ActionId, reason: ActionEndReason)

  /** `OnActionEnded::completed`. */
  function CompletedEnd(action: ActionId): (e: OnActionEnded)
    ensures e.action == action && e.reason.Completed?
  {
    OnActionEnded(action, Completed)
  }

  /** `OnActionEnded::cancelled`. */
  function CancelledEnd(action: ActionId): (e: OnActionEnded)
    ensures e.action == action && e.reason.Cancelled?
  {
    OnActionEnded(action, Cancelled)
  }

  /** The two constructors never agree, and each one keeps its action apart. */
  lemma EndConstructors(a: ActionId, b: ActionId)
    ensures CompletedEnd(a) != CancelledEnd(b)
    ensures CompletedEnd(a) == CompletedEnd(b) <==> a == b
    ensures CancelledEnd(a) == CancelledEnd(b) <==> a == b
  {
  }

  /** `RequestAction`: a specific action, or `None` for whatever the picker picked. */
  datatype RequestAction = RequestAction(action: Option<ActionId>)

  /** `RequestAction::default`: requests the picked action. */
  function DefaultRequest(): (r: RequestAction)
    ensures r.action.None?
  {
    RequestAction(None)
  }

  /** One deferred command. */
  datatype Event =
    | RunScoring(scoringTarget: Option<Entity>)
    | RunPicking(pickingTarget: Option<Entity>)
    | OnPick(picker: Entity)
    | OnPicked(actor: Entity, action: ActionId)
    | Request(actor: Entity, request: RequestAction)
    | InsertCurrentAction(actor: Entity, action: ActionId)
    | OnActionInitiated(actor: Entity, action: ActionId)
    | Ended(actor: Entity, ended: OnActionEnded)

  /** The host's `Commands`: commands are queued and run later in order. */
  class CommandQueue {
    var queue: seq<Event>

    constructor ()
      ensures queue == []
    {
      queue := [];
    }

    /** Queues one command behind those already queued. */
    method Trigger(e: Event)
      modifies this
      ensures queue == old(queue) + [e]
    {
      queue := queue + [e];
    }
  }
}
