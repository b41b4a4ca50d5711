/**
 * Entities and component identifiers of the host ECS, and the checked
 * access to the entity an observer was triggered for.
 */
module Entities {
  import opened Wrappers

  /** An ECS entity: an opaque identifier. */
  datatype Entity = Entity(bits: nat)

  /**
   * The entity an untargeted trigger reports; the host reserves index
   * `u32::MAX` for it.
   */
  const PLACEHOLDER: Entity := Entity(0xFFFF_FFFF)

  /** The component id of an action component. */
  datatype ActionId = ActionId(id: nat)

  /** The triggered entity, unless the trigger was untargeted. */
  function GetEntity(triggered: Entity): (r: Option<Entity>)
    ensures r.None? <==> triggered == PLACEHOLDER
    ensures r.Some? ==> r.value == triggered
  {
    if triggered == PLACEHOLDER then None else Some(triggered)
  }
}
