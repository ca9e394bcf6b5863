/** Entities: opaque identities wrapping a numeric id (src/entities.rs). */
module Entities {

  /** `Entity(EntityId)`: identity only, no payload. */
  datatype Entity = Entity(id: nat)

  /** The derived equality of the source compares the wrapped ids. */
  lemma EntityEquality(a: Entity, b: Entity)
    ensures a == b <==> a.id == b.id
  {
  }
}
