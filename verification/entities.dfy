/** Entity identifiers and their binding to a dense storage index. */
module Entities {

  /** `Id` is a 64-bit counter in the Rust code; here it is unbounded. */
  type Id = nat

  /** An opaque entity handle. */
  datatype Entity = Entity(id: Id)

  /** The reserved handle with id 0; `create` never issues it. */
  function Nil(): Entity {
    Entity(0)
  }

  /** The default entity is the nil entity. */
  function Default(): Entity {
    Nil()
  }

  /** An entity paired with the dense index of its row in the component tables. */
  datatype IndexedEntity = IndexedEntity(index: nat, entity: Entity)
}
