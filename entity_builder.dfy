/** Creating entities (src/entities.rs): a builder holds a fresh id, the mask
 *  of the components attached so far and the world the components go into;
 *  the entity joins the entity table only when the builder is built. */
module EntityBuilders {

  import opened Bits
  import opened Entities
  import opened Schema
  import opened Store
  import opened Worlds

  /** `EntityBuilder`: the entity being created, its pending mask, and the
   *  world it is built into. `attached` records the component types attached
   *  so far, in order. */
  class EntityBuilder<V> {
    const entity: Entity
    var mask: Mask
    const world: World<V>
    ghost var attached: seq<TypeId>

    /** The builder's invariant: the world is valid, the entity is not yet
     *  registered but its id came from the counter, the pending mask holds the
     *  bits of the attached types, and the entity is in exactly the columns of
     *  those bits. */
    ghost predicate Valid()
      reads this, world
    {
      && world.Valid()
      && entity !in world.entities && entity.id < world.nextEntityId
      && (forall c :: c in attached ==> c in world.components)
      && mask == MaskOf(world.components, attached)
      && (forall b :: b in world.componentColumns ==> (entity in world.componentColumns[b] <==> b in mask))
    }

    /** `EntityBuilder::new(id, world)`: the entity with that id and an empty mask. */
    constructor (id: nat, world: World<V>)
      ensures entity == Entity(id) && this.world == world
      ensures mask == {} && attached == []
      ensures (&& world.Valid() && Entity(id) !in world.entities && id < world.nextEntityId
               && (forall b :: b in world.componentColumns ==> Entity(id) !in world.componentColumns[b]))
              ==> Valid()
    {
      entity := Entity(id);
      mask := {};
      this.world := world;
      attached := [];
    }

    /** `with_component(value)`: a new cell holding `value` goes into the column
     *  of `c` under the entity, and the bit of `c` joins the pending mask. */
    method WithComponent(c: TypeId, value: V) returns (ghost cell: Cell<V>)
      requires Valid() && c in world.components
      modifies this, world
      ensures Valid()
      ensures attached == old(attached) + [c]
      ensures mask == Or(old(mask), world.ComponentBitMask(c))
      ensures fresh(cell) && cell.value == value
      ensures world.Contents() == InsertColumn(old(world.Contents()), world.ComponentIndex(c), entity, cell)
      ensures world.staticComponents == old(world.staticComponents)
      ensures world.nextEntityId == old(world.nextEntityId)
    {
      MaskOfAppend(world.components, attached, c);
      mask, cell := world.AddComponentToEntityBuilder(c, value, entity, mask);
      attached := attached + [c];
    }

    /** `with_shared_component(handle)`: as `WithComponent`, but the column
     *  stores the given handle itself. */
    method WithSharedComponent(c: TypeId, handle: Cell<V>)
      requires Valid() && c in world.components
      modifies this, world
      ensures Valid()
      ensures attached == old(attached) + [c]
      ensures mask == Or(old(mask), world.ComponentBitMask(c))
      ensures world.Contents() == InsertColumn(old(world.Contents()), world.ComponentIndex(c), entity, handle)
      ensures world.staticComponents == old(world.staticComponents)
      ensures world.nextEntityId == old(world.nextEntityId)
    {
      MaskOfAppend(world.components, attached, c);
      mask := world.AddSharedComponentToEntityBuilder(c, handle, entity, mask);
      attached := attached + [c];
    }

    /** `build()`: registers the entity with the pending mask and returns it.
     *  The built entity has a component of a registered type exactly when
     *  that type was attached. */
    method Build() returns (e: Entity)
      requires Valid()
      modifies world
      ensures e == entity
      ensures world.Valid()
      ensures world.Contents() == Register(old(world.Contents()), entity, mask)
      ensures world.staticComponents == old(world.staticComponents)
      ensures world.nextEntityId == old(world.nextEntityId)
      ensures e in world.entities && world.entities[e] == MaskOf(world.components, attached)
      ensures forall c :: c in world.components ==> (world.GetEntityComponent(c, e).Some? <==> c in attached)
    {
      MaskOfBounded(world.components, attached);
      world.AddEntity(entity, mask);
      e := entity;
      forall c | c in world.components
        ensures world.GetEntityComponent(c, e).Some? <==> c in attached
      {
        MaskOfMember(world.components, attached, c);
      }
    }
  }

  /** `World::new_entity`: hands out the counter's value as the id of a new
   *  builder and advances the counter. (A free method here because the world
   *  module cannot name the builder.) */
  method NewEntity<V>(world: World<V>) returns (builder: EntityBuilder<V>)
    requires world.Valid()
    modifies world
    ensures fresh(builder) && builder.Valid() && builder.world == world
    ensures builder.entity == Entity(old(world.nextEntityId))
    ensures builder.entity !in world.entities
    ensures forall b :: b in world.componentColumns ==> builder.entity !in world.componentColumns[b]
    ensures builder.mask == {} && builder.attached == []
    ensures world.nextEntityId == old(world.nextEntityId) + 1
    ensures world.Contents() == old(world.Contents())
    ensures world.staticComponents == old(world.staticComponents)
  {
    world.nextEntityId := world.nextEntityId + 1;
    builder := new EntityBuilder(world.nextEntityId - 1, world);
  }

  /** Until it is built, the entity of a builder is in no query result. */
  lemma PendingEntityInvisible<V>(builder: EntityBuilder<V>, filter: Mask)
    requires builder.Valid()
    ensures builder.entity !in Matching(builder.world.Contents(), filter)
  {
  }
}
