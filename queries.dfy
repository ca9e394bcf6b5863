/** Querying the store (src/queries.rs): a query builder ORs the bits of the
 *  required component types into a mask; building it snapshots the entities
 *  whose masks contain that mask, and the query maps the snapshot to cells. */
module Queries {

  import opened Bits
  import opened Optional
  import opened Entities
  import opened Schema
  import opened Store
  import opened Worlds

  /** `QueryBuilder`: the required mask and the world it is evaluated against.
   *  `clauses` records the component types required so far, in order. */
  class QueryBuilder<V> {
    var mask: Mask
    const world: World<V>
    ghost var clauses: seq<TypeId>

    /** The builder's invariant: the mask is the OR of the bits of its clauses. */
    ghost predicate Valid()
      reads this
    {
      && (forall c :: c in clauses ==> c in world.components)
      && mask == MaskOf(world.components, clauses)
    }

    /** `QueryBuilder::new(world)`: no clauses, the all-zero mask. */
    constructor (world: World<V>)
      ensures Valid() && this.world == world
      ensures mask == {} && clauses == []
    {
      mask := {};
      this.world := world;
      clauses := [];
    }

    /** `with_component::<C>()`: ORs the bit of `c` into the mask; the mask only
     *  gains bits. */
    method WithComponent(c: TypeId)
      requires Valid() && c in world.components
      modifies this
      ensures Valid()
      ensures clauses == old(clauses) + [c]
      ensures mask == Or(old(mask), world.ComponentBitMask(c))
      ensures old(mask) <= mask
    {
      MaskOfAppend(world.components, clauses, c);
      mask := Or(mask, world.ComponentBitMask(c));
      clauses := clauses + [c];
    }

    /** `build()`: the snapshot of `get_entities(mask)`. Every snapshot entity is
     *  registered with all required bits set, and, in a valid world, is in the
     *  column of every required type. */
    method Build() returns (q: Query<V>)
      requires Valid()
      ensures q.world == world
      ensures Distinct(q.GetEntities())
      ensures forall e :: e in q.GetEntities() <==> e in world.entities && mask <= world.entities[e]
      ensures world.Valid() ==>
                forall c, e :: c in clauses && e in q.GetEntities() ==>
                  e in world.componentColumns[world.ComponentIndex(c)]
    {
      var entities := world.GetEntities(mask);
      q := Query(entities, world);
      forall e | e in entities
        ensures e in world.entities && mask <= world.entities[e]
      {
        MatchingExactly(world.Contents(), mask, e);
      }
      forall e | e in world.entities && mask <= world.entities[e]
        ensures e in entities
      {
        MatchingExactly(world.Contents(), mask, e);
      }
      if world.Valid() {
        forall c, e | c in clauses && e in entities
          ensures e in world.componentColumns[world.ComponentIndex(c)]
        {
          MaskOfMember(world.components, clauses, c);
        }
      }
    }
  }

  /** `Query`: the snapshot of matching entities and the world it came from. */
  datatype Query<V> = Query(entities: seq<Entity>, world: World<V>)
  {
    /** `get_entities()`: the snapshot, unchanged. */
    function GetEntities(): (r: seq<Entity>)
      ensures r == entities
    {
      entities
    }

    /** `get_components::<C>()`: for each snapshot entity, in snapshot order,
     *  its cell in the column of `c`. Every snapshot entity must be in that
     *  column (the source panics otherwise). */
    function GetComponents(c: TypeId): (r: seq<Cell<V>>)
      reads world
      requires world.Valid() && c in world.components
      requires forall e :: e in entities ==> e in world.componentColumns[world.ComponentIndex(c)]
      ensures |r| == |entities|
      ensures forall i :: 0 <= i < |entities| ==> world.GetEntityComponent(c, entities[i]) == Some(r[i])
    {
      var column := world.GetComponentColumn(c);
      seq(|entities|, i requires 0 <= i < |entities| => column[entities[i]])
    }
  }

  /** `World::new_query`: a builder over `world` with no clauses. (A free method
   *  here because the world module cannot name the builder.) */
  method NewQuery<V>(world: World<V>) returns (builder: QueryBuilder<V>)
    ensures fresh(builder) && builder.Valid() && builder.world == world
    ensures builder.mask == {} && builder.clauses == []
  {
    builder := new QueryBuilder(world);
  }

  /** Query monotonicity: a query whose clauses include all of another's
   *  matches no more entities than the other. */
  lemma MoreClausesFewerEntities<V>(world: World<V>, fewer: seq<TypeId>, more: seq<TypeId>)
    requires forall c :: c in more ==> c in world.components
    requires forall c :: c in fewer ==> c in more
    ensures Matching(world.Contents(), MaskOf(world.components, more))
            <= Matching(world.Contents(), MaskOf(world.components, fewer))
  {
    MaskOfMonotone(world.components, fewer, more);
    MatchingNarrows(world.Contents(), MaskOf(world.components, fewer), MaskOf(world.components, more));
  }

  /** A query with no clauses matches every registered entity. */
  lemma NoClausesMatchAll<V>(world: World<V>)
    ensures Matching(world.Contents(), MaskOf(world.components, [])) == world.entities.Keys
  {
    MatchingZero(world.Contents());
  }
}
