# rust-ecs bitmask store, modelled in Dafny

This project models the bookkeeping core of a small entity-component store
(ECS): the files `src/worlds.rs`, `src/entities.rs` and `src/queries.rs`.

- **Schema.** A `WorldBuilder` registers component types in order. The type
  registered `i`-th owns bit `i` and an empty column keyed by that bit.
- **World.** `build()` turns the builder into a `World`. The world has one
  membership mask per registered entity, one column per component bit (a map
  from entity to a shared cell `Rc<RefCell<C>>`), the static component cells
  keyed by id, and an entity id counter.
- **Entities.** An `EntityBuilder` gets a fresh id from the counter. It puts
  cells into columns and ORs their bits into a pending mask. `build()`
  registers the entity under that mask.
- **Queries.** A `QueryBuilder` ORs the bits of its required types into a
  mask. `build()` snapshots the registered entities whose mask passes
  `mask & filter == filter`. The resulting `Query` maps its snapshot to the
  cells of a column.

Modules:

- `Bits`: masks as sets of bit positions.
- `Entities`: the entity identity.
- `Schema`: registration order, and the mask a chain of clauses produces.
- `Store`: the entity table and the columns as a value (`Tables`), and the
  effect of each store operation as a pure function on it.
- `Worlds`: the `World` and `WorldBuilder` classes.
- `EntityBuilders` and `Queries`: the two builders and the query.

How the model relates to the source:

- **Imperative operations.** Each operation that updates the world is a method
  on `World`. Its `ensures` ties the new `Contents()` to the matching `Store`
  function of the old contents. The lemmas about those functions carry the
  properties: the column/mask invariant is kept, attach then detach is a round
  trip, group operations are the single-entity one applied to each member, and
  deletion is complete. The `Store` functions `Matching`, `Attach`, `Detach`,
  `InsertColumn`, `Register` and `Remove` are these specification functions;
  each names the source operation it specifies, and the rows below for the
  World methods and the `Store` lemmas state what they mean.
- **`get_entities` order.** `get_entities` returns entities in the iteration
  order of a hash map. It is modelled as a method that picks entities in an
  unspecified order. It returns each matching entity exactly once, and the set
  it returns is `Store.Matching`.
- **The module cycle.** In the source, `World::new_entity` and
  `World::new_query` create builders from the other two files. A Dafny module
  cannot import a module that imports it, so these two are the free methods
  `EntityBuilders.NewEntity(world)` and `Queries.NewQuery(world)`.
- **Panics.** A panic (`expect`, `unwrap`) is a contract violation. It is
  modelled as a precondition: the type must be registered, the entity must be
  registered, and for `get_components` every snapshot entity must be in the
  column.
- **Cells.** A component cell is an object of class `Cell`.
  `Rc::new(RefCell::new(v))` is `new Cell(v)`, a fresh reference. Sharing a
  cell or cloning an `Rc` stores the same reference.

## Model

| member | source | states |
|---|---|---|
| Bits.Bit | src/worlds.rs:59-62 | `B::bit_mask(i)` has exactly one bit set, at position `i` |
| Bits.CoversIsSubset | src/worlds.rs:276-282 | the filter test `mask & filter == filter` holds exactly when every bit of the filter is set in the mask |
| Bits.CoversBit | src/worlds.rs:285-297 | with a single-bit column key, the filter of `delete_entity` tests exactly that bit of the entity's mask |
| Entities.EntityEquality | src/entities.rs:19-20 | two entities are equal exactly when their ids are equal |
| Schema.IndexOf | src/worlds.rs:55-65 | the search finds nothing exactly when the type is unregistered; otherwise it returns the first position holding the type |
| Schema.IndexOfRegistered | src/worlds.rs:353-364 | with no type registered twice, the type at position `i` is found at `i` |
| Schema.IndexOfAfterRegister | src/worlds.rs:353-364 | appending an unseen type gives it the next index and keeps every earlier type's index |
| Schema.MaskOfIsIndexSet | src/queries.rs:55-60 | a chain of `with_component` clauses sets exactly the registration indices of its types |
| Schema.MaskOfOrderIrrelevant | src/queries.rs:55-60 | reordering or repeating clauses gives the same mask |
| Schema.MaskOfMonotone | src/queries.rs:55-60 | more clauses only add bits |
| Schema.MaskOfBounded | src/entities.rs:44-57 | a mask built from registered types only uses the schema's bits |
| Schema.MaskOfMember | src/entities.rs:72-77 | a registered type's bit is in a chain's mask exactly when the type is one of the clauses |
| Schema.MaskOfAppend | src/entities.rs:44-49 | one more clause ORs in its type's bit |
| Store.AttachEach | src/worlds.rs:124-142 | the group attach registers no new entity and creates no new column |
| Store.DetachEach | src/worlds.rs:218-236 | the group delete removes no entity and no column |
| Store.MatchingExactly | src/worlds.rs:276-282 | an entity is returned exactly when it is registered and its mask contains the filter |
| Store.MatchingZero | src/worlds.rs:276-282 | the all-zero filter returns every registered entity |
| Store.MatchingNarrows | src/worlds.rs:276-282 | a filter with more bits returns a subset |
| Store.AttachKeeps | src/worlds.rs:94-106 | attaching keeps the mask/column invariant and the id bound, and the entity then matches the bit |
| Store.DetachKeeps | src/worlds.rs:206-215 | deleting a component keeps the invariant and the id bound, and the entity then fails the bit |
| Store.DetachUndoesAttach | src/worlds.rs:206-215 | attaching a component the entity lacked and then deleting it restores both tables exactly |
| Store.RemoveComplete | src/worlds.rs:285-297 | removing an entity keeps the invariant and the id bound, and leaves the entity in no column and unregistered |
| Store.AttachEachEffect | src/worlds.rs:124-142 | after a group attach, each member has the bit and a cell in the column; every other entity and every other column is unchanged |
| Store.AttachEachHolds | src/worlds.rs:132-141 | a member with no later occurrence in the group holds, in the column, exactly the handle inserted for it |
| Store.AttachEachHoldsAll | src/worlds.rs:132-141 | the same, for every member with no later occurrence at once |
| Store.AttachEachDistinctCells | src/worlds.rs:132-141 | distinct members given distinct handles hold different handles in the column: no two share a cell |
| Store.AttachEachKeeps | src/worlds.rs:160-178 | a group attach keeps the invariant and the id bound |
| Store.AttachEachSnoc | src/worlds.rs:132-141 | extending the group by one entity adds exactly one single-entity attach at the end |
| Store.DetachEachEffect | src/worlds.rs:218-236 | after a group delete, no member has the bit or a cell in the column; every other entity and every other column is unchanged |
| Store.DetachEachKeeps | src/worlds.rs:218-236 | a group delete keeps the invariant and the id bound |
| Store.DetachEachSnoc | src/worlds.rs:226-235 | extending the group by one entity adds exactly one single-entity delete at the end |
| Worlds.Cell.constructor | src/worlds.rs:77 | a new cell holds the given value |
| Worlds.NewCells | src/worlds.rs:136 | one newly allocated cell per group member, each holding the default value, no two members sharing a cell |
| Worlds.AttachAll | src/worlds.rs:132-141 | the loop, with each member's handle taken in order, is the group attach of those handles |
| Worlds.DetachAll | src/worlds.rs:226-235 | the loop is the group delete |
| Worlds.World.constructor | src/worlds.rs:41-47 | the new world has no entities and the counter at zero, and is valid over a builder's schema and empty columns |
| Worlds.World.ComponentIndex | src/worlds.rs:55-65 | the index of a registered type is its first registration position |
| Worlds.World.ComponentBitMask | src/worlds.rs:55-65 | the mask of a registered type is a single bit, at the type's registration index |
| Worlds.BitIsRegistrationIndex | src/worlds.rs:55-65 | in a valid world, the `i`-th registered type has index `i` and bit `i` |
| Worlds.World.AddComponentToEntityBuilder | src/worlds.rs:68-78 | ORs the type's bit into the caller's mask and stores a fresh cell in the column; the entity table is not touched |
| Worlds.World.AddSharedComponentToEntityBuilder | src/worlds.rs:81-91 | as above, with the given handle instead of a fresh cell |
| Worlds.World.AddComponentToEntity | src/worlds.rs:94-106 | sets only that bit of that entity and stores a fresh cell in that column; the lookup then returns the cell; the world stays valid |
| Worlds.World.AddEmptyComponentToEntity | src/worlds.rs:109-121 | as above, with a fresh cell holding the default value |
| Worlds.World.AddEmptyComponentToEntityGroup | src/worlds.rs:124-142 | the group attach of fresh default cells, a different cell for each member, and each member without a later occurrence holds its own cell in the column; the world stays valid |
| Worlds.World.AddSharedComponentToEntity | src/worlds.rs:145-157 | sets only that bit and stores the given handle; the lookup then returns that handle |
| Worlds.World.AddSharedComponentToEntityGroup | src/worlds.rs:160-178 | the group attach of the one handle; the world stays valid |
| Worlds.World.GetEntityComponent | src/worlds.rs:181-189 | for a registered entity, a cell is found exactly when the type's bit is set in its mask, and it is the column's entry |
| Worlds.World.GetEntityGroupComponent | src/worlds.rs:192-203 | one lookup result per group member, in group order |
| Worlds.World.DeleteEntityComponent | src/worlds.rs:206-215 | clears only that bit and drops the entity from that column; the lookup then finds nothing |
| Worlds.World.DeleteEntityGroupComponent | src/worlds.rs:218-236 | the group delete; the world stays valid |
| Worlds.World.AddEntity | src/worlds.rs:239-241 | records the mask; the world stays valid when the mask matches the columns and the id came from the counter |
| Worlds.World.GetComponentColumn | src/worlds.rs:244-251 | a registered entity is in the column exactly when the type's bit is set in its mask |
| Worlds.World.GetStaticComponent | src/worlds.rs:254-261 | the cell registered under the id |
| Worlds.World.SetStaticComponent | src/worlds.rs:264-267 | the id now maps to a fresh cell holding the value; every other id is unchanged |
| Worlds.World.SetSharedStaticComponent | src/worlds.rs:270-273 | the id now maps to the given handle; every other id is unchanged |
| Worlds.World.GetEntities | src/worlds.rs:276-282 | returns each registered entity whose mask passes the filter, exactly once, and no other entity |
| Worlds.World.DeleteEntity | src/worlds.rs:285-297 | the removal; afterwards the entity is unregistered and in no column, and the world stays valid |
| Worlds.WorldBuilder.constructor | src/worlds.rs:313-320 | nothing registered, and the builder's invariant holds |
| Worlds.WorldBuilder.WithComponent | src/worlds.rs:353-364 | an unseen type is appended with the next index and a new empty column; a registered type leaves the builder as it was; earlier indices are kept |
| Worlds.WorldBuilder.WithEmptyStaticComponent | src/worlds.rs:323-330 | a free id gets a fresh cell holding the default value; a taken id is left as it was |
| Worlds.WorldBuilder.WithStaticComponent | src/worlds.rs:333-340 | a free id gets a fresh cell holding the value; a taken id is left as it was |
| Worlds.WorldBuilder.WithSharedStaticComponent | src/worlds.rs:343-350 | a free id gets the given handle; a taken id is left as it was |
| Worlds.WorldBuilder.Build | src/worlds.rs:367-369 | a valid world over the builder's schema, with no entities and the counter at zero |
| EntityBuilders.EntityBuilder.constructor | src/entities.rs:38-41 | the entity with the given id and the all-zero mask |
| EntityBuilders.EntityBuilder.WithComponent | src/entities.rs:44-49 | ORs the type's bit into the pending mask and stores a fresh cell in the column; the entity table is not touched |
| EntityBuilders.EntityBuilder.WithSharedComponent | src/entities.rs:52-57 | the same, with the given handle |
| EntityBuilders.EntityBuilder.Build | src/entities.rs:72-77 | registers and returns the builder's entity with the OR of the attached types' bits; it has a component of a type exactly when that type was attached |
| EntityBuilders.NewEntity | src/worlds.rs:300-303 | the builder's id is the counter's old value, which is in use nowhere; the counter goes up by one |
| EntityBuilders.PendingEntityInvisible | src/entities.rs:72-77 | before `build()`, the entity is returned by no `get_entities` filter |
| Queries.QueryBuilder.constructor | src/worlds.rs:306-308 | a builder with no clauses and the all-zero mask |
| Queries.QueryBuilder.WithComponent | src/queries.rs:55-60 | ORs the type's bit into the mask; the mask only gains bits |
| Queries.QueryBuilder.Build | src/queries.rs:71-79 | the snapshot holds each registered entity whose mask contains the required mask, once each; in a valid world each is in the column of every required type |
| Queries.Query.GetEntities | src/queries.rs:49 | the snapshot, unchanged |
| Queries.Query.GetComponents | src/queries.rs:36-46 | one cell per snapshot entity, in snapshot order: the entity's lookup result in the column |
| Queries.NewQuery | src/worlds.rs:306-308 | a fresh query builder over the world with no clauses |
| Queries.MoreClausesFewerEntities | src/queries.rs:71-79 | a query whose clauses include another's matches a subset of the other's entities |
| Queries.NoClausesMatchAll | src/queries.rs:71-79 | a query with no clauses matches every registered entity |

## Left out

- Flags: `with_flag` in src/entities.rs and src/queries.rs calls into world
  operations that src/worlds.rs does not define. Those files come from another
  revision, so flag masks are not modelled.
- Mask width: the bit-field type has a fixed width, and `with_component`
  registers types without checking that a bit is left. Masks here are
  unbounded sets of positions, so the model has no overflow to show.
- `next_entity_id` is a `usize` that is incremented without a check. The
  model's counter is unbounded, so wrap-around and the id reuse it would cause
  are not modelled.
- Type erasure: each column is a boxed `dyn ComponentColumn`. The typed
  accesses downcast it to a concrete map; `delete_entity_component` and
  `delete_entity` call `remove_entity` on the trait object without a downcast.
  Here one value type `V` stands for every component type, and component and
  static types are plain numbers (`TypeId`, `StaticId`), so a downcast cannot
  fail. The `Failed to downcast` panics of src/worlds.rs (for example lines 76,
  104 and 187) are not modelled.
- `Rc`/`RefCell`: reference counts, borrow checks and the dropping of cells are
  not modelled. Only a cell's identity and its value are.
- Borrow lifetimes: the source's builders borrow the world exclusively (entity
  builder) or shared (query builder). In the model, nothing stops a world from
  changing during a builder's life. A query is a plain snapshot; a world that
  changes later does not change it.
- Partial effects before a panic: in the source, a group operation over a slice
  with an unregistered entity may update the entities before it and then
  panic. The two group adds also insert the unregistered entity into the
  column before the lookup of its mask panics. The model requires every member
  to be registered.
- Worlds.World.AddEmptyComponentToEntityGroup: the source creates each cell
  inside its loop; the model first creates one new cell per member
  (`NewCells`) and then runs the loop over them (`AttachAll`). The
  interleaving of allocation and insertion is not observable.
- Default values: `C::default()` is supplied by the caller as the parameter
  `default`.
- `QueryBuilder::new`: its body is not part of this model. The query builder
  constructor starts from the all-zero mask and no clauses.
- `println!` on duplicate registration in `WorldBuilder`: the registration
  itself is skipped in the model exactly as in the source; the message is not
  modelled.
- Hash map iteration order: `get_entities` returns its results in an
  unspecified order, and `delete_entity` visits columns in an unspecified
  order. Neither order is modelled.
- Abandoned builders: an entity builder dropped without `build()` leaves its
  cells in the columns under an unregistered id. The model allows this. The
  store's invariant constrains only registered entities, and the id bound
  covers every column entry, so such a stale id is never handed out again.
- src/lib.rs and the `World::builder` wrapper are module wiring, with nothing
  to model.
- Worlds.World.GetEntityComponent, Worlds.World.GetComponentColumn and
  Queries.Query.GetComponents require a valid world; the source asks nothing beyond a registered type, and the other
  operations keep the world valid.
