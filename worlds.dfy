/** The store and its schema builder (src/worlds.rs). */
module Worlds {

  import opened Bits
  import opened Optional
  import opened Entities
  import opened Schema
  import opened Store

  /** The id of a globally addressed component cell (`StaticComponentId`). */
  type StaticId = nat

  /** A shared, mutable component cell (`Rc<RefCell<C>>`): `new Cell(v)` is
   *  `Rc::new(RefCell::new(v))`, and sharing a component is storing the same
   *  reference twice. */
  class Cell<V> {
    var value: V

    constructor (value: V)
      ensures this.value == value
    {
      this.value := value;
    }
  }

  /** The new cells of `add_empty_component_to_entity_group`: `n` cells, each
   *  newly allocated and holding `default`. */
  method NewCells<V>(n: nat, default: V) returns (cells: seq<Cell<V>>)
    ensures |cells| == n
    ensures forall i :: 0 <= i < n ==> fresh(cells[i]) && cells[i].value == default
    ensures forall i, j :: 0 <= i < j < n ==> cells[i] != cells[j]
  {
    cells := [];
    while |cells| < n
      invariant |cells| <= n
      invariant forall i :: 0 <= i < |cells| ==> fresh(cells[i]) && cells[i].value == default
      invariant forall i, j :: 0 <= i < j < |cells| ==> cells[i] != cells[j]
    {
      var cell := new Cell(default);
      cells := cells + [cell];
    }
  }

  /** The `for_each` loop of the group adds: every entity of `group`, in order,
   *  gets bit `b` and its handle from `hs` in column `b`; each step is the
   *  single-entity `Attach`. */
  method AttachAll<H>(t: Tables<H>, b: nat, group: seq<Entity>, hs: seq<H>) returns (r: Tables<H>)
    requires |hs| == |group| && b in t.columns
    requires forall i :: 0 <= i < |group| ==> group[i] in t.entities
    ensures r == AttachEach(t, b, group, hs)
  {
    r := t;
    var i := 0;
    ghost var done, given := [], [];
    while i < |group|
      invariant 0 <= i <= |group|
      invariant |done| == |given| == i
      invariant forall j :: 0 <= j < i ==> done[j] == group[j] && given[j] == hs[j]
      invariant r == AttachEach(t, b, done, given)
    {
      AttachEachSnoc(t, b, done, given, group[i], hs[i]);
      r := Attach(r, b, group[i], hs[i]);
      done, given := done + [group[i]], given + [hs[i]];
      i := i + 1;
    }
    assert done == group && given == hs;
  }

  /** The `for_each` loop of `delete_entity_group_component`: every entity of
   *  `group`, in order, leaves column `b` and loses bit `b`. */
  method DetachAll<H>(t: Tables<H>, b: nat, group: seq<Entity>) returns (r: Tables<H>)
    requires b in t.columns && forall i :: 0 <= i < |group| ==> group[i] in t.entities
    ensures r == DetachEach(t, b, group)
  {
    r := t;
    var i := 0;
    ghost var done := [];
    while i < |group|
      invariant 0 <= i <= |group|
      invariant |done| == i
      invariant forall j :: 0 <= j < i ==> done[j] == group[j]
      invariant r == DetachEach(t, b, done)
    {
      DetachEachSnoc(t, b, done, group[i]);
      r := Detach(r, b, group[i]);
      done := done + [group[i]];
      i := i + 1;
    }
    assert done == group;
  }

  /** The store: the schema fixed by the builder, one column per component bit,
   *  the component cells addressed by static id, one mask per registered entity,
   *  and the entity id counter. */
  class World<V> {
    const components: seq<TypeId>
    var componentColumns: map<nat, map<Entity, Cell<V>>>
    var staticComponents: map<StaticId, Cell<V>>
    var entities: map<Entity, Mask>
    var nextEntityId: nat

    /** The entity table and the columns as one value. */
    function Contents(): Tables<Cell<V>>
      reads this
    {
      Tables(entities, componentColumns)
    }

    /** The store's invariant: no type is registered twice, the tables are
     *  consistent with the schema, and every id in use, registered or in a
     *  column, was handed out by the counter. */
    ghost predicate Valid()
      reads this
    {
      && Distinct(components)
      && Consistent(Contents(), |components|)
      && IdsBelow(Contents(), nextEntityId)
    }

    /** `World::new`: the builder's schema, columns and cells, with no entities
     *  and the counter at zero. */
    constructor (components: seq<TypeId>, componentColumns: map<nat, map<Entity, Cell<V>>>,
                 staticComponents: map<StaticId, Cell<V>>)
      ensures this.components == components && this.componentColumns == componentColumns
      ensures this.staticComponents == staticComponents
      ensures entities == map[] && nextEntityId == 0
      ensures (&& Distinct(components) && (forall b: nat :: b in componentColumns <==> b < |components|)
               && (forall b :: b in componentColumns ==> componentColumns[b] == map[])) ==> Valid()
    {
      this.components := components;
      this.componentColumns := componentColumns;
      this.staticComponents := staticComponents;
      entities := map[];
      nextEntityId := 0;
    }

    /** The bit index of a registered component type. */
    function ComponentIndex(c: TypeId): (b: nat)
      requires c in components
      ensures b < |components| && components[b] == c && c !in components[..b]
    {
      IndexOf(components, c).value
    }

    /** `component_bit_mask::<C>()`: the single bit at the position where `C` was
     *  registered. Unregistered types are a contract violation (the source panics). */
    function ComponentBitMask(c: TypeId): (m: Mask)
      requires c in components
      ensures |m| == 1
      ensures forall i :: i in m ==> i < |components| && components[i] == c && c !in components[..i]
    {
      Bit(ComponentIndex(c))
    }

    /** `add_component_to_entity_builder`: ORs the bit of `c` into the builder's
     *  mask and stores a new cell holding `value` under `e` in the column of `c`;
     *  the entity table is not touched. */
    method AddComponentToEntityBuilder(c: TypeId, value: V, e: Entity, mask: Mask)
      returns (mask': Mask, ghost cell: Cell<V>)
      requires Valid() && c in components
      modifies this
      ensures mask' == Or(mask, ComponentBitMask(c))
      ensures fresh(cell) && cell.value == value
      ensures Contents() == InsertColumn(old(Contents()), ComponentIndex(c), e, cell)
      ensures staticComponents == old(staticComponents) && nextEntityId == old(nextEntityId)
      ensures e !in entities && e.id < nextEntityId ==> Valid()
    {
      var bitMask := ComponentBitMask(c);
      mask' := Or(mask, bitMask);
      var b := ComponentIndex(c);
      var newCell := new Cell(value);
      cell := newCell;
      componentColumns := componentColumns[b := componentColumns[b][e := newCell]];
    }

    /** `add_shared_component_to_entity_builder`: as above, but the given cell
     *  itself is stored. */
    method AddSharedComponentToEntityBuilder(c: TypeId, handle: Cell<V>, e: Entity, mask: Mask)
      returns (mask': Mask)
      requires Valid() && c in components
      modifies this
      ensures mask' == Or(mask, ComponentBitMask(c))
      ensures Contents() == InsertColumn(old(Contents()), ComponentIndex(c), e, handle)
      ensures staticComponents == old(staticComponents) && nextEntityId == old(nextEntityId)
      ensures e !in entities && e.id < nextEntityId ==> Valid()
    {
      var bitMask := ComponentBitMask(c);
      mask' := Or(mask, bitMask);
      var b := ComponentIndex(c);
      componentColumns := componentColumns[b := componentColumns[b][e := handle]];
    }

    /** `add_component_to_entity`: sets the bit of `c` in the mask of the
     *  registered entity `e` and stores a new cell holding `value` under `e` in
     *  the column of `c`. */
    method AddComponentToEntity(c: TypeId, value: V, e: Entity) returns (ghost cell: Cell<V>)
      requires Valid() && c in components && e in entities
      modifies this
      ensures Valid()
      ensures fresh(cell) && cell.value == value
      ensures Contents() == Attach(old(Contents()), ComponentIndex(c), e, cell)
      ensures GetEntityComponent(c, e) == Some(cell)
      ensures staticComponents == old(staticComponents) && nextEntityId == old(nextEntityId)
    {
      ghost var before := Contents();
      var bitMask := ComponentBitMask(c);
      var b := ComponentIndex(c);
      entities := entities[e := Or(entities[e], bitMask)];
      var newCell := new Cell(value);
      cell := newCell;
      componentColumns := componentColumns[b := componentColumns[b][e := newCell]];
      AttachKeeps(before, |components|, b, e, newCell);
    }

    /** `add_empty_component_to_entity`: `add_component_to_entity` with the
     *  type's default value, which the caller supplies. */
    method AddEmptyComponentToEntity(c: TypeId, default: V, e: Entity) returns (ghost cell: Cell<V>)
      requires Valid() && c in components && e in entities
      modifies this
      ensures Valid()
      ensures fresh(cell) && cell.value == default
      ensures Contents() == Attach(old(Contents()), ComponentIndex(c), e, cell)
      ensures GetEntityComponent(c, e) == Some(cell)
      ensures staticComponents == old(staticComponents) && nextEntityId == old(nextEntityId)
    {
      cell := AddComponentToEntity(c, default, e);
    }

    /** `add_shared_component_to_entity`: sets the bit of `c` for `e` and stores
     *  the given cell itself under `e`. */
    method AddSharedComponentToEntity(c: TypeId, handle: Cell<V>, e: Entity)
      requires Valid() && c in components && e in entities
      modifies this
      ensures Valid()
      ensures Contents() == Attach(old(Contents()), ComponentIndex(c), e, handle)
      ensures GetEntityComponent(c, e) == Some(handle)
      ensures staticComponents == old(staticComponents) && nextEntityId == old(nextEntityId)
    {
      ghost var before := Contents();
      var bitMask := ComponentBitMask(c);
      var b := ComponentIndex(c);
      entities := entities[e := Or(entities[e], bitMask)];
      componentColumns := componentColumns[b := componentColumns[b][e := handle]];
      AttachKeeps(before, |components|, b, e, handle);
    }

    /** `add_empty_component_to_entity_group`: each entity of the group, in
     *  order, gets its own new cell holding the default value and the bit of `c`. */
    method AddEmptyComponentToEntityGroup(c: TypeId, default: V, group: seq<Entity>)
      returns (ghost cells: seq<Cell<V>>)
      requires Valid() && c in components
      requires forall i :: 0 <= i < |group| ==> group[i] in entities
      modifies this
      ensures Valid()
      ensures |cells| == |group|
      ensures forall i :: 0 <= i < |cells| ==> fresh(cells[i]) && cells[i].value == default
      ensures forall i, j :: 0 <= i < j < |cells| ==> cells[i] != cells[j]
      ensures Contents() == AttachEach(old(Contents()), ComponentIndex(c), group, cells)
      ensures forall i :: 0 <= i < |group| && group[i] !in group[i + 1..] ==>
                group[i] in componentColumns[ComponentIndex(c)] && componentColumns[ComponentIndex(c)][group[i]] == cells[i]
      ensures staticComponents == old(staticComponents) && nextEntityId == old(nextEntityId)
    {
      var b := ComponentIndex(c);
      var t := Contents();
      var newCells := NewCells(|group|, default);
      var r := AttachAll(t, b, group, newCells);
      cells := newCells;
      componentColumns, entities := r.columns, r.entities;
      assert Contents() == r;
      AttachEachKeeps(t, |components|, nextEntityId, b, group, cells);
      AttachEachHoldsAll(t, b, group, cells);
    }

    /** `add_shared_component_to_entity_group`: each entity of the group, in
     *  order, gets the bit of `c` and the given cell. */
    method AddSharedComponentToEntityGroup(c: TypeId, handle: Cell<V>, group: seq<Entity>)
      returns (ghost handles: seq<Cell<V>>)
      requires Valid() && c in components
      requires forall i :: 0 <= i < |group| ==> group[i] in entities
      modifies this
      ensures Valid()
      ensures |handles| == |group| && forall i :: 0 <= i < |handles| ==> handles[i] == handle
      ensures Contents() == AttachEach(old(Contents()), ComponentIndex(c), group, handles)
      ensures staticComponents == old(staticComponents) && nextEntityId == old(nextEntityId)
    {
      var b := ComponentIndex(c);
      var t := Contents();
      var copies := seq(|group|, _ => handle);
      var r := AttachAll(t, b, group, copies);
      handles := copies;
      componentColumns, entities := r.columns, r.entities;
      assert Contents() == r;
      AttachEachKeeps(t, |components|, nextEntityId, b, group, handles);
    }

    /** `get_entity_component::<C>(e)`: the cell stored for `e` in the column of
     *  `c`, if any. For a registered entity it is present exactly when the bit
     *  of `c` is set in its mask. */
    function GetEntityComponent(c: TypeId, e: Entity): (r: Option<Cell<V>>)
      reads this
      requires Valid() && c in components
      ensures e in entities ==> (r.Some? <==> ComponentBitMask(c) <= entities[e])
      ensures r.Some? <==> e in componentColumns[ComponentIndex(c)]
      ensures r.Some? ==> r.value == componentColumns[ComponentIndex(c)][e]
    {
      var column := componentColumns[ComponentIndex(c)];
      if e in column then Some(column[e]) else None
    }

    /** `get_entity_group_component`: the lookup above for each entity of the
     *  group, in order. */
    function GetEntityGroupComponent(c: TypeId, group: seq<Entity>): (r: seq<Option<Cell<V>>>)
      reads this
      requires Valid() && c in components
      ensures |r| == |group|
      ensures forall i :: 0 <= i < |group| ==> r[i] == GetEntityComponent(c, group[i])
      decreases |group|
    {
      if group == [] then []
      else [GetEntityComponent(c, group[0])] + GetEntityGroupComponent(c, group[1..])
    }

    /** `delete_entity_component`: clears the bit of `c` in the mask of `e` and
     *  drops `e` from the column of `c`, whether or not it was there. */
    method DeleteEntityComponent(c: TypeId, e: Entity)
      requires Valid() && c in components && e in entities
      modifies this
      ensures Valid()
      ensures Contents() == Detach(old(Contents()), ComponentIndex(c), e)
      ensures GetEntityComponent(c, e) == None
      ensures staticComponents == old(staticComponents) && nextEntityId == old(nextEntityId)
    {
      ghost var before := Contents();
      var bitMask := ComponentBitMask(c);
      var b := ComponentIndex(c);
      entities := entities[e := AndNot(entities[e], bitMask)];
      componentColumns := componentColumns[b := componentColumns[b] - {e}];
      DetachKeeps(before, |components|, b, e);
    }

    /** `delete_entity_group_component`: the delete above for each entity of the
     *  group, in order. */
    method DeleteEntityGroupComponent(c: TypeId, group: seq<Entity>)
      requires Valid() && c in components
      requires forall i :: 0 <= i < |group| ==> group[i] in entities
      modifies this
      ensures Valid()
      ensures Contents() == DetachEach(old(Contents()), ComponentIndex(c), group)
      ensures staticComponents == old(staticComponents) && nextEntityId == old(nextEntityId)
    {
      var b := ComponentIndex(c);
      var r := DetachAll(Contents(), b, group);
      componentColumns, entities := r.columns, r.entities;
      assert Contents() == r;
      DetachEachKeeps(old(Contents()), |components|, nextEntityId, b, group);
    }

    /** `add_entity`: records `mask` as the mask of `e`. The store stays valid
     *  when the mask agrees with the columns and the id came from the counter. */
    method AddEntity(e: Entity, mask: Mask)
      requires Valid()
      modifies this
      ensures Contents() == Register(old(Contents()), e, mask)
      ensures staticComponents == old(staticComponents) && nextEntityId == old(nextEntityId)
      ensures (&& e.id < nextEntityId && Below(mask, |components|)
               && (forall b :: b in componentColumns ==> (e in componentColumns[b] <==> b in mask)))
              ==> Valid()
    {
      entities := entities[e := mask];
    }

    /** `get_component_column::<C>()`: the column of a registered type. */
    function GetComponentColumn(c: TypeId): (column: map<Entity, Cell<V>>)
      reads this
      requires Valid() && c in components
      ensures forall e :: e in entities ==> (e in column <==> ComponentBitMask(c) <= entities[e])
    {
      componentColumns[ComponentIndex(c)]
    }

    /** `get_static_component::<C>(id)`: the cell registered under `id`. An id
     *  with no cell is a contract violation (the source panics). */
    function GetStaticComponent(id: StaticId): (r: Cell<V>)
      reads this
      requires id in staticComponents
      ensures r in staticComponents.Values && staticComponents[id] == r
    {
      staticComponents[id]
    }

    /** `set_static_component`: replaces whatever is under `id` by a new cell
     *  holding `value`. */
    method SetStaticComponent(id: StaticId, value: V)
      requires Valid()
      modifies this
      ensures Valid()
      ensures id in staticComponents && fresh(GetStaticComponent(id)) && GetStaticComponent(id).value == value
      ensures staticComponents == old(staticComponents)[id := GetStaticComponent(id)]
      ensures Contents() == old(Contents()) && nextEntityId == old(nextEntityId)
    {
      staticComponents := staticComponents - {id};
      var cell := new Cell(value);
      staticComponents := staticComponents[id := cell];
    }

    /** `set_shared_static_component`: replaces whatever is under `id` by the
     *  given cell. */
    method SetSharedStaticComponent(id: StaticId, handle: Cell<V>)
      requires Valid()
      modifies this
      ensures Valid()
      ensures staticComponents == old(staticComponents)[id := handle]
      ensures GetStaticComponent(id) == handle
      ensures Contents() == old(Contents()) && nextEntityId == old(nextEntityId)
    {
      staticComponents := staticComponents - {id};
      staticComponents := staticComponents[id := handle];
    }

    /** `get_entities(filter)`: the registered entities whose mask passes the
     *  filter, each once, in the unspecified order of the entity table. */
    method GetEntities(filter: Mask) returns (r: seq<Entity>)
      ensures Distinct(r)
      ensures forall e :: e in r <==> e in Matching(Contents(), filter)
    {
      r := [];
      var rest := entities.Keys;
      while rest != {}
        invariant rest <= entities.Keys
        invariant Distinct(r)
        invariant forall e :: e in r <==> e in entities && e !in rest && Covers(entities[e], filter)
        decreases rest
      {
        var e :| e in rest;
        if Covers(entities[e], filter) {
          r := r + [e];
        }
        rest := rest - {e};
      }
    }

    /** `delete_entity(e)`: drops `e` from every column whose bit is set in its
     *  mask, then drops its mask. Deleting an unregistered entity is a contract
     *  violation (the source panics). */
    method DeleteEntity(e: Entity)
      requires Valid() && e in entities
      modifies this
      ensures Valid()
      ensures Contents() == Remove(old(Contents()), e)
      ensures e !in entities && forall b :: b in componentColumns ==> e !in componentColumns[b]
      ensures staticComponents == old(staticComponents) && nextEntityId == old(nextEntityId)
    {
      ghost var before := Contents();
      ghost var target := Remove(before, e).columns;
      var entityMask := entities[e];
      var rest := componentColumns.Keys;
      while rest != {}
        invariant rest <= componentColumns.Keys == before.columns.Keys
        invariant entities == before.entities
        invariant staticComponents == old(staticComponents) && nextEntityId == old(nextEntityId)
        invariant forall b :: b in componentColumns ==>
                    componentColumns[b] == if b in rest then before.columns[b] else target[b]
        decreases rest
      {
        var b :| b in rest;
        if Covers(entityMask, Bit(b)) {
          componentColumns := componentColumns[b := componentColumns[b] - {e}];
        }
        rest := rest - {b};
      }
      entities := entities - {e};
      assert componentColumns == target;
      RemoveComplete(before, |components|, e);
    }
  }

  /** The bit of the type registered `i`-th is bit `i`. */
  lemma BitIsRegistrationIndex<V>(w: World<V>, i: nat)
    requires w.Valid() && i < |w.components|
    ensures w.ComponentIndex(w.components[i]) == i
    ensures w.ComponentBitMask(w.components[i]) == Bit(i)
  {
    IndexOfRegistered(w.components, i);
  }

  /** The schema builder: component types in registration order with their count,
   *  one empty column per registered type, and the static component cells. */
  class WorldBuilder<V> {
    var components: seq<TypeId>
    var componentCount: nat
    var componentColumns: map<nat, map<Entity, Cell<V>>>
    var staticComponents: map<StaticId, Cell<V>>

    /** The builder's invariant: the count is the number of distinct registered
     *  types, and type `i` owns the empty column `i`. */
    ghost predicate Valid()
      reads this
    {
      && |components| == componentCount
      && Distinct(components)
      && (forall b: nat :: b in componentColumns <==> b < componentCount)
      && (forall b :: b in componentColumns ==> componentColumns[b] == map[])
    }

    /** `WorldBuilder::new` (reached through `World::builder`): nothing registered. */
    constructor ()
      ensures Valid()
      ensures components == [] && componentCount == 0
      ensures componentColumns == map[] && staticComponents == map[]
    {
      components := [];
      componentCount := 0;
      componentColumns := map[];
      staticComponents := map[];
    }

    /** `with_component::<C>()`: an unseen type is appended at index
     *  `component_count`, gets a new empty column under that bit, and the count
     *  goes up by one; a type already registered leaves the builder unchanged. */
    method WithComponent(c: TypeId)
      requires Valid()
      modifies this
      ensures Valid()
      ensures c in components && IndexOf(components, c) == Some(if c in old(components) then IndexOf(old(components), c).value else old(componentCount))
      ensures c in old(components) ==>
                components == old(components) && componentCount == old(componentCount)
                && componentColumns == old(componentColumns)
      ensures c !in old(components) ==>
                components == old(components) + [c] && componentCount == old(componentCount) + 1
                && componentColumns == old(componentColumns)[old(componentCount) := map[]]
      ensures forall d :: d in old(components) ==> IndexOf(components, d) == IndexOf(old(components), d)
      ensures staticComponents == old(staticComponents)
    {
      if c !in components {
        IndexOfAfterRegister(components, c, c);
        forall d | d in components
          ensures IndexOf(components + [c], d) == IndexOf(components, d)
        {
          IndexOfAfterRegister(components, c, d);
        }
        components := components + [c];
        componentColumns := componentColumns[componentCount := map[]];
        componentCount := componentCount + 1;
      }
    }

    /** `with_empty_static_component(id)`: a new cell holding the type's default
     *  value, which the caller supplies, unless `id` is already taken. */
    method WithEmptyStaticComponent(id: StaticId, default: V)
      requires Valid()
      modifies this
      ensures Valid()
      ensures id in old(staticComponents) ==> staticComponents == old(staticComponents)
      ensures id !in old(staticComponents) ==>
                id in staticComponents && fresh(staticComponents[id]) && staticComponents[id].value == default
                && staticComponents == old(staticComponents)[id := staticComponents[id]]
      ensures components == old(components) && componentCount == old(componentCount)
      ensures componentColumns == old(componentColumns)
    {
      if id !in staticComponents {
        var cell := new Cell(default);
        staticComponents := staticComponents[id := cell];
      }
    }

    /** `with_static_component(id, value)`: a new cell holding `value`, unless
     *  `id` is already taken. */
    method WithStaticComponent(id: StaticId, value: V)
      requires Valid()
      modifies this
      ensures Valid()
      ensures id in old(staticComponents) ==> staticComponents == old(staticComponents)
      ensures id !in old(staticComponents) ==>
                id in staticComponents && fresh(staticComponents[id]) && staticComponents[id].value == value
                && staticComponents == old(staticComponents)[id := staticComponents[id]]
      ensures components == old(components) && componentCount == old(componentCount)
      ensures componentColumns == old(componentColumns)
    {
      if id !in staticComponents {
        var cell := new Cell(value);
        staticComponents := staticComponents[id := cell];
      }
    }

    /** `with_shared_static_component(id, &cell)`: the given cell itself, unless
     *  `id` is already taken. */
    method WithSharedStaticComponent(id: StaticId, handle: Cell<V>)
      requires Valid()
      modifies this
      ensures Valid()
      ensures staticComponents == if id in old(staticComponents) then old(staticComponents)
                                  else old(staticComponents)[id := handle]
      ensures components == old(components) && componentCount == old(componentCount)
      ensures componentColumns == old(componentColumns)
    {
      if id !in staticComponents {
        staticComponents := staticComponents[id := handle];
      }
    }

    /** `build()`: a valid store over this schema with no entities and the
     *  counter at zero. */
    method Build() returns (w: World<V>)
      requires Valid()
      ensures fresh(w) && w.Valid()
      ensures w.components == components && w.componentColumns == componentColumns
      ensures w.staticComponents == staticComponents
      ensures w.entities == map[] && w.nextEntityId == 0
    {
      w := new World(components, componentColumns, staticComponents);
    }
  }
}
