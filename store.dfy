/** The two tables of the store as values, and the effect of each store operation
 *  on them (src/worlds.rs). The `World` class is specified by these functions. */
module Store {

  import opened Bits
  import opened Entities

  /** The membership mask of every registered entity (`entities`), and one column
   *  per component bit from entity to stored handle (`component_columns`). */
  datatype Tables<H> = Tables(entities: map<Entity, Mask>, columns: map<nat, map<Entity, H>>)

  /** The store's invariant for a schema of `n` components: one column per bit
   *  below `n`, masks use only those bits, and a registered entity is in column
   *  `b` exactly when bit `b` of its mask is set. */
  ghost predicate Consistent<H>(t: Tables<H>, n: nat)
  {
    && (forall b: nat :: b in t.columns <==> b < n)
    && (forall e :: e in t.entities ==> Below(t.entities[e], n))
    && (forall e, b :: e in t.entities && b in t.columns ==> (e in t.columns[b] <==> b in t.entities[e]))
  }

  /** Every id in use, registered or stored in a column, is below `next`. */
  ghost predicate IdsBelow<H>(t: Tables<H>, next: nat)
  {
    && (forall e :: e in t.entities ==> e.id < next)
    && (forall b, e :: b in t.columns && e in t.columns[b] ==> e.id < next)
  }

  /** The query primitive `get_entities`: the registered entities whose mask
   *  passes `mask & filter == filter`. */
  function Matching<H>(t: Tables<H>, filter: Mask): (r: set<Entity>)
  {
    set e | e in t.entities && Covers(t.entities[e], filter)
  }

  /** `add_*_component_to_entity`: set bit `b` of `e` and store `h` under `e` in column `b`. */
  function Attach<H>(t: Tables<H>, b: nat, e: Entity, h: H): (r: Tables<H>)
    requires e in t.entities && b in t.columns
  {
    Tables(t.entities[e := Or(t.entities[e], Bit(b))], t.columns[b := t.columns[b][e := h]])
  }

  /** `delete_entity_component`: clear bit `b` of `e` and drop `e` from column `b`
   *  (nothing to drop is fine). */
  function Detach<H>(t: Tables<H>, b: nat, e: Entity): (r: Tables<H>)
    requires e in t.entities && b in t.columns
  {
    Tables(t.entities[e := AndNot(t.entities[e], Bit(b))], t.columns[b := t.columns[b] - {e}])
  }

  /** `add_*_component_to_entity_builder`: store `h` under `e` in column `b`;
   *  the entity table is not touched. */
  function InsertColumn<H>(t: Tables<H>, b: nat, e: Entity, h: H): (r: Tables<H>)
    requires b in t.columns
  {
    Tables(t.entities, t.columns[b := t.columns[b][e := h]])
  }

  /** `add_entity`: record `m` as the mask of `e`. */
  function Register<H>(t: Tables<H>, e: Entity, m: Mask): (r: Tables<H>)
  {
    Tables(t.entities[e := m], t.columns)
  }

  /** `delete_entity`: drop `e` from every column whose bit its mask covers, then
   *  drop its mask. */
  function Remove<H>(t: Tables<H>, e: Entity): (r: Tables<H>)
    requires e in t.entities
  {
    Tables(t.entities - {e},
           map b | b in t.columns :: if Covers(t.entities[e], Bit(b)) then t.columns[b] - {e} else t.columns[b])
  }

  /** The group attach: `Attach` for each entity of `group` in turn, the i-th
   *  with handle `hs[i]`. */
  function AttachEach<H>(t: Tables<H>, b: nat, group: seq<Entity>, hs: seq<H>): (r: Tables<H>)
    requires |hs| == |group| && b in t.columns
    requires forall i :: 0 <= i < |group| ==> group[i] in t.entities
    ensures (forall e :: e in r.entities <==> e in t.entities) && (forall k :: k in r.columns <==> k in t.columns)
    decreases |group|
  {
    if group == [] then t
    else
      var k := |group| - 1;
      Attach(AttachEach(t, b, group[..k], hs[..k]), b, group[k], hs[k])
  }

  /** The group delete: `Detach` for each entity of `group` in turn. */
  function DetachEach<H>(t: Tables<H>, b: nat, group: seq<Entity>): (r: Tables<H>)
    requires b in t.columns
    requires forall i :: 0 <= i < |group| ==> group[i] in t.entities
    ensures (forall e :: e in r.entities <==> e in t.entities) && (forall k :: k in r.columns <==> k in t.columns)
    decreases |group|
  {
    if group == [] then t
    else
      var k := |group| - 1;
      Detach(DetachEach(t, b, group[..k]), b, group[k])
  }

  // ----- the query primitive -----

  /** An entity matches exactly when it is registered and has every filter bit. */
  lemma MatchingExactly<H>(t: Tables<H>, filter: Mask, e: Entity)
    ensures e in Matching(t, filter) <==> e in t.entities && filter <= t.entities[e]
  {
    if e in t.entities {
      CoversIsSubset(t.entities[e], filter);
    }
  }

  /** The zero filter returns every registered entity. */
  lemma MatchingZero<H>(t: Tables<H>)
    ensures Matching(t, {}) == t.entities.Keys
  {
    forall e | e in t.entities
      ensures e in Matching(t, {})
    {
      MatchingExactly(t, {}, e);
    }
  }

  /** A filter with more bits returns a subset. */
  lemma MatchingNarrows<H>(t: Tables<H>, f: Mask, g: Mask)
    requires f <= g
    ensures Matching(t, g) <= Matching(t, f)
  {
    forall e | e in Matching(t, g)
      ensures e in Matching(t, f)
    {
      MatchingExactly(t, g, e);
      MatchingExactly(t, f, e);
    }
  }

  // ----- single-entity attach and detach -----

  /** Attaching keeps the invariant, and the entity then passes the filter of
   *  that one component. */
  lemma AttachKeeps<H>(t: Tables<H>, n: nat, b: nat, e: Entity, h: H)
    requires Consistent(t, n) && e in t.entities && b in t.columns
    ensures Consistent(Attach(t, b, e, h), n)
    ensures forall next :: IdsBelow(t, next) ==> IdsBelow(Attach(t, b, e, h), next)
    ensures e in Matching(Attach(t, b, e, h), Bit(b))
  {
    MatchingExactly(Attach(t, b, e, h), Bit(b), e);
  }

  /** Detaching keeps the invariant, and the entity then fails the filter of
   *  that component. */
  lemma DetachKeeps<H>(t: Tables<H>, n: nat, b: nat, e: Entity)
    requires Consistent(t, n) && e in t.entities && b in t.columns
    ensures Consistent(Detach(t, b, e), n)
    ensures forall next :: IdsBelow(t, next) ==> IdsBelow(Detach(t, b, e), next)
    ensures e !in Matching(Detach(t, b, e), Bit(b))
  {
    MatchingExactly(Detach(t, b, e), Bit(b), e);
  }

  /** Attaching and then deleting a component the entity did not have restores
   *  both tables exactly. */
  lemma DetachUndoesAttach<H>(t: Tables<H>, n: nat, b: nat, e: Entity, h: H)
    requires Consistent(t, n) && e in t.entities && b in t.columns
    requires b !in t.entities[e]
    ensures Detach(Attach(t, b, e, h), b, e) == t
  {
    var r := Detach(Attach(t, b, e, h), b, e);
    assert e !in t.columns[b];
    assert r.entities[e] == t.entities[e];
    assert r.entities == t.entities;
    assert r.columns[b] == t.columns[b];
    assert r.columns == t.columns;
  }

  // ----- deletion -----

  /** Deletion is complete: the entity ends up in no column and in no query
   *  result, the invariant is kept and no other entity is touched. */
  lemma RemoveComplete<H>(t: Tables<H>, n: nat, e: Entity)
    requires Consistent(t, n) && e in t.entities
    ensures Consistent(Remove(t, e), n)
    ensures forall next :: IdsBelow(t, next) ==> IdsBelow(Remove(t, e), next)
    ensures e !in Remove(t, e).entities
    ensures forall b :: b in Remove(t, e).columns ==> e !in Remove(t, e).columns[b]
    ensures forall f :: e !in Matching(Remove(t, e), f)
    ensures forall d :: d in t.entities && d != e ==> d in Remove(t, e).entities && Remove(t, e).entities[d] == t.entities[d]
    ensures forall b, d :: b in t.columns && d != e ==>
              (d in Remove(t, e).columns[b] <==> d in t.columns[b])
  {
    var r := Remove(t, e);
    forall b | b in r.columns
      ensures e !in r.columns[b]
    {
      CoversBit(t.entities[e], b);
    }
  }

  // ----- group attach and detach -----

  /** The group attach applies the single-entity effect to every entity of the
   *  group, stores one of the given handles for it, and leaves every entity
   *  outside the group and every other column as it was. */
  lemma {:induction false} AttachEachEffect<H>(t: Tables<H>, b: nat, group: seq<Entity>, hs: seq<H>)
    requires |hs| == |group| && b in t.columns
    requires forall i :: 0 <= i < |group| ==> group[i] in t.entities
    ensures forall e :: e in group ==>
              AttachEach(t, b, group, hs).entities[e] == Or(t.entities[e], Bit(b))
              && e in AttachEach(t, b, group, hs).columns[b]
              && AttachEach(t, b, group, hs).columns[b][e] in hs
    ensures forall e :: e in t.entities && e !in group ==>
              AttachEach(t, b, group, hs).entities[e] == t.entities[e]
    ensures forall e :: e !in group ==>
              (e in AttachEach(t, b, group, hs).columns[b] <==> e in t.columns[b])
              && (e in t.columns[b] ==> AttachEach(t, b, group, hs).columns[b][e] == t.columns[b][e])
    ensures forall k :: k in t.columns && k != b ==> AttachEach(t, b, group, hs).columns[k] == t.columns[k]
    decreases |group|
  {
    if group != [] {
      var k := |group| - 1;
      var g, h := group[..k], hs[..k];
      assert forall e :: e in group <==> e in g || e == group[k] by {
        assert group == g + [group[k]];
      }
      AttachEachEffect(t, b, g, h);
    }
  }

  /** A member of the group holds the handle given for its last occurrence:
   *  with no later occurrence, `group[i]` holds `hs[i]`. */
  lemma {:induction false} AttachEachHolds<H>(t: Tables<H>, b: nat, group: seq<Entity>, hs: seq<H>, i: nat)
    requires |hs| == |group| && b in t.columns
    requires forall j :: 0 <= j < |group| ==> group[j] in t.entities
    requires i < |group| && group[i] !in group[i + 1..]
    ensures group[i] in AttachEach(t, b, group, hs).columns[b]
    ensures AttachEach(t, b, group, hs).columns[b][group[i]] == hs[i]
    decreases |group|
  {
    var k := |group| - 1;
    if i < k {
      assert group[k] == group[i + 1..][k - i - 1];
      assert group[..k][i + 1..] == group[i + 1..k];
      AttachEachHolds(t, b, group[..k], hs[..k], i);
    }
  }

  /** `AttachEachHolds` for every member at once. */
  lemma AttachEachHoldsAll<H>(t: Tables<H>, b: nat, group: seq<Entity>, hs: seq<H>)
    requires |hs| == |group| && b in t.columns
    requires forall j :: 0 <= j < |group| ==> group[j] in t.entities
    ensures forall i :: 0 <= i < |group| && group[i] !in group[i + 1..] ==>
              group[i] in AttachEach(t, b, group, hs).columns[b]
              && AttachEach(t, b, group, hs).columns[b][group[i]] == hs[i]
  {
    forall i | 0 <= i < |group| && group[i] !in group[i + 1..]
      ensures group[i] in AttachEach(t, b, group, hs).columns[b]
      ensures AttachEach(t, b, group, hs).columns[b][group[i]] == hs[i]
    {
      AttachEachHolds(t, b, group, hs, i);
    }
  }

  /** Distinct members given distinct handles hold distinct handles in the
   *  column: no two of them share a cell. */
  lemma AttachEachDistinctCells<H>(t: Tables<H>, b: nat, group: seq<Entity>, hs: seq<H>, i: nat, j: nat)
    requires |hs| == |group| && b in t.columns
    requires forall k :: 0 <= k < |group| ==> group[k] in t.entities
    requires forall k, l :: 0 <= k < l < |group| ==> group[k] != group[l]
    requires forall k, l :: 0 <= k < l < |hs| ==> hs[k] != hs[l]
    requires i < j < |group|
    ensures group[i] in AttachEach(t, b, group, hs).columns[b] && group[j] in AttachEach(t, b, group, hs).columns[b]
    ensures AttachEach(t, b, group, hs).columns[b][group[i]] != AttachEach(t, b, group, hs).columns[b][group[j]]
  {
    assert group[i] !in group[i + 1..] by {
      forall l | i + 1 <= l < |group| ensures group[l] != group[i] { }
    }
    assert group[j] !in group[j + 1..] by {
      forall l | j + 1 <= l < |group| ensures group[l] != group[j] { }
    }
    AttachEachHolds(t, b, group, hs, i);
    AttachEachHolds(t, b, group, hs, j);
  }

  /** The group attach keeps the invariant and the id bound. */
  lemma {:induction false} AttachEachKeeps<H>(t: Tables<H>, n: nat, next: nat, b: nat, group: seq<Entity>, hs: seq<H>)
    requires Consistent(t, n) && IdsBelow(t, next)
    requires |hs| == |group| && b in t.columns
    requires forall i :: 0 <= i < |group| ==> group[i] in t.entities
    ensures Consistent(AttachEach(t, b, group, hs), n) && IdsBelow(AttachEach(t, b, group, hs), next)
    decreases |group|
  {
    if group != [] {
      var k := |group| - 1;
      AttachEachKeeps(t, n, next, b, group[..k], hs[..k]);
      AttachKeeps(AttachEach(t, b, group[..k], hs[..k]), n, b, group[k], hs[k]);
    }
  }

  /** Extending the group by one entity is one more single-entity attach. */
  lemma AttachEachSnoc<H>(t: Tables<H>, b: nat, group: seq<Entity>, hs: seq<H>, e: Entity, h: H)
    requires |hs| == |group| && b in t.columns
    requires forall j :: 0 <= j < |group| ==> group[j] in t.entities
    requires e in t.entities
    ensures forall j :: 0 <= j < |group + [e]| ==> (group + [e])[j] in t.entities
    ensures AttachEach(t, b, group + [e], hs + [h]) == Attach(AttachEach(t, b, group, hs), b, e, h)
  {
    assert (group + [e])[..|group|] == group;
    assert (hs + [h])[..|group|] == hs;
  }

  /** The group delete applies the single-entity effect to every entity of the
   *  group and leaves every entity outside the group and every other column as it was. */
  lemma {:induction false} DetachEachEffect<H>(t: Tables<H>, b: nat, group: seq<Entity>)
    requires b in t.columns
    requires forall i :: 0 <= i < |group| ==> group[i] in t.entities
    ensures forall e :: e in group ==>
              DetachEach(t, b, group).entities[e] == AndNot(t.entities[e], Bit(b))
              && e !in DetachEach(t, b, group).columns[b]
    ensures forall e :: e in t.entities && e !in group ==>
              DetachEach(t, b, group).entities[e] == t.entities[e]
    ensures forall e :: e !in group ==>
              (e in DetachEach(t, b, group).columns[b] <==> e in t.columns[b])
              && (e in t.columns[b] ==> DetachEach(t, b, group).columns[b][e] == t.columns[b][e])
    ensures forall k :: k in t.columns && k != b ==> DetachEach(t, b, group).columns[k] == t.columns[k]
    decreases |group|
  {
    if group != [] {
      var k := |group| - 1;
      var g := group[..k];
      assert forall e :: e in group <==> e in g || e == group[k] by {
        assert group == g + [group[k]];
      }
      DetachEachEffect(t, b, g);
    }
  }

  /** The group delete keeps the invariant and the id bound. */
  lemma {:induction false} DetachEachKeeps<H>(t: Tables<H>, n: nat, next: nat, b: nat, group: seq<Entity>)
    requires Consistent(t, n) && IdsBelow(t, next)
    requires b in t.columns
    requires forall i :: 0 <= i < |group| ==> group[i] in t.entities
    ensures Consistent(DetachEach(t, b, group), n) && IdsBelow(DetachEach(t, b, group), next)
    decreases |group|
  {
    if group != [] {
      var k := |group| - 1;
      DetachEachKeeps(t, n, next, b, group[..k]);
      DetachKeeps(DetachEach(t, b, group[..k]), n, b, group[k]);
    }
  }

  /** Extending the group by one entity is one more single-entity delete. */
  lemma DetachEachSnoc<H>(t: Tables<H>, b: nat, group: seq<Entity>, e: Entity)
    requires b in t.columns
    requires forall j :: 0 <= j < |group| ==> group[j] in t.entities
    requires e in t.entities
    ensures forall j :: 0 <= j < |group + [e]| ==> (group + [e])[j] in t.entities
    ensures DetachEach(t, b, group + [e]) == Detach(DetachEach(t, b, group), b, e)
  {
    assert (group + [e])[..|group|] == group;
  }
}
