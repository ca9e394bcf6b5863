/** The schema: the registered component types in registration order, and the
 *  bit each of them is given (src/worlds.rs). */
module Schema {

  import opened Bits
  import opened Optional

  /** A component type's runtime identity (`TypeId`). */
  type TypeId = nat

  predicate Distinct<T(==)>(s: seq<T>)
  {
    forall i, j :: 0 <= i < j < |s| ==> s[i] != s[j]
  }

  /** The search of `component_bit_mask`: the first position at which `c` was
   *  registered, or `None` when it never was. */
  function IndexOf(components: seq<TypeId>, c: TypeId): (r: Option<nat>)
    ensures r.None? <==> c !in components
    ensures r.Some? ==> r.value < |components| && components[r.value] == c && c !in components[..r.value]
  {
    if components == [] then None
    else if components[0] == c then Some(0)
    else
      match IndexOf(components[1..], c)
      case None => None
      case Some(i) =>
        assert components[..i + 1] == [components[0]] + components[1..][..i];
        Some(i + 1)
  }

  /** In a schema without repeats the bit of a component is its registration index. */
  lemma IndexOfRegistered(components: seq<TypeId>, i: nat)
    requires Distinct(components) && i < |components|
    ensures IndexOf(components, components[i]) == Some(i)
  {
  }

  /** Registering an unseen type gives it the next index and keeps every earlier
   *  type's index. */
  lemma IndexOfAfterRegister(components: seq<TypeId>, c: TypeId, d: TypeId)
    requires c !in components
    ensures IndexOf(components + [c], c) == Some(|components|)
    ensures d in components ==> IndexOf(components + [c], d) == IndexOf(components, d)
  {
  }

  /** The mask a chain of `with_component` clauses produces: the bits of the
   *  clauses ORed together, left to right. */
  function MaskOf(components: seq<TypeId>, clauses: seq<TypeId>): (m: Mask)
    requires forall c :: c in clauses ==> c in components
    decreases |clauses|
  {
    if clauses == [] then {}
    else
      var k := |clauses| - 1;
      Or(MaskOf(components, clauses[..k]), Bit(IndexOf(components, clauses[k]).value))
  }

  /** A chain of clauses sets exactly the registration indices of its types. */
  lemma {:induction false} MaskOfIsIndexSet(components: seq<TypeId>, clauses: seq<TypeId>)
    requires forall c :: c in clauses ==> c in components
    ensures forall i :: i in MaskOf(components, clauses) <==>
              exists c :: c in clauses && IndexOf(components, c) == Some(i)
    decreases |clauses|
  {
    if clauses != [] {
      var k := |clauses| - 1;
      var init := clauses[..k];
      assert forall c :: c in clauses <==> c in init || c == clauses[k] by {
        assert clauses == init + [clauses[k]];
      }
      MaskOfIsIndexSet(components, init);
    }
  }

  /** Reordering or repeating clauses does not change the mask. */
  lemma MaskOfOrderIrrelevant(components: seq<TypeId>, a: seq<TypeId>, b: seq<TypeId>)
    requires forall c :: c in a ==> c in components
    requires forall c :: c in a <==> c in b
    ensures MaskOf(components, a) == MaskOf(components, b)
  {
    MaskOfIsIndexSet(components, a);
    MaskOfIsIndexSet(components, b);
  }

  /** More clauses only add bits. */
  lemma MaskOfMonotone(components: seq<TypeId>, a: seq<TypeId>, b: seq<TypeId>)
    requires forall c :: c in b ==> c in components
    requires forall c :: c in a ==> c in b
    ensures MaskOf(components, a) <= MaskOf(components, b)
  {
    MaskOfIsIndexSet(components, a);
    MaskOfIsIndexSet(components, b);
  }

  /** The mask of registered types only uses the schema's bits. */
  lemma {:induction false} MaskOfBounded(components: seq<TypeId>, clauses: seq<TypeId>)
    requires forall c :: c in clauses ==> c in components
    ensures Below(MaskOf(components, clauses), |components|)
    decreases |clauses|
  {
    if clauses != [] {
      MaskOfBounded(components, clauses[..|clauses| - 1]);
    }
  }

  /** The bit of a registered type is in the mask of a chain exactly when the
   *  type is one of its clauses. */
  lemma MaskOfMember(components: seq<TypeId>, clauses: seq<TypeId>, c: TypeId)
    requires forall d :: d in clauses ==> d in components
    requires c in components
    ensures IndexOf(components, c).value in MaskOf(components, clauses) <==> c in clauses
  {
    MaskOfIsIndexSet(components, clauses);
  }

  /** One more clause ORs in the bit of its type. */
  lemma MaskOfAppend(components: seq<TypeId>, clauses: seq<TypeId>, c: TypeId)
    requires forall d :: d in clauses ==> d in components
    requires c in components
    ensures MaskOf(components, clauses + [c]) == Or(MaskOf(components, clauses), Bit(IndexOf(components, c).value))
  {
    assert (clauses + [c])[..|clauses|] == clauses;
  }
}
