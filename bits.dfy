/** Entity membership masks.
 *  The store keeps masks in a fixed-width bit-field type; here a mask is the
 *  set of positions of its one bits, so `|` is union, `&` is intersection and
 *  `& !` is difference, and no width has to be tracked. */
module Bits {

  type Mask = set<nat>

  /** The mask whose only one bit is at position `i` (`B::bit_mask(i)`). */
  function Bit(i: nat): (m: Mask)
    ensures i in m && |m| == 1
  {
    {i}
  }

  function Or(a: Mask, b: Mask): (m: Mask) { a + b }

  function And(a: Mask, b: Mask): (m: Mask) { a * b }

  /** `a & !b`: clears in `a` every bit that is set in `b`. */
  function AndNot(a: Mask, b: Mask): (m: Mask) { a - b }

  /** The filter test of the store, written as the source writes it:
   *  `mask & filter == filter`. */
  predicate Covers(mask: Mask, filter: Mask)
  {
    And(mask, filter) == filter
  }

  /** Every bit of `m` is below position `n`: `m` only uses the bits a schema
   *  of `n` components assigns. */
  predicate Below(m: Mask, n: nat)
  {
    forall i :: i in m ==> i < n
  }

  /** The filter test holds exactly when every bit of the filter is set. */
  lemma CoversIsSubset(mask: Mask, filter: Mask)
    ensures Covers(mask, filter) <==> filter <= mask
  {
    if filter <= mask {
      assert And(mask, filter) == filter;
    }
  }

  /** Testing a single-bit filter is testing that bit. */
  lemma CoversBit(mask: Mask, b: nat)
    ensures Covers(mask, Bit(b)) <==> b in mask
  {
    CoversIsSubset(mask, Bit(b));
  }
}
