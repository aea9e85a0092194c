/** Bitwise operators on addresses, for the direct map: phys_to_virt is an "or" with an
    offset and virt_to_phys an "exclusive or". */
module Bits {

  function Or(a: nat, b: nat): nat {
    if a == 0 && b == 0 then 0
    else (if a % 2 == 1 || b % 2 == 1 then 1 else 0) + 2 * Or(a / 2, b / 2)
  }

  function Xor(a: nat, b: nat): nat {
    if a == 0 && b == 0 then 0
    else (if a % 2 != b % 2 then 1 else 0) + 2 * Xor(a / 2, b / 2)
  }

  /** a and b have no one bit in common. */
  predicate Disjoint(a: nat, b: nat) {
    (a == 0 && b == 0) || (!(a % 2 == 1 && b % 2 == 1) && Disjoint(a / 2, b / 2))
  }

  lemma {:induction false} OrDisjoint(a: nat, b: nat)
    requires Disjoint(a, b)
    ensures Or(a, b) == a + b
  {
    if !(a == 0 && b == 0) { OrDisjoint(a / 2, b / 2); }
  }

  lemma {:induction false} XorZero(a: nat)
    ensures Xor(a, 0) == a
  {
    if a != 0 { XorZero(a / 2); }
  }

  /** virt_to_phys inverts phys_to_virt exactly on addresses disjoint from the offset. */
  lemma {:induction false} XorOrExactly(a: nat, b: nat)
    ensures Xor(Or(a, b), b) == a <==> Disjoint(a, b)
    ensures Xor(Or(a, b), b) <= a
  {
    if !(a == 0 && b == 0) {
      XorOrExactly(a / 2, b / 2);
      var o := Or(a, b);
      assert o / 2 == Or(a / 2, b / 2) && o % 2 == (if a % 2 == 1 || b % 2 == 1 then 1 else 0);
    }
  }
}
