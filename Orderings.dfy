/**
 * The ordering a sorted tree node sorts its children by: either the
 * children's natural ordering (the node's comparator is null) or a custom
 * comparator. A child is compared through its key, the part of its state
 * the ordering looks at.
 */
module Orderings {

  /** The comparable state of a child. */
  type Key = int

  /** `Natural` stands for a null comparator; `Custom` for a supplied one. */
  datatype Ordering = Natural | Custom(cmp: (Key, Key) -> int)

  function Sign(n: int): (r: int)
    ensures r == -1 || r == 0 || r == 1
    ensures (r < 0 <==> n < 0) && (r == 0 <==> n == 0)
  {
    if n < 0 then -1 else if n == 0 then 0 else 1
  }

  /** `compareTo` of the natural ordering, or `compare` of the comparator. */
  function Compare(o: Ordering, a: Key, b: Key): int {
    match o
    case Natural => if a < b then -1 else if a == b then 0 else 1
    case Custom(cmp) => cmp(a, b)
  }

  predicate Leq(o: Ordering, a: Key, b: Key) {
    Compare(o, a, b) <= 0
  }

  predicate Lt(o: Ordering, a: Key, b: Key) {
    Compare(o, a, b) < 0
  }

  /** Swapping the arguments of `cmp` flips the sign of its result. */
  predicate SignFlips(cmp: (Key, Key) -> int, a: Key, b: Key) {
    Sign(cmp(a, b)) == -Sign(cmp(b, a))
  }

  /** "Compares at most" chains through `b`. */
  predicate LeqChains(cmp: (Key, Key) -> int, a: Key, b: Key, c: Key) {
    cmp(a, b) <= 0 && cmp(b, c) <= 0 ==> cmp(a, c) <= 0
  }

  /**
   * The Comparator contract: swapping the arguments flips the sign, and
   * "compares at most" is transitive. Together these make Leq a total
   * preorder whose strict part is Lt. (The natural ordering of the keys
   * has these properties by construction.)
   */
  ghost predicate IsTotalPreorder(o: Ordering) {
    match o
    case Natural => true
    case Custom(cmp) =>
      && (forall a, b :: SignFlips(cmp, a, b))
      && (forall a, b, c :: LeqChains(cmp, a, b, c))
  }

  /** The comparator `Collections.reverseOrder(o)` would give. */
  function Reversed(o: Ordering): (r: Ordering)
    ensures forall a, b :: Compare(r, a, b) == Compare(o, b, a)
  {
    Custom((a: Key, b: Key) => Compare(o, b, a))
  }

  lemma CompareSignFlips(o: Ordering, a: Key, b: Key)
    requires IsTotalPreorder(o)
    ensures Sign(Compare(o, a, b)) == -Sign(Compare(o, b, a))
  {
    if o.Custom? {
      assert SignFlips(o.cmp, a, b);
    }
  }

  lemma LtIsNotReverseLeq(o: Ordering, a: Key, b: Key)
    requires IsTotalPreorder(o)
    ensures Lt(o, a, b) <==> !Leq(o, b, a)
  {
    CompareSignFlips(o, a, b);
  }

  lemma LeqTotal(o: Ordering, a: Key, b: Key)
    requires IsTotalPreorder(o)
    ensures Leq(o, a, b) || Leq(o, b, a)
  {
    LtIsNotReverseLeq(o, a, b);
  }

  lemma LeqTrans(o: Ordering, a: Key, b: Key, c: Key)
    requires IsTotalPreorder(o) && Leq(o, a, b) && Leq(o, b, c)
    ensures Leq(o, a, c)
  {
    if o.Custom? {
      assert LeqChains(o.cmp, a, b, c);
    }
  }

  lemma LeqLtTrans(o: Ordering, a: Key, b: Key, c: Key)
    requires IsTotalPreorder(o) && Leq(o, a, b) && Lt(o, b, c)
    ensures Lt(o, a, c)
  {
    LtIsNotReverseLeq(o, b, c);
    LtIsNotReverseLeq(o, a, c);
    if Leq(o, c, a) {
      LeqTrans(o, c, a, b);
    }
  }

  lemma LtLeqTrans(o: Ordering, a: Key, b: Key, c: Key)
    requires IsTotalPreorder(o) && Lt(o, a, b) && Leq(o, b, c)
    ensures Lt(o, a, c)
  {
    LtIsNotReverseLeq(o, a, b);
    LtIsNotReverseLeq(o, a, c);
    if Leq(o, c, a) {
      LeqTrans(o, b, c, a);
    }
  }

  /** Reversing a comparator that keeps the contract keeps the contract. */
  lemma ReversedIsTotalPreorder(o: Ordering)
    requires IsTotalPreorder(o)
    ensures IsTotalPreorder(Reversed(o))
  {
    var r := Reversed(o);
    forall a, b ensures SignFlips(r.cmp, a, b) {
      LtIsNotReverseLeq(o, a, b);
      LtIsNotReverseLeq(o, b, a);
    }
    forall a, b, c ensures LeqChains(r.cmp, a, b, c) {
      if r.cmp(a, b) <= 0 && r.cmp(b, c) <= 0 {
        LeqTrans(o, c, b, a);
      }
    }
  }
}
