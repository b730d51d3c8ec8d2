/**
 * The search `Collections.binarySearch(list, key, comparator)` runs over a
 * random-access list, as a sorted tree node calls it over its children.
 */
module Search {
  import opened Orderings
  import opened ChildSequences

  /**
   * Returns the index of a child comparing equal to `x`, or, when there is
   * none, `-(p + 1)` for the insertion point `p`. Like the library routine it
   * compares `compare(a[mid], x)`; on a tie it may return any of the tied
   * positions, not necessarily the first.
   */
  method BinarySearch(o: Ordering, key: KeyMap, a: seq<ChildId>, x: ChildId) returns (r: int)
    ensures r >= 0 ==> r < |a| && Compare(o, key(a[r]), key(x)) == 0
    ensures r < 0 ==> 0 <= -r - 1 <= |a|
    ensures r < 0 && IsTotalPreorder(o) && Sorted(o, key, a) ==>
      && (forall j :: 0 <= j < -r - 1 ==> Lt(o, key(a[j]), key(x)))
      && (forall j :: -r - 1 <= j < |a| ==> Lt(o, key(x), key(a[j])))
  {
    var low, high := 0, |a| - 1;
    while low <= high
      invariant 0 <= low <= high + 1 <= |a|
      invariant IsTotalPreorder(o) && Sorted(o, key, a) ==>
        forall j :: 0 <= j < low ==> Lt(o, key(a[j]), key(x))
      invariant IsTotalPreorder(o) && Sorted(o, key, a) ==>
        forall j :: high < j < |a| ==> Lt(o, key(x), key(a[j]))
    {
      var mid := (low + high) / 2;
      var cmp := Compare(o, key(a[mid]), key(x));
      if cmp < 0 {
        if IsTotalPreorder(o) && Sorted(o, key, a) {
          forall j | 0 <= j <= mid ensures Lt(o, key(a[j]), key(x)) {
            if j < mid {
              LeqLtTrans(o, key(a[j]), key(a[mid]), key(x));
            }
          }
        }
        low := mid + 1;
      } else if cmp > 0 {
        if IsTotalPreorder(o) && Sorted(o, key, a) {
          LtIsNotReverseLeq(o, key(x), key(a[mid]));
          forall j | mid <= j < |a| ensures Lt(o, key(x), key(a[j])) {
            if j > mid {
              LtLeqTrans(o, key(x), key(a[mid]), key(a[j]));
            }
          }
        }
        high := mid - 1;
      } else {
        return mid;
      }
    }
    r := -(low + 1);
  }
}
