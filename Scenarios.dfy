/**
 * Small clients of a sorted tree node with three children 10, 11 and 12,
 * under the natural ordering of their keys, showing what the node's
 * contracts pin down on concrete inputs.
 */
module Scenarios {
  import opened Orderings
  import opened ChildSequences
  import opened SortedTreeNodes

  /** Children 10, 11 and 12 with keys `k10`, `k11` and `k12`; every other child has key 0. */
  function Keys(k10: Key, k11: Key, k12: Key): KeyMap {
    (x: ChildId) => if x == 10 then k10 else if x == 11 then k11 else if x == 12 then k12 else 0
  }

  /** Three children with strictly increasing keys have only one sorted arrangement. */
  lemma SortedThree(key: KeyMap, cs: seq<ChildId>, a: ChildId, b: ChildId, c: ChildId)
    requires key(a) < key(b) < key(c)
    requires Sorted(Natural, key, cs) && multiset(cs) == multiset{a, b, c}
    ensures cs == [a, b, c]
  {
    var s := [a, b, c];
    assert Sorted(Natural, key, s);
    assert KeysStrict(Natural, key, s);
    SortedUnique(Natural, key, s, cs);
  }

  /** Three children with strictly increasing keys, listed backwards, are sorted by the reversed natural ordering. */
  lemma BackwardsIsReverseSorted(key: KeyMap, a: ChildId, b: ChildId, c: ChildId)
    requires key(a) < key(b) < key(c)
    ensures Sorted(Reversed(Natural), key, [c, b, a])
    ensures KeysStrict(Reversed(Natural), key, [c, b, a])
  {
  }

  /** Sorted by the reverse of the natural ordering, three children with increasing keys come out reversed. */
  lemma ReversedThree(key: KeyMap, cs: seq<ChildId>, a: ChildId, b: ChildId, c: ChildId)
    requires key(a) < key(b) < key(c)
    requires Sorted(Reversed(Natural), key, cs) && multiset(cs) == multiset{a, b, c}
    ensures cs == [c, b, a]
  {
    ReversedIsTotalPreorder(Natural);
    BackwardsIsReverseSorted(key, a, b, c);
    SortedUnique(Reversed(Natural), key, [c, b, a], cs);
  }

  /** `add` of a node that is not yet a child, on a node that allows children. */
  method AddNew(n: SortedTreeNode, c: ChildId)
    requires n.Valid() && n.allowsChildren && c !in n.children
    modifies n
    ensures n.Valid() && n.listAllocated
    ensures n.comparator == old(n.comparator) && n.keyOf == old(n.keyOf)
    ensures multiset(n.children) == multiset(old(n.children)) + multiset{c}
    ensures old(n.ChildrenSorted()) ==> n.ChildrenSorted()
  {
    WithoutAbsent(n.children, c);
    var s := n.Add(c);
  }

  /** A node ordered naturally, with keys `Keys(k10, k11, k12)`, after adding 10, 11 and 12 in that order. */
  method NewWithThree(k10: Key, k11: Key, k12: Key) returns (n: SortedTreeNode)
    ensures fresh(n) && n.Valid() && n.allowsChildren && n.listAllocated && n.ChildrenSorted()
    ensures n.comparator == Natural && n.keyOf == Keys(k10, k11, k12)
    ensures multiset(n.children) == multiset{10, 11, 12}
  {
    n := new SortedTreeNode(true, Natural, Keys(k10, k11, k12));
    AddNew(n, 10);
    assert multiset(n.children) == multiset{10};
    AddNew(n, 11);
    assert multiset(n.children) == multiset{10, 11};
    AddNew(n, 12);
  }

  /**
   * Children added in any order end up sorted by key; when the key of one
   * of them changes and a change event names it, it moves to its new place.
   */
  method ResortAfterKeyChange() returns (before: seq<ChildId>, after: seq<ChildId>)
    ensures before == [11, 12, 10]
    ensures after == [12, 10, 11]
  {
    var n := NewWithThree(3, 1, 2);
    before := n.children;
    SortedThree(n.keyOf, before, 11, 12, 10);
    KeyChangeStep(n);
    after := n.children;
  }

  /** While 12's key stays below 10's, an event naming 11 is valid and the other two children are in order. */
  lemma OthersStaySorted(key: KeyMap)
    requires key(12) < key(10)
    ensures ListedChildren([11, 12, 10], [11])
    ensures RemoveAll([11, 12, 10], [11]) == [12, 10]
    ensures Sorted(Natural, key, [12, 10])
  {
    assert [11][..0] == [];
    assert [11, 12, 10][1..] == [12, 10] && [12, 10][1..] == [10] && [10][1..] == [];
  }

  /** Raising the key of the first of three children, then telling the node so, moves it to the end. */
  method KeyChangeStep(n: SortedTreeNode)
    requires n.Valid() && n.comparator == Natural && n.keyOf == Keys(3, 1, 2)
    requires n.children == [11, 12, 10]
    modifies n
    ensures n.children == [12, 10, 11]
  {
    n.ChangeKey(11, 5);
    OthersStaySorted(n.keyOf);
    var s := n.TreeNodesChanged(true, [11]);
    SortedThree(n.keyOf, n.children, 12, 10, 11);
  }

  /**
   * The protocol the node is built for: after the application changes the
   * key of a child, an event naming that child puts the children back in
   * order.
   */
  method ChangeKeyThenNotify(n: SortedTreeNode, c: ChildId, k: Key)
    requires n.Valid() && n.ChildrenSorted() && c in n.children
    modifies n
    ensures n.Valid() && n.ChildrenSorted()
    ensures n.keyOf == Updated(old(n.keyOf), c, k)
    ensures multiset(n.children) == multiset(old(n.children))
  {
    ghost var key := n.keyOf;
    n.ChangeKey(c, k);
    UnchangedRestSorted(n.comparator, key, n.keyOf, n.children, [c]);
    assert ListedChildren(n.children, [c]);
    var s := n.TreeNodesChanged(true, [c]);
  }

  /** Switching to the reversed comparator reverses children that do not tie. */
  method ReverseOnComparatorSwap() returns (before: seq<ChildId>, after: seq<ChildId>)
    ensures before == [10, 11, 12]
    ensures after == [12, 11, 10]
  {
    var n := NewWithThree(1, 2, 3);
    before := n.children;
    SortedThree(n.keyOf, before, 10, 11, 12);
    SwapStep(n);
    after := n.children;
  }

  /** `setComparator` with the reverse of the natural ordering, on three children with increasing keys. */
  method SwapStep(n: SortedTreeNode)
    requires n.Valid() && n.comparator == Natural && n.keyOf == Keys(1, 2, 3)
    requires n.children == [10, 11, 12]
    modifies n
    ensures n.children == [12, 11, 10]
  {
    ReversedIsTotalPreorder(Natural);
    n.SetComparator(Reversed(Natural));
    ReversedThree(n.keyOf, n.children, 10, 11, 12);
  }

  /** A node that does not allow children refuses one, and keeps none. */
  method AddToLeaf() returns (s: Status, cs: seq<ChildId>)
    ensures s == IllegalState && cs == []
  {
    var n := new SortedTreeNode(false, Natural, Keys(1, 2, 3));
    s := n.Add(10);
    cs := n.children;
  }

  /**
   * A change event naming the same child twice fails on the second
   * removal, after the first removal has happened: the child is left out.
   */
  method DuplicateInChangeEvent() returns (s: Status, cs: seq<ChildId>)
    ensures s == IllegalArgument && cs == [10, 12]
  {
    var n := NewWithThree(1, 2, 3);
    SortedThree(n.keyOf, n.children, 10, 11, 12);
    var changed := [11, 11];
    assert !Distinct(changed) by {
      assert changed[0] == changed[1];
    }
    s := n.TreeNodesChanged(true, changed);
    cs := n.children;
    var k :|
      && 0 <= k < |changed| && ListedChildren([10, 11, 12], changed[..k])
      && cs == RemoveAll([10, 11, 12], changed[..k]) && changed[k] !in cs;
    assert changed[..0] == [] && changed[..1] == [11];
    assert [10, 11, 12][1..] == [11, 12] && [11, 12][1..] == [12] && [12][1..] == [];
    assert k == 1 && Without([10, 11, 12], 11) == [10, 12];
  }

  /**
   * On a node that never had a child, `setComparator` and
   * `treeStructureChanged` as the source writes them dereference the
   * missing child list.
   */
  method FreshNodeCounterexample() returns (s: Status, t: Status)
    ensures s == NullPointer && t == NullPointer
  {
    var n := new SortedTreeNode(true, Natural, Keys(1, 2, 3));
    ReversedIsTotalPreorder(Natural);
    s := n.SetComparatorAsWritten(Reversed(Natural));
    var m := new SortedTreeNode(true, Natural, Keys(1, 2, 3));
    t := m.TreeStructureChangedAsWritten(true);
  }

  /** The corrected operations treat the missing child list as an empty one. */
  method FreshNodeCorrected() returns (cs: seq<ChildId>, ds: seq<ChildId>)
    ensures cs == [] && ds == []
  {
    var n := new SortedTreeNode(true, Natural, Keys(1, 2, 3));
    ReversedIsTotalPreorder(Natural);
    n.SetComparator(Reversed(Natural));
    cs := n.children;
    var m := new SortedTreeNode(true, Natural, Keys(1, 2, 3));
    m.TreeStructureChanged(true);
    ds := m.children;
  }
}
