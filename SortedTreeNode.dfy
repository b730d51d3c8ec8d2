/**
 * A tree node that keeps its children sorted by a comparator, or by the
 * children's natural ordering when it has none, and that re-sorts them when
 * it is told that some of them, or its whole child structure, changed.
 */
module SortedTreeNodes {
  import opened Orderings
  import opened ChildSequences
  import opened Search

  /**
   * How an operation ends: normally, or with the exception the source or
   * the base tree node throws.
   */
  datatype Status =
    | Ok
    | IllegalState     // inserting into a node that does not allow children
    | IllegalArgument  // removing a node that is not a child of this node
    | NullPointer      // dereferencing a child list that was never created

  /** `key` after the child `c` has been given the key `k`. */
  function Updated(key: KeyMap, c: ChildId, k: Key): (r: KeyMap)
    ensures r(c) == k
    ensures forall x :: x != c ==> r(x) == key(x)
  {
    (x: ChildId) => if x == c then k else key(x)
  }

  class SortedTreeNode {
    /** The child list, in order; each child at most once. */
    var children: seq<ChildId>
    /** Whether the child list exists (the source's `children` is null until the first insertion). */
    var listAllocated: bool
    /** The ordering the children are kept in (the `comparator` field). */
    var comparator: Ordering
    /** The current key of every child object, which the application may change at any time. */
    var keyOf: KeyMap
    /** Whether this node may have children at all. */
    const allowsChildren: bool

    ghost predicate Valid()
      reads this
    {
      && Distinct(children)
      && (!listAllocated ==> children == [])
      && (!allowsChildren ==> children == [])
      && IsTotalPreorder(comparator)
    }

    /** The invariant the node exists to keep: its children in order. */
    predicate ChildrenSorted()
      reads this
    {
      Sorted(comparator, keyOf, children)
    }

    /** A node with no parent and no children, allowing children if told to, ordered by `newComparator`. */
    constructor (allowsChildren: bool, newComparator: Ordering, keyOf: KeyMap)
      requires IsTotalPreorder(newComparator)
      ensures Valid() && ChildrenSorted()
      ensures children == [] && !listAllocated
      ensures this.allowsChildren == allowsChildren
      ensures comparator == newComparator && this.keyOf == keyOf
    {
      this.allowsChildren := allowsChildren;
      comparator := newComparator;
      this.keyOf := keyOf;
      children := [];
      listAllocated := false;
    }

    /**
     * The application changes what child `c` compares by. Nothing about the
     * node changes, so its children may now be out of order.
     */
    method ChangeKey(c: ChildId, k: Key)
      requires Valid()
      modifies this
      ensures Valid()
      ensures keyOf == Updated(old(keyOf), c, k)
      ensures children == old(children) && listAllocated == old(listAllocated)
      ensures comparator == old(comparator)
    {
      keyOf := Updated(keyOf, c, k);
    }

    /** The base node's `remove(child)`: fails unless `c` is a child of this node. */
    method Remove(c: ChildId) returns (s: Status)
      requires Valid()
      modifies this
      ensures Valid()
      ensures s == Ok || s == IllegalArgument
      ensures s == Ok <==> old(c in children)
      ensures s == IllegalArgument ==> children == old(children)
      ensures children == Without(old(children), c)
      ensures multiset(children) == multiset(old(children)) - multiset{c}
      ensures listAllocated == old(listAllocated)
      ensures comparator == old(comparator) && keyOf == old(keyOf)
    {
      WithoutMultiset(children, c);
      if c !in children {
        WithoutAbsent(children, c);
        return IllegalArgument;
      }
      WithoutDistinct(children, c);
      children := Without(children, c);
      s := Ok;
    }

    /**
     * The base node's `insert(child, index)` for a child not in this node:
     * fails when the node does not allow children, otherwise creates the
     * list if need be and puts the child at `index`.
     */
    method Insert(c: ChildId, index: int) returns (s: Status)
      requires Valid()
      requires c !in children && 0 <= index <= |children|
      modifies this
      ensures Valid()
      ensures s == Ok || s == IllegalState
      ensures s == Ok <==> allowsChildren
      ensures s == Ok ==> children == InsertAt(old(children), index, c) && listAllocated
      ensures s == IllegalState ==> children == old(children) && listAllocated == old(listAllocated)
      ensures comparator == old(comparator) && keyOf == old(keyOf)
    {
      if !allowsChildren {
        return IllegalState;
      }
      InsertAtDistinct(children, c, index);
      children := InsertAt(children, index, c);
      listAllocated := true;
      s := Ok;
    }

    /**
     * Where `add` puts `c`: 0 when there is no child list, otherwise what
     * the binary search over the children returns, a "not found" result
     * `r` read as `-r - 1`. `r` is the search result before that decoding.
     */
    method InsertionIndex(c: ChildId) returns (r: int, index: int)
      requires Valid()
      ensures !listAllocated ==> r == 0 && index == 0
      ensures index == if r < 0 then -r - 1 else r
      ensures 0 <= index <= |children|
      ensures listAllocated && r >= 0 ==>
        index < |children| && Compare(comparator, keyOf(children[index]), keyOf(c)) == 0
      ensures listAllocated && r < 0 && ChildrenSorted() ==>
        && (forall j :: 0 <= j < index ==> Lt(comparator, keyOf(children[j]), keyOf(c)))
        && (forall j :: index <= j < |children| ==> Lt(comparator, keyOf(c), keyOf(children[j])))
      ensures ChildrenSorted() ==> IsInsertionPoint(comparator, keyOf, children, c, index)
    {
      if !listAllocated {
        r := 0;
      } else {
        r := BinarySearch(comparator, keyOf, children, c);
      }
      index := r;
      if index < 0 {
        index := -index - 1;
      }
      if ChildrenSorted() && listAllocated && r >= 0 {
        FoundIsInsertionPoint(comparator, keyOf, children, c, index);
      }
    }

    /**
     * Makes `c` a child of this node at its sorted position, first taking
     * it out if it already is one. When the other children are in order,
     * all of them are afterwards.
     */
    method Add(c: ChildId) returns (s: Status)
      requires Valid()
      modifies this
      ensures Valid()
      ensures comparator == old(comparator) && keyOf == old(keyOf)
      ensures s == Ok || s == IllegalState
      ensures s == Ok <==> allowsChildren
      ensures s == IllegalState ==> children == old(children) && listAllocated == old(listAllocated)
      ensures s == Ok ==> listAllocated && c in children && multiset(children)[c] == 1
      ensures s == Ok ==> Without(children, c) == Without(old(children), c)
      ensures s == Ok ==> multiset(children) == multiset(Without(old(children), c)) + multiset{c}
      ensures s == Ok ==> |children| == if old(c in children) then old(|children|) else old(|children|) + 1
      ensures s == Ok && Sorted(comparator, keyOf, Without(old(children), c)) ==> ChildrenSorted()
      ensures s == Ok && old(ChildrenSorted()) ==> ChildrenSorted()
    {
      WithoutSize(children, c);
      if old(ChildrenSorted()) {
        WithoutSorted(comparator, keyOf, children, c);
      }
      if c in children {
        var removed := Remove(c);
      } else {
        WithoutAbsent(children, c);
      }
      ghost var rest := children;
      WithoutMembers(old(children), c);
      var r, index := InsertionIndex(c);
      s := Insert(c, index);
      if s == Ok {
        WithoutInsertAt(rest, c, index);
        if Sorted(comparator, keyOf, rest) {
          InsertAtSorted(comparator, keyOf, rest, c, index);
        }
      }
    }

    /**
     * Takes out every listed child, then adds each back, in list order.
     * Fails, part way through the removals, at the first listed node that
     * is no longer a child: one that never was, or one listed twice.
     */
    method SortChildren(changed: seq<ChildId>) returns (s: Status)
      requires Valid()
      modifies this
      ensures Valid()
      ensures comparator == old(comparator) && keyOf == old(keyOf) && listAllocated == old(listAllocated)
      ensures s == Ok || s == IllegalArgument
      ensures s == Ok <==> ListedChildren(old(children), changed)
      ensures changed == [] ==> children == old(children)
      ensures s == Ok ==> multiset(children) == multiset(old(children))
      ensures s == Ok && Sorted(comparator, keyOf, RemoveAll(old(children), changed)) ==> ChildrenSorted()
      ensures s == Ok ==> RemoveAll(children, changed) == RemoveAll(old(children), changed)
      ensures s == IllegalArgument ==>
        exists k ::
          && 0 <= k < |changed| && ListedChildren(old(children), changed[..k])
          && children == RemoveAll(old(children), changed[..k]) && changed[k] !in children
    {
      s := Ok;
      var cCount := |changed|;
      if cCount > 0 {
        s := RemoveEach(changed);
        if s == Ok {
          assert changed[0] in changed && changed[0] in old(children);
          RemoveAllMembers(old(children), changed);
          AddEach(changed);
        }
      }
    }

    /** The first loop of `sortChildren`: removes the listed children one by one, stopping at the first failure. */
    method RemoveEach(changed: seq<ChildId>) returns (s: Status)
      requires Valid()
      modifies this
      ensures Valid()
      ensures comparator == old(comparator) && keyOf == old(keyOf) && listAllocated == old(listAllocated)
      ensures s == Ok || s == IllegalArgument
      ensures s == Ok <==> ListedChildren(old(children), changed)
      ensures s == Ok ==> children == RemoveAll(old(children), changed)
      ensures s == Ok ==> multiset(children) + multiset(changed) == multiset(old(children))
      ensures s == IllegalArgument ==>
        exists k ::
          && 0 <= k < |changed| && ListedChildren(old(children), changed[..k])
          && children == RemoveAll(old(children), changed[..k]) && changed[k] !in children
    {
      ghost var orig := children;
      s := Ok;
      var counter := 0;
      while counter < |changed|
        invariant 0 <= counter <= |changed|
        invariant Valid() && s == Ok
        invariant comparator == old(comparator) && keyOf == old(keyOf) && listAllocated == old(listAllocated)
        invariant children == RemoveAll(orig, changed[..counter])
        invariant ListedChildren(orig, changed[..counter])
      {
        var c := changed[counter];
        s := Remove(c);
        if s != Ok {
          NotRemovedBreaksPrecondition(changed, counter, orig);
          return;
        }
        RemovalStep(orig, changed, counter);
        counter := counter + 1;
      }
      assert changed[..|changed|] == changed;
      RemoveAllMultiset(orig, changed);
    }

    /**
     * The second loop of `sortChildren`: adds the listed children back, in
     * list order. If the children left after the removals were in order,
     * so is every intermediate and the final child list.
     */
    method AddEach(changed: seq<ChildId>)
      requires Valid() && allowsChildren && listAllocated
      requires forall c :: c in changed ==> c !in children
      requires Distinct(changed)
      modifies this
      ensures Valid() && listAllocated
      ensures comparator == old(comparator) && keyOf == old(keyOf)
      ensures multiset(children) == multiset(old(children)) + multiset(changed)
      ensures RemoveAll(children, changed) == old(children)
      ensures old(ChildrenSorted()) ==> ChildrenSorted()
    {
      ghost var rest := children;
      RemoveAllAbsent(rest, changed);
      var counter := 0;
      while counter < |changed|
        invariant 0 <= counter <= |changed|
        invariant Valid() && listAllocated
        invariant comparator == old(comparator) && keyOf == old(keyOf)
        invariant multiset(children) == multiset(rest) + multiset(changed[..counter])
        invariant RemoveAll(children, changed) == rest
        invariant old(ChildrenSorted()) ==> ChildrenSorted()
      {
        var c := changed[counter];
        NotYetAdded(rest, changed, counter, children);
        WithoutAbsent(children, c);
        ghost var before := children;
        var s := Add(c);
        AgreeOutsideListed(children, before, c, changed);
        PrefixStep(changed, counter);
        counter := counter + 1;
      }
      assert changed[..|changed|] == changed;
    }

    /**
     * `setComparator`: switches to `newComparator` and re-sorts every
     * child, treating a child list that does not exist as an empty one.
     */
    method SetComparator(newComparator: Ordering)
      requires Valid() && IsTotalPreorder(newComparator)
      modifies this
      ensures Valid()
      ensures comparator == newComparator
      ensures keyOf == old(keyOf) && listAllocated == old(listAllocated)
      ensures multiset(children) == multiset(old(children))
      ensures ChildrenSorted()
    {
      comparator := newComparator;
      var s := ResortAll();
    }

    /** `setComparator` as the source writes it: the child list is dereferenced even when it does not exist. */
    method SetComparatorAsWritten(newComparator: Ordering) returns (s: Status)
      requires Valid() && IsTotalPreorder(newComparator)
      modifies this
      ensures Valid()
      ensures comparator == newComparator
      ensures keyOf == old(keyOf) && listAllocated == old(listAllocated)
      ensures s == Ok || s == NullPointer
      ensures s == NullPointer <==> !old(listAllocated)
      ensures multiset(children) == multiset(old(children))
      ensures s == Ok ==> ChildrenSorted()
    {
      comparator := newComparator;
      if !listAllocated {
        return NullPointer;
      }
      s := ResortAll();
    }

    /** `sortChildren(children.toArray())`: always succeeds and leaves every child in order. */
    method ResortAll() returns (s: Status)
      requires Valid()
      modifies this
      ensures Valid()
      ensures s == Ok
      ensures comparator == old(comparator) && keyOf == old(keyOf) && listAllocated == old(listAllocated)
      ensures multiset(children) == multiset(old(children))
      ensures ChildrenSorted()
    {
      RemoveAllSelf(children);
      s := SortChildren(children);
    }

    /**
     * `treeNodesChanged`: when the event is about this node, re-sorts the
     * children it names; otherwise does nothing.
     */
    method TreeNodesChanged(targetsThis: bool, changed: seq<ChildId>) returns (s: Status)
      requires Valid()
      modifies this
      ensures Valid()
      ensures comparator == old(comparator) && keyOf == old(keyOf) && listAllocated == old(listAllocated)
      ensures s == Ok || s == IllegalArgument
      ensures !targetsThis ==> s == Ok && children == old(children)
      ensures targetsThis ==>
        (s == Ok <==> ListedChildren(old(children), changed))
      ensures s == Ok ==> multiset(children) == multiset(old(children))
      ensures s == Ok && targetsThis && Sorted(comparator, keyOf, RemoveAll(old(children), changed)) ==>
        ChildrenSorted()
      ensures s == Ok ==> RemoveAll(children, changed) == RemoveAll(old(children), changed)
      ensures s == IllegalArgument ==>
        exists k ::
          && 0 <= k < |changed| && ListedChildren(old(children), changed[..k])
          && children == RemoveAll(old(children), changed[..k]) && changed[k] !in children
    {
      s := Ok;
      if targetsThis {
        s := SortChildren(changed);
      }
    }

    /**
     * `treeStructureChanged`: when the event is about this node, re-sorts
     * all children, treating a child list that does not exist as an empty one.
     */
    method TreeStructureChanged(targetsThis: bool)
      requires Valid()
      modifies this
      ensures Valid()
      ensures comparator == old(comparator) && keyOf == old(keyOf) && listAllocated == old(listAllocated)
      ensures multiset(children) == multiset(old(children))
      ensures !targetsThis ==> children == old(children)
      ensures targetsThis ==> ChildrenSorted()
    {
      if targetsThis {
        var s := ResortAll();
      }
    }

    /** `treeStructureChanged` as the source writes it: the child list is dereferenced even when it does not exist. */
    method TreeStructureChangedAsWritten(targetsThis: bool) returns (s: Status)
      requires Valid()
      modifies this
      ensures Valid()
      ensures comparator == old(comparator) && keyOf == old(keyOf) && listAllocated == old(listAllocated)
      ensures s == Ok || s == NullPointer
      ensures s == NullPointer <==> targetsThis && !old(listAllocated)
      ensures multiset(children) == multiset(old(children))
      ensures !targetsThis ==> children == old(children)
      ensures targetsThis && s == Ok ==> ChildrenSorted()
    {
      s := Ok;
      if targetsThis {
        if !listAllocated {
          return NullPointer;
        }
        s := ResortAll();
      }
    }
  }

  /** `ds` names distinct children of `cs`: what `sortChildren` needs of its argument to succeed. */
  predicate ListedChildren(cs: seq<ChildId>, ds: seq<ChildId>) {
    Distinct(ds) && forall c :: c in ds ==> c in cs
  }

  /**
   * When the removal loop of `sortChildren` meets a listed node that is no
   * longer a child, the list did not name distinct children.
   */
  lemma NotRemovedBreaksPrecondition(changed: seq<ChildId>, k: nat, children: seq<ChildId>)
    requires k < |changed|
    requires changed[k] !in RemoveAll(children, changed[..k])
    ensures !ListedChildren(children, changed)
  {
    RemoveAllMembers(children, changed[..k]);
    if changed[k] in changed[..k] {
      var i :| 0 <= i < k && changed[..k][i] == changed[k];
      assert changed[i] == changed[k];
    } else {
      assert changed[k] !in children && changed[k] in changed;
    }
  }

  /** One successful step of the removal loop of `sortChildren`. */
  lemma RemovalStep(orig: seq<ChildId>, changed: seq<ChildId>, k: nat)
    requires k < |changed| && ListedChildren(orig, changed[..k])
    requires changed[k] in RemoveAll(orig, changed[..k])
    ensures ListedChildren(orig, changed[..k + 1])
    ensures RemoveAll(orig, changed[..k + 1]) == Without(RemoveAll(orig, changed[..k]), changed[k])
  {
    RemoveAllMembers(orig, changed[..k]);
    RemoveAllStep(orig, changed, k);
    assert changed[..k + 1] == changed[..k] + [changed[k]];
    var ds := changed[..k + 1];
    forall i, j | 0 <= i < j < |ds| ensures ds[i] != ds[j] {
      if j == k {
        assert ds[i] == changed[..k][i];
      } else {
        assert ds[i] == changed[..k][i] && ds[j] == changed[..k][j];
      }
    }
  }

  /** Taking out distinct children of a sequence without duplicates takes out exactly those. */
  lemma {:induction false} RemoveAllMultiset(cs: seq<ChildId>, ds: seq<ChildId>)
    requires Distinct(cs) && ListedChildren(cs, ds)
    ensures Distinct(RemoveAll(cs, ds))
    ensures multiset(RemoveAll(cs, ds)) + multiset(ds) == multiset(cs)
  {
    if ds != [] {
      var init, d := ds[..|ds| - 1], ds[|ds| - 1];
      assert ds == init + [d];
      assert ListedChildren(cs, init) by {
        forall i, j | 0 <= i < j < |init| ensures init[i] != init[j] {
          assert init[i] == ds[i] && init[j] == ds[j];
        }
      }
      RemoveAllMultiset(cs, init);
      RemoveAllMembers(cs, init);
      assert d !in init;
      WithoutMultiset(RemoveAll(cs, init), d);
      WithoutDistinct(RemoveAll(cs, init), d);
    }
  }

  /** A listed child not yet added back by the second loop of `sortChildren` is not a child. */
  lemma NotYetAdded(rest: seq<ChildId>, changed: seq<ChildId>, k: nat, cs: seq<ChildId>)
    requires k < |changed| && Distinct(changed)
    requires forall c :: c in changed ==> c !in rest
    requires multiset(cs) == multiset(rest) + multiset(changed[..k])
    ensures changed[k] !in cs
  {
    assert changed[k] !in rest;
    assert changed[k] !in changed[..k];
    assert multiset(cs)[changed[k]] == 0;
  }
}
