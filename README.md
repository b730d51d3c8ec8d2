# SortedTreeNode, modelled in Dafny

`SortedTreeNode` is a Swing tree node that keeps its children sorted. It
sorts them by a `Comparator`, or by the children's natural ordering when the
comparator is null. It keeps them sorted in three ways:

- it inserts every new child at a binary-searched position;
- it re-sorts all children when the comparator changes or when a
  "structure changed" event names the node;
- it re-sorts the children named in a "nodes changed" event, by removing
  each of them and adding each back.

This project models that class as a Dafny `class` whose fields are the parts
of the node's state that the Java code reads or writes:

- `children` is the child list, a sequence of child identities.
- `listAllocated` says whether the list exists. The Java field is `null`
  until the first insertion.
- `comparator` is `Natural` for a null comparator, or `Custom(cmp)` for a
  supplied one.
- `keyOf` gives the state of each child that the ordering compares. The
  application may change a child's key at any time (`ChangeKey`). The node
  then has to be notified.
- `allowsChildren` is a constant.

The two base-class operations the class relies on, `remove(child)` and
`insert(child, index)`, are modelled with the exceptions they throw, as a
`Status` result. `Collections.binarySearch` is modelled as a loop method
with the library's own index arithmetic, comparing `compare(list[mid], key)`.
A supplied comparator is assumed to follow the `Comparator` contract:
swapping the arguments flips the sign, and "compares at most" is transitive
(`Orderings.IsTotalPreorder`).

Files:

- `Orderings.dfy`: the ordering, the comparator contract, and the preorder
  facts derived from it.
- `ChildSequences.dfy`: child sequences, sortedness, removal and insertion
  at a position, and the uniqueness of a sorted order when no two children
  tie.
- `BinarySearch.dfy`: `Collections.binarySearch`.
- `SortedTreeNode.dfy`: the node.
- `Scenarios.dfy`: clients showing what the contracts determine on
  concrete children.

On ties the model follows the code, not the usual description of the class.
A new child whose key ties with existing children goes at the index the
binary search returns. That can be any of the tied positions, not
necessarily the first one.

## Model

| member | source | states |
|---|---|---|
| SortedTreeNodes.SortedTreeNode.constructor | src/main/java/org/dotuseful/ui/tree/SortedTreeNode.java:150-154 | A new node has no child list, the given `allowsChildren` and comparator, and is trivially sorted |
| SortedTreeNodes.SortedTreeNode.ChangeKey | src/main/java/org/dotuseful/ui/tree/SortedTreeNode.java:63-66 | A child's comparable state changes behind the node's back; only that child's key changes, and nothing about the node |
| SortedTreeNodes.SortedTreeNode.SetComparator | src/main/java/org/dotuseful/ui/tree/SortedTreeNode.java:163-166 | The comparator becomes the new one, the node keeps exactly the same children (as a multiset), and they are sorted under the new comparator; a node without a child list is treated as having no children |
| SortedTreeNodes.SortedTreeNode.SetComparatorAsWritten | src/main/java/org/dotuseful/ui/tree/SortedTreeNode.java:163-166 | As written: fails with a NullPointerException exactly when the child list was never created (after the comparator was replaced); otherwise the same outcome as `SetComparator` |
| SortedTreeNodes.SortedTreeNode.ResortAll | src/main/java/org/dotuseful/ui/tree/SortedTreeNode.java:165 | `sortChildren(children.toArray())` always succeeds, keeps the same children and leaves them sorted |
| SortedTreeNodes.SortedTreeNode.Remove | src/main/java/org/dotuseful/ui/tree/SortedTreeNode.java:181-183 | Base-class `remove`: succeeds exactly when the node is a child; then it does not occur in the list any more, the others keep their order, and nothing else changes; otherwise IllegalArgumentException and no change |
| SortedTreeNodes.SortedTreeNode.Insert | src/main/java/org/dotuseful/ui/tree/SortedTreeNode.java:193 | Base-class `insert`: IllegalStateException exactly when children are not allowed (nothing changes); otherwise the list exists and has the child at the given index |
| Search.BinarySearch | src/main/java/org/dotuseful/ui/tree/SortedTreeNode.java:188 | A non-negative result indexes a child comparing equal to the key; a negative result `r` encodes an index `-r-1` in `0..size`, before which every child compares below the key and from which every child compares above it (on a sorted list under a comparator keeping its contract) |
| SortedTreeNodes.SortedTreeNode.InsertionIndex | src/main/java/org/dotuseful/ui/tree/SortedTreeNode.java:184-192 | Index 0 when there is no list; otherwise the search result, decoded from `-r-1` when negative, always within `0..size`; on a sorted list it is an insertion point (nothing before it above the child, nothing from it on below it) |
| SortedTreeNodes.SortedTreeNode.Add | src/main/java/org/dotuseful/ui/tree/SortedTreeNode.java:180-194 | Fails with IllegalStateException, changing nothing, exactly when children are not allowed; otherwise the child occurs exactly once, the other children are the same and in the same order, the size grows by one unless it was already a child, and if the other children were sorted all of them are |
| SortedTreeNodes.SortedTreeNode.SortChildren | src/main/java/org/dotuseful/ui/tree/SortedTreeNode.java:220-231 | Succeeds exactly when the listed nodes are distinct children; an empty list changes nothing; on success the node has the same children, the unlisted ones in their old relative order, and all sorted if the unlisted ones were; on failure, at the first listed node that is no longer a child, exactly the listed nodes before it have been removed |
| SortedTreeNodes.SortedTreeNode.RemoveEach | src/main/java/org/dotuseful/ui/tree/SortedTreeNode.java:224-226 | The removal loop takes out the listed children in order and succeeds exactly when they are distinct children; otherwise it stops at the first listed node that is no longer a child, after removing exactly the (distinct, present) nodes listed before it |
| SortedTreeNodes.SortedTreeNode.AddEach | src/main/java/org/dotuseful/ui/tree/SortedTreeNode.java:227-229 | The re-adding loop adds back exactly the listed children, leaves the children already present in their order, and keeps sorted children sorted |
| SortedTreeNodes.SortedTreeNode.TreeNodesChanged | src/main/java/org/dotuseful/ui/tree/SortedTreeNode.java:199-204 | An event about another node changes nothing; an event about this node re-sorts only the named children, with the outcomes of `SortChildren`: the unnamed children keep their relative order, and a failure happens at the first named node that is no longer a child |
| SortedTreeNodes.SortedTreeNode.TreeStructureChanged | src/main/java/org/dotuseful/ui/tree/SortedTreeNode.java:209-214 | An event about another node changes nothing; an event about this node leaves the same children, sorted; a node without a child list is treated as having no children |
| SortedTreeNodes.SortedTreeNode.TreeStructureChangedAsWritten | src/main/java/org/dotuseful/ui/tree/SortedTreeNode.java:209-214 | As written: an event about this node fails with a NullPointerException exactly when the child list was never created; otherwise the same outcome as `TreeStructureChanged` |
| SortedTreeNodes.NotRemovedBreaksPrecondition | src/main/java/org/dotuseful/ui/tree/SortedTreeNode.java:224-226 | If the removal loop meets a listed node that is no longer a child, the list did not name distinct children of the node |
| SortedTreeNodes.RemoveAllMultiset | src/main/java/org/dotuseful/ui/tree/SortedTreeNode.java:224-226 | Removing distinct children takes out exactly those children, one copy each, and leaves no duplicates |
| ChildSequences.WithoutSorted | src/main/java/org/dotuseful/ui/tree/SortedTreeNode.java:181-183 | Taking a child out of a sorted child list leaves it sorted |
| ChildSequences.RemoveAllSorted | src/main/java/org/dotuseful/ui/tree/SortedTreeNode.java:224-226 | Taking any listed children out of a sorted child list leaves it sorted |
| ChildSequences.FoundIsInsertionPoint | src/main/java/org/dotuseful/ui/tree/SortedTreeNode.java:188-193 | When the search finds a child comparing equal, inserting at that index keeps a sorted list sorted |
| ChildSequences.InsertAtSorted | src/main/java/org/dotuseful/ui/tree/SortedTreeNode.java:193 | Inserting at an insertion point keeps a sorted list sorted |
| ChildSequences.WithoutInsertAt | src/main/java/org/dotuseful/ui/tree/SortedTreeNode.java:180-194 | Inserting a new child and removing it again gives back the original list: `add` disturbs no other child |
| ChildSequences.RemoveAllWithout | src/main/java/org/dotuseful/ui/tree/SortedTreeNode.java:224-229 | Removing one child before the listed children or after them gives the same list |
| ChildSequences.AgreeOutsideListed | src/main/java/org/dotuseful/ui/tree/SortedTreeNode.java:227-229 | Re-adding a listed child cannot move any unlisted child: two lists that agree without that child agree without all listed children |
| ChildSequences.RemoveAllAbsent | src/main/java/org/dotuseful/ui/tree/SortedTreeNode.java:227-229 | Removing children that are not in a list leaves the list as it is, so before the re-adding loop "the list without the listed children" is the list itself |
| ChildSequences.RemoveAllSelf | src/main/java/org/dotuseful/ui/tree/SortedTreeNode.java:165 | Removing every child of the list leaves it empty, so re-sorting all children removes all of them first |
| ChildSequences.UnchangedRestSorted | src/main/java/org/dotuseful/ui/tree/SortedTreeNode.java:216-231 | If only the listed children changed keys, the children not listed are still sorted under the new keys, which is what re-sorting the listed ones needs |
| ChildSequences.SortedUnique | src/main/java/org/dotuseful/ui/tree/SortedTreeNode.java:216-231 | When no two children tie, two sorted lists of the same children are equal, so a re-sort determines the child order completely |
| ChildSequences.ResortUnderReversedIsReverse | src/main/java/org/dotuseful/ui/tree/SortedTreeNode.java:163-166 | Children without ties, re-sorted under the reversed comparator, come out in exactly reversed order |
| Scenarios.ChangeKeyThenNotify | src/main/java/org/dotuseful/ui/tree/SortedTreeNode.java:63-66 | The documented protocol: after a child's key changes, a "nodes changed" event naming that child restores sorted order with the same children |
| Scenarios.ResortAfterKeyChange | src/main/java/org/dotuseful/ui/tree/SortedTreeNode.java:199-204 | Children 10, 11, 12 with keys 3, 1, 2 end up as [11, 12, 10]; raising 11's key to 5 and notifying gives [12, 10, 11] |
| Scenarios.ReverseOnComparatorSwap | src/main/java/org/dotuseful/ui/tree/SortedTreeNode.java:163-166 | Children sorted as [10, 11, 12] become [12, 11, 10] when the comparator is switched to the reversed natural ordering |
| Scenarios.AddToLeaf | src/main/java/org/dotuseful/ui/tree/SortedTreeNode.java:176-194 | Adding to a node that does not allow children fails with IllegalStateException and leaves it without children |
| Scenarios.DuplicateInChangeEvent | src/main/java/org/dotuseful/ui/tree/SortedTreeNode.java:220-231 | An event naming child 11 twice fails on the second removal, and 11 has been lost: the children are [10, 12] |
| Scenarios.FreshNodeCounterexample | src/main/java/org/dotuseful/ui/tree/SortedTreeNode.java:165 | On nodes that never had a child, `setComparator` and `treeStructureChanged` as written throw NullPointerException |
| Scenarios.FreshNodeCorrected | src/main/java/org/dotuseful/ui/tree/SortedTreeNode.java:163-166 | The corrected operations leave such nodes with no children and do not fail |

## Left out

- The Swing event objects are reduced to what the handlers read.
  `e.getTreePath().getLastPathComponent() == this` becomes the flag
  `targetsThis`, and `e.getChildren()` becomes the sequence `changed`.
  A null `getChildren()` array is not modelled.
- The `super.treeNodesChanged(e)` and `super.treeStructureChanged(e)` calls
  (lines 200 and 210) are left out. AutomatedTreeNode is not part of this
  model.
- Base-class `insert` normally detaches a child from a foreign parent and
  rejects an ancestor of the node. Neither is modelled: every child the
  model adds either has no parent or already belongs to this node.
- A null child is left out, and so is the IllegalArgumentException that
  `insert` throws for it.
- ClassCastException from a child that is not `Comparable` is left out.
  Keys are integers, so the natural ordering always exists.
- The user object and the convenience constructors (lines 82-132) are left
  out. They only supply defaults to the constructor that is modelled.
- Java `int` overflow cannot occur. Indices are bounded by the list size,
  and `(low + high) >>> 1` is computed as a plain halving.
- The child objects are modelled by identities and an integer key per
  identity. Their other state is left out.
- InsertionIndex: on a tie it does not promise the position before the first
  equal child, because `Collections.binarySearch` may return any tied
  position.
- Add: does not model the base class firing tree-model events on insertion
  or removal.

## Findings

| source | as written | input that shows it | evidently intended | confidence | as-written member | corrected member |
|---|---|---|---|---|---|---|
| src/main/java/org/dotuseful/ui/tree/SortedTreeNode.java:165 | `setComparator` re-sorts `children.toArray()` without checking that the child list exists | `setComparator` on a node that never had a child | set the comparator and re-sort nothing, as `add` does for a missing list on line 185 | medium, not executed; assumes AutomatedTreeNode creates the list lazily, as DefaultMutableTreeNode does | Scenarios.FreshNodeCounterexample | SortedTreeNodes.SortedTreeNode.SetComparator |
| src/main/java/org/dotuseful/ui/tree/SortedTreeNode.java:212 | `treeStructureChanged` re-sorts `children.toArray()` without checking that the child list exists | a "structure changed" event about a node that never had a child | re-sort nothing | medium, not executed; same assumption about AutomatedTreeNode | Scenarios.FreshNodeCounterexample | SortedTreeNodes.SortedTreeNode.TreeStructureChanged |
