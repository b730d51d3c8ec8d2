/**
 * Sequences of child identities, as a sorted tree node holds them, and the
 * facts about sortedness, removal and insertion the node's operations rely on.
 */
module ChildSequences {
  import opened Orderings

  /** The identity of a child node (object identity in the source). */
  type ChildId = nat

  /** What a node's `keyOf` gives: each child's current key. */
  type KeyMap = ChildId -> Key

  predicate Distinct(cs: seq<ChildId>) {
    forall i, j :: 0 <= i < j < |cs| ==> cs[i] != cs[j]
  }

  /** Non-decreasing under `o`, comparing children by their keys. */
  predicate Sorted(o: Ordering, key: KeyMap, cs: seq<ChildId>) {
    forall i, j :: 0 <= i < j < |cs| ==> Leq(o, key(cs[i]), key(cs[j]))
  }

  /**
   * Inserting `c` at `index` keeps `cs` sorted: nothing before the index
   * compares above `c`, nothing from the index on compares below it.
   */
  predicate IsInsertionPoint(o: Ordering, key: KeyMap, cs: seq<ChildId>, c: ChildId, index: int) {
    && 0 <= index <= |cs|
    && (forall j :: 0 <= j < index ==> Leq(o, key(cs[j]), key(c)))
    && (forall j :: index <= j < |cs| ==> Leq(o, key(c), key(cs[j])))
  }

  function InsertAt(cs: seq<ChildId>, index: nat, c: ChildId): (r: seq<ChildId>)
    requires index <= |cs|
    ensures |r| == |cs| + 1 && r[index] == c
    ensures multiset(r) == multiset(cs) + multiset{c}
  {
    assert cs == cs[..index] + cs[index..];
    cs[..index] + [c] + cs[index..]
  }

  /** `cs` with every occurrence of `c` taken out, the rest in order. */
  function Without(cs: seq<ChildId>, c: ChildId): seq<ChildId> {
    if cs == [] then []
    else if cs[0] == c then Without(cs[1..], c)
    else [cs[0]] + Without(cs[1..], c)
  }

  /** `cs` after taking out the children of `ds` one by one, in list order. */
  function RemoveAll(cs: seq<ChildId>, ds: seq<ChildId>): seq<ChildId> {
    if ds == [] then cs
    else Without(RemoveAll(cs, ds[..|ds| - 1]), ds[|ds| - 1])
  }

  function Reverse(cs: seq<ChildId>): (r: seq<ChildId>)
    ensures |r| == |cs|
    ensures forall i :: 0 <= i < |cs| ==> r[i] == cs[|cs| - 1 - i]
  {
    if cs == [] then [] else Reverse(cs[1..]) + [cs[0]]
  }

  // ---------------------------------------------------------------------------
  // Removal

  lemma {:induction false} WithoutMembers(cs: seq<ChildId>, c: ChildId)
    ensures forall x :: x in Without(cs, c) <==> x in cs && x != c
    ensures |Without(cs, c)| <= |cs|
  {
    if cs != [] {
      WithoutMembers(cs[1..], c);
      assert cs == [cs[0]] + cs[1..];
    }
  }

  lemma {:induction false} WithoutAbsent(cs: seq<ChildId>, c: ChildId)
    requires c !in cs
    ensures Without(cs, c) == cs
  {
    if cs != [] {
      WithoutAbsent(cs[1..], c);
      assert cs == [cs[0]] + cs[1..];
    }
  }

  lemma {:induction false} WithoutAppend(a: seq<ChildId>, b: seq<ChildId>, c: ChildId)
    ensures Without(a + b, c) == Without(a, c) + Without(b, c)
  {
    if a == [] {
      assert a + b == b;
    } else {
      assert (a + b)[1..] == a[1..] + b;
      WithoutAppend(a[1..], b, c);
    }
  }

  /** In a sequence without duplicates, Without takes out exactly one copy. */
  lemma {:induction false} WithoutMultiset(cs: seq<ChildId>, c: ChildId)
    requires Distinct(cs)
    ensures multiset(Without(cs, c)) == multiset(cs) - multiset{c}
  {
    if cs != [] {
      assert cs == [cs[0]] + cs[1..];
      assert Distinct(cs[1..]);
      WithoutMultiset(cs[1..], c);
      if cs[0] == c {
        assert c !in cs[1..];
        assert multiset(cs[1..])[c] == 0;
      }
    }
  }

  lemma WithoutSize(cs: seq<ChildId>, c: ChildId)
    requires Distinct(cs)
    ensures |Without(cs, c)| == if c in cs then |cs| - 1 else |cs|
  {
    WithoutMultiset(cs, c);
    assert |multiset(Without(cs, c))| == |Without(cs, c)| && |multiset(cs)| == |cs|;
  }

  lemma {:induction false} WithoutDistinct(cs: seq<ChildId>, c: ChildId)
    requires Distinct(cs)
    ensures Distinct(Without(cs, c))
  {
    if cs != [] {
      assert Distinct(cs[1..]);
      WithoutDistinct(cs[1..], c);
      WithoutMembers(cs[1..], c);
      assert cs[0] !in cs[1..];
    }
  }

  lemma {:induction false} SortedCons(o: Ordering, key: KeyMap, x: ChildId, cs: seq<ChildId>)
    requires Sorted(o, key, cs)
    requires forall y :: y in cs ==> Leq(o, key(x), key(y))
    ensures Sorted(o, key, [x] + cs)
  {
    var s := [x] + cs;
    forall i, j | 0 <= i < j < |s| ensures Leq(o, key(s[i]), key(s[j])) {
      if i == 0 {
        assert s[j] == cs[j - 1] && s[j] in cs;
      } else {
        assert s[i] == cs[i - 1] && s[j] == cs[j - 1];
      }
    }
  }

  /** Taking a child out of a sorted sequence leaves it sorted. */
  lemma {:induction false} WithoutSorted(o: Ordering, key: KeyMap, cs: seq<ChildId>, c: ChildId)
    requires Sorted(o, key, cs)
    ensures Sorted(o, key, Without(cs, c))
  {
    if cs != [] {
      assert Sorted(o, key, cs[1..]);
      WithoutSorted(o, key, cs[1..], c);
      if cs[0] != c {
        WithoutMembers(cs[1..], c);
        forall y | y in Without(cs[1..], c) ensures Leq(o, key(cs[0]), key(y)) {
          var j :| 0 <= j < |cs[1..]| && cs[1..][j] == y;
          assert cs[j + 1] == y;
        }
        SortedCons(o, key, cs[0], Without(cs[1..], c));
      }
    }
  }

  lemma {:induction false} RemoveAllMembers(cs: seq<ChildId>, ds: seq<ChildId>)
    ensures forall x :: x in RemoveAll(cs, ds) <==> x in cs && x !in ds
  {
    if ds != [] {
      var init := ds[..|ds| - 1];
      RemoveAllMembers(cs, init);
      WithoutMembers(RemoveAll(cs, init), ds[|ds| - 1]);
      assert ds == init + [ds[|ds| - 1]];
    }
  }

  lemma {:induction false} RemoveAllSorted(o: Ordering, key: KeyMap, cs: seq<ChildId>, ds: seq<ChildId>)
    requires Sorted(o, key, cs)
    ensures Sorted(o, key, RemoveAll(cs, ds))
  {
    if ds != [] {
      RemoveAllSorted(o, key, cs, ds[..|ds| - 1]);
      WithoutSorted(o, key, RemoveAll(cs, ds[..|ds| - 1]), ds[|ds| - 1]);
    }
  }

  /**
   * Changing the keys of some children, then taking exactly those out,
   * leaves the rest sorted under the new keys.
   */
  lemma UnchangedRestSorted(o: Ordering, key: KeyMap, newKey: KeyMap, cs: seq<ChildId>, ds: seq<ChildId>)
    requires Sorted(o, key, cs)
    requires forall x :: x !in ds ==> newKey(x) == key(x)
    ensures Sorted(o, newKey, RemoveAll(cs, ds))
  {
    RemoveAllSorted(o, key, cs, ds);
    RemoveAllMembers(cs, ds);
    var r := RemoveAll(cs, ds);
    forall i, j | 0 <= i < j < |r| ensures Leq(o, newKey(r[i]), newKey(r[j])) {
      assert r[i] in r && r[j] in r;
    }
  }

  lemma {:induction false} WithoutCommutes(cs: seq<ChildId>, a: ChildId, b: ChildId)
    ensures Without(Without(cs, a), b) == Without(Without(cs, b), a)
  {
    if cs != [] {
      WithoutCommutes(cs[1..], a, b);
    }
  }

  /** Taking out `c` before the listed children, or after them, comes to the same. */
  lemma {:induction false} RemoveAllWithout(cs: seq<ChildId>, c: ChildId, ds: seq<ChildId>)
    ensures RemoveAll(Without(cs, c), ds) == Without(RemoveAll(cs, ds), c)
  {
    if ds != [] {
      var init, d := ds[..|ds| - 1], ds[|ds| - 1];
      RemoveAllWithout(cs, c, init);
      WithoutCommutes(RemoveAll(cs, init), c, d);
    }
  }

  /**
   * Two child lists that agree once a listed child `c` is taken out agree
   * once all listed children are: removing the listed children forgets
   * where `c` was.
   */
  lemma AgreeOutsideListed(cs: seq<ChildId>, ds: seq<ChildId>, c: ChildId, ls: seq<ChildId>)
    requires Without(cs, c) == Without(ds, c) && c in ls
    ensures RemoveAll(cs, ls) == RemoveAll(ds, ls)
  {
    RemoveAllWithout(cs, c, ls);
    RemoveAllWithout(ds, c, ls);
    RemoveAllMembers(cs, ls);
    RemoveAllMembers(ds, ls);
    WithoutAbsent(RemoveAll(cs, ls), c);
    WithoutAbsent(RemoveAll(ds, ls), c);
  }

  /** Removing children that are not there changes nothing. */
  lemma {:induction false} RemoveAllAbsent(cs: seq<ChildId>, ds: seq<ChildId>)
    requires forall d :: d in ds ==> d !in cs
    ensures RemoveAll(cs, ds) == cs
  {
    if ds != [] {
      var init, d := ds[..|ds| - 1], ds[|ds| - 1];
      assert d in ds;
      assert forall x :: x in init ==> x in ds;
      RemoveAllAbsent(cs, init);
      WithoutAbsent(cs, d);
    }
  }

  /** The prefix of length `k + 1` extends the one of length `k`; kept apart so a loop's proof stays small. */
  lemma PrefixStep(ds: seq<ChildId>, k: nat)
    requires k < |ds|
    ensures ds[..k + 1] == ds[..k] + [ds[k]]
  {
  }

  /** Removing the next listed child extends the removal by one step. */
  lemma RemoveAllStep(cs: seq<ChildId>, ds: seq<ChildId>, k: nat)
    requires k < |ds|
    ensures RemoveAll(cs, ds[..k + 1]) == Without(RemoveAll(cs, ds[..k]), ds[k])
  {
    assert ds[..k + 1][..k] == ds[..k];
  }

  // ---------------------------------------------------------------------------
  // Insertion

  /** Inserting at an insertion point keeps a sorted sequence sorted. */
  lemma InsertAtSorted(o: Ordering, key: KeyMap, cs: seq<ChildId>, c: ChildId, index: nat)
    requires IsTotalPreorder(o)
    requires Sorted(o, key, cs) && IsInsertionPoint(o, key, cs, c, index)
    ensures Sorted(o, key, InsertAt(cs, index, c))
  {
    var s := InsertAt(cs, index, c);
    forall i, j | 0 <= i < j < |s| ensures Leq(o, key(s[i]), key(s[j])) {
      var ci := if i < index then i else i - 1;
      var cj := if j <= index then j else j - 1;
      if i != index && j != index {
        assert s[i] == cs[ci] && s[j] == cs[cj];
      } else if i == index {
        assert s[j] == cs[cj];
      } else {
        assert s[i] == cs[ci];
      }
    }
  }

  lemma InsertAtDistinct(cs: seq<ChildId>, c: ChildId, index: nat)
    requires Distinct(cs) && c !in cs && index <= |cs|
    ensures Distinct(InsertAt(cs, index, c))
  {
    var s := InsertAt(cs, index, c);
    forall i, j | 0 <= i < j < |s| ensures s[i] != s[j] {
      var ci := if i < index then i else i - 1;
      var cj := if j <= index then j else j - 1;
      if i != index && j != index {
        assert s[i] == cs[ci] && s[j] == cs[cj];
      } else if i == index {
        assert s[j] == cs[cj];
      } else {
        assert s[i] == cs[ci];
      }
    }
  }

  /** A position the search found holding a child that compares equal is an insertion point. */
  lemma FoundIsInsertionPoint(o: Ordering, key: KeyMap, cs: seq<ChildId>, c: ChildId, k: nat)
    requires IsTotalPreorder(o) && Sorted(o, key, cs)
    requires k < |cs| && Compare(o, key(cs[k]), key(c)) == 0
    ensures IsInsertionPoint(o, key, cs, c, k)
  {
    CompareSignFlips(o, key(cs[k]), key(c));
    forall j | 0 <= j < k ensures Leq(o, key(cs[j]), key(c)) {
      LeqTrans(o, key(cs[j]), key(cs[k]), key(c));
    }
    forall j | k < j < |cs| ensures Leq(o, key(c), key(cs[j])) {
      LeqTrans(o, key(c), key(cs[k]), key(cs[j]));
    }
  }

  /** Removing every child of a sequence from it leaves nothing. */
  lemma RemoveAllSelf(cs: seq<ChildId>)
    ensures RemoveAll(cs, cs) == []
  {
    var r := RemoveAll(cs, cs);
    assert r != [] ==> r[0] in r;
    RemoveAllMembers(cs, cs);
  }

  /** Inserting a child not yet present and taking it out again gives back the sequence. */
  lemma WithoutInsertAt(cs: seq<ChildId>, c: ChildId, index: nat)
    requires c !in cs && index <= |cs|
    ensures Without(InsertAt(cs, index, c), c) == cs
  {
    var a, b := cs[..index], cs[index..];
    assert InsertAt(cs, index, c) == (a + [c]) + b;
    assert c !in a && c !in b;
    WithoutAppend(a + [c], b, c);
    WithoutAppend(a, [c], c);
    assert Without([c], c) == Without([], c);
    WithoutAbsent(a, c);
    WithoutAbsent(b, c);
    assert a + b == cs;
  }

  // ---------------------------------------------------------------------------
  // Uniqueness of the sorted order

  /** No two different children of `cs` have keys the ordering calls equal. */
  predicate KeysStrict(o: Ordering, key: KeyMap, cs: seq<ChildId>) {
    forall i, j :: 0 <= i < |cs| && 0 <= j < |cs| && cs[i] != cs[j] ==> Compare(o, key(cs[i]), key(cs[j])) != 0
  }

  /** Two sorted sequences of the same children, no two of them tying, start with the same child. */
  lemma SortedHeadsEqual(o: Ordering, key: KeyMap, s: seq<ChildId>, t: seq<ChildId>)
    requires IsTotalPreorder(o)
    requires Sorted(o, key, s) && Sorted(o, key, t) && multiset(s) == multiset(t)
    requires KeysStrict(o, key, s) && s != []
    ensures t != [] && s[0] == t[0]
  {
    assert s[0] in multiset(t);
    var j :| 0 <= j < |t| && t[j] == s[0];
    assert t[0] in multiset(s);
    var i :| 0 <= i < |s| && s[i] == t[0];
    if s[0] != t[0] {
      assert Leq(o, key(t[0]), key(t[j]));
      assert Leq(o, key(s[0]), key(s[i]));
      LtIsNotReverseLeq(o, key(s[0]), key(t[0]));
      assert false;
    }
  }

  lemma SortedTail(o: Ordering, key: KeyMap, s: seq<ChildId>)
    requires s != [] && Sorted(o, key, s)
    ensures Sorted(o, key, s[1..])
    ensures multiset(s[1..]) == multiset(s) - multiset{s[0]}
  {
    assert s == [s[0]] + s[1..];
    forall i, j | 0 <= i < j < |s[1..]| ensures Leq(o, key(s[1..][i]), key(s[1..][j])) {
      assert s[1..][i] == s[i + 1] && s[1..][j] == s[j + 1];
    }
  }

  lemma KeysStrictTail(o: Ordering, key: KeyMap, s: seq<ChildId>)
    requires s != [] && KeysStrict(o, key, s)
    ensures KeysStrict(o, key, s[1..])
  {
    var t := s[1..];
    forall i, j | 0 <= i < |t| && 0 <= j < |t| && t[i] != t[j]
      ensures Compare(o, key(t[i]), key(t[j])) != 0
    {
      assert t[i] == s[i + 1] && t[j] == s[j + 1];
    }
  }

  /**
   * When no two children tie, there is only one sorted arrangement of them:
   * any two sorted sequences of the same children are equal.
   */
  lemma {:induction false} SortedUnique(o: Ordering, key: KeyMap, s: seq<ChildId>, t: seq<ChildId>)
    requires IsTotalPreorder(o)
    requires Sorted(o, key, s) && Sorted(o, key, t) && multiset(s) == multiset(t)
    requires KeysStrict(o, key, s)
    ensures s == t
  {
    assert |s| == |multiset(s)| == |multiset(t)| == |t|;
    if s != [] {
      SortedHeadsEqual(o, key, s, t);
      SortedTail(o, key, s);
      SortedTail(o, key, t);
      KeysStrictTail(o, key, s);
      SortedUnique(o, key, s[1..], t[1..]);
      assert s == [s[0]] + s[1..] && t == [t[0]] + t[1..];
    }
  }

  /** A sequence sorted under an ordering, reversed, is sorted under the reversed ordering. */
  lemma ReverseSorted(o: Ordering, key: KeyMap, cs: seq<ChildId>)
    requires Sorted(o, key, cs)
    ensures Sorted(Reversed(o), key, Reverse(cs))
  {
    var r := Reverse(cs);
    forall i, j | 0 <= i < j < |r| ensures Leq(Reversed(o), key(r[i]), key(r[j])) {
      assert r[i] == cs[|cs| - 1 - i] && r[j] == cs[|cs| - 1 - j];
    }
  }

  lemma {:induction false} ReverseMultiset(cs: seq<ChildId>)
    ensures multiset(Reverse(cs)) == multiset(cs)
  {
    if cs != [] {
      ReverseMultiset(cs[1..]);
      assert cs == [cs[0]] + cs[1..];
    }
  }

  /**
   * Re-sorting children that are in ascending order under a reversed
   * comparator, when no two of them tie, yields exactly their reverse.
   */
  lemma ResortUnderReversedIsReverse(o: Ordering, key: KeyMap, s: seq<ChildId>, t: seq<ChildId>)
    requires IsTotalPreorder(o)
    requires Sorted(o, key, s) && KeysStrict(o, key, s)
    requires Sorted(Reversed(o), key, t) && multiset(t) == multiset(s)
    ensures t == Reverse(s)
  {
    ReversedIsTotalPreorder(o);
    ReverseSorted(o, key, s);
    ReverseMultiset(s);
    var rs := Reverse(s);
    forall i, j | 0 <= i < |rs| && 0 <= j < |rs| && rs[i] != rs[j]
      ensures Compare(Reversed(o), key(rs[i]), key(rs[j])) != 0
    {
      assert rs[i] == s[|s| - 1 - i] && rs[j] == s[|s| - 1 - j];
    }
    SortedUnique(Reversed(o), key, rs, t);
  }
}
