/**
 What it means for SortLinkedList to sort: sequences ordered by a three-way comparator, stability, and
 the count of inversions that bubble sort uses up.
 */
module Sorting {

  /** The comparator is a total preorder on the elements of `dom`; only the sign of its result counts. */
  ghost predicate TotalPreorder<T>(cmp: (T, T) -> int, dom: seq<T>) {
    && (forall a, b :: a in dom && b in dom ==> (cmp(a, b) < 0 <==> cmp(b, a) > 0))
    && (forall a, b, c :: a in dom && b in dom && c in dom && cmp(a, b) <= 0 && cmp(b, c) <= 0 ==> cmp(a, c) <= 0)
  }

  /** A comparator that goes by a rank, ties included, is one on all elements. */
  lemma RankedIsPreorder<T>(cmp: (T, T) -> int, rank: T -> int, dom: seq<T>)
    requires forall a, b :: a in dom && b in dom ==> (cmp(a, b) < 0 <==> rank(a) < rank(b))
    requires forall a, b :: a in dom && b in dom ==> (cmp(a, b) > 0 <==> rank(a) > rank(b))
    ensures TotalPreorder(cmp, dom)
  {
  }

  /** Two elements in the order a, b that the sort would swap. */
  predicate OutOfOrder<T>(cmp: (T, T) -> int, ascending: bool, a: T, b: T) {
    if ascending then cmp(a, b) > 0 else cmp(a, b) < 0
  }

  ghost predicate Sorted<T>(cmp: (T, T) -> int, ascending: bool, s: seq<T>) {
    forall i, j :: 0 <= i < j < |s| ==> !OutOfOrder(cmp, ascending, s[i], s[j])
  }

  /** The elements of s that compare equal to x, in the order in which they occur. */
  ghost function Class<T>(cmp: (T, T) -> int, s: seq<T>, x: T): seq<T> {
    if s == [] then []
    else (if cmp(x, s[0]) == 0 then [s[0]] else []) + Class(cmp, s[1..], x)
  }

  ghost predicate Over<T>(s: seq<T>, dom: seq<T>) {
    forall x :: x in s ==> x in dom
  }

  /** Elements that compare equal keep their order, so nothing is lost or made up either. */
  ghost predicate SameClasses<T>(cmp: (T, T) -> int, s: seq<T>, r: seq<T>, dom: seq<T>) {
    forall x :: x in dom ==> Class(cmp, s, x) == Class(cmp, r, x)
  }

  function SwapAt<T>(s: seq<T>, k: nat): (r: seq<T>)
    requires k + 1 < |s|
  {
    s[k := s[k + 1]][k + 1 := s[k]]
  }

  function CountBefore<T>(cmp: (T, T) -> int, ascending: bool, a: T, s: seq<T>): nat {
    if s == [] then 0
    else (if OutOfOrder(cmp, ascending, a, s[0]) then 1 else 0) + CountBefore(cmp, ascending, a, s[1..])
  }

  /** The number of pairs that are out of order. */
  function Inversions<T>(cmp: (T, T) -> int, ascending: bool, s: seq<T>): nat {
    if s == [] then 0 else CountBefore(cmp, ascending, s[0], s[1..]) + Inversions(cmp, ascending, s[1..])
  }

  lemma SwapTail<T>(s: seq<T>, k: nat)
    requires 0 < k && k + 1 < |s|
    ensures SwapAt(s, k)[0] == s[0] && SwapAt(s, k)[1..] == SwapAt(s[1..], k - 1)
  {
  }

  lemma SwapFirst<T>(s: seq<T>)
    requires |s| > 1
    ensures SwapAt(s, 0) == [s[1], s[0]] + s[2..] && s == [s[0], s[1]] + s[2..]
    ensures SwapAt(s, 0)[1..] == [s[0]] + s[2..] && s[1..] == [s[1]] + s[2..]
    ensures s[1..][1..] == s[2..] && SwapAt(s, 0)[1..][1..] == s[2..]
  {
  }

  lemma {:induction false} SwapKeepsCount<T>(cmp: (T, T) -> int, ascending: bool, a: T, s: seq<T>, k: nat)
    requires k + 1 < |s|
    ensures CountBefore(cmp, ascending, a, SwapAt(s, k)) == CountBefore(cmp, ascending, a, s)
  {
    if k == 0 {
      SwapFirst(s);
    } else {
      SwapTail(s, k);
      SwapKeepsCount(cmp, ascending, a, s[1..], k - 1);
    }
  }

  /** Swapping neighbours that are out of order removes exactly one inversion. */
  lemma {:induction false} SwapRemovesInversion<T>(cmp: (T, T) -> int, ascending: bool, s: seq<T>, k: nat)
    requires k + 1 < |s| && TotalPreorder(cmp, s) && OutOfOrder(cmp, ascending, s[k], s[k + 1])
    ensures Inversions(cmp, ascending, SwapAt(s, k)) == Inversions(cmp, ascending, s) - 1
  {
    if k == 0 {
      SwapFirst(s);
      assert s[0] in s && s[1] in s;
    } else {
      SwapTail(s, k);
      assert forall x :: x in s[1..] ==> x in s;
      SwapRemovesInversion(cmp, ascending, s[1..], k - 1);
      SwapKeepsCount(cmp, ascending, s[0], s[1..], k - 1);
    }
  }

  lemma {:induction false} SwapKeepsClass<T>(cmp: (T, T) -> int, s: seq<T>, k: nat, dom: seq<T>, x: T)
    requires k + 1 < |s| && TotalPreorder(cmp, dom) && Over(s, dom) && x in dom
    requires cmp(s[k], s[k + 1]) != 0
    ensures Class(cmp, SwapAt(s, k), x) == Class(cmp, s, x)
  {
    if k == 0 {
      SwapFirst(s);
      assert s[0] in dom && s[1] in dom;
    } else {
      SwapTail(s, k);
      SwapKeepsClass(cmp, s[1..], k - 1, dom, x);
    }
  }

  /** The first k + 1 elements are pairwise in order with their neighbours. */
  ghost predicate NeighboursOrdered<T>(cmp: (T, T) -> int, ascending: bool, s: seq<T>, k: nat) {
    k < |s| && forall i :: 0 <= i < k ==> !OutOfOrder(cmp, ascending, s[i], s[i + 1])
  }

  lemma TotalOver<T>(cmp: (T, T) -> int, s: seq<T>, dom: seq<T>)
    requires TotalPreorder(cmp, dom) && Over(s, dom)
    ensures TotalPreorder(cmp, s)
  {
  }

  /** What the swap of a pair out of order brings: one inversion less, and no class disturbed. */
  lemma SwapHelps<T>(cmp: (T, T) -> int, ascending: bool, s: seq<T>, k: nat, dom: seq<T>)
    requires k + 1 < |s| && TotalPreorder(cmp, dom) && Over(s, dom)
    requires OutOfOrder(cmp, ascending, s[k], s[k + 1])
    ensures var r := SwapAt(s, k);
            && Inversions(cmp, ascending, r) < Inversions(cmp, ascending, s)
            && Over(r, dom) && SameClasses(cmp, s, r, dom)
  {
    TotalOver(cmp, s, dom);
    SwapRemovesInversion(cmp, ascending, s, k);
    forall x | x in dom
      ensures Class(cmp, s, x) == Class(cmp, SwapAt(s, k), x)
    {
      SwapKeepsClass(cmp, s, k, dom, x);
    }
  }

  /** With no neighbours out of order, no pair is. */
  lemma {:induction false} NeighboursSuffice<T>(cmp: (T, T) -> int, ascending: bool, s: seq<T>, i: nat, j: nat)
    requires TotalPreorder(cmp, s) && i < j < |s| && NeighboursOrdered(cmp, ascending, s, |s| - 1)
    ensures !OutOfOrder(cmp, ascending, s[i], s[j])
  {
    assert s[i] in s && s[j] in s && s[j - 1] in s;
    assert !OutOfOrder(cmp, ascending, s[j - 1], s[j - 1 + 1]);
    if i + 1 < j {
      NeighboursSuffice(cmp, ascending, s, i, j - 1);
    }
  }

  lemma OrderedIsSorted<T>(cmp: (T, T) -> int, ascending: bool, s: seq<T>, dom: seq<T>)
    requires TotalPreorder(cmp, dom) && Over(s, dom) && s != [] && NeighboursOrdered(cmp, ascending, s, |s| - 1)
    ensures Sorted(cmp, ascending, s)
  {
    TotalOver(cmp, s, dom);
    forall i, j | 0 <= i < j < |s|
      ensures !OutOfOrder(cmp, ascending, s[i], s[j])
    {
      NeighboursSuffice(cmp, ascending, s, i, j);
    }
  }

  lemma {:induction false} ClassCounts<T>(cmp: (T, T) -> int, s: seq<T>, x: T)
    requires cmp(x, x) == 0
    ensures multiset(Class(cmp, s, x))[x] == multiset(s)[x]
  {
    if s != [] {
      ClassCounts(cmp, s[1..], x);
      assert s == [s[0]] + s[1..];
    }
  }

  lemma {:induction false} ClassMembers<T>(cmp: (T, T) -> int, s: seq<T>, x: T)
    ensures forall y :: y in Class(cmp, s, x) <==> y in s && cmp(x, y) == 0
  {
    if s != [] {
      ClassMembers(cmp, s[1..], x);
      assert s == [s[0]] + s[1..];
    }
  }

  /** A stable rearrangement is a permutation. */
  lemma SameClassesIsPermutation<T>(cmp: (T, T) -> int, s: seq<T>, r: seq<T>, dom: seq<T>)
    requires TotalPreorder(cmp, dom) && Over(s, dom) && Over(r, dom) && SameClasses(cmp, s, r, dom)
    ensures multiset(s) == multiset(r)
  {
    forall x | x in multiset(s) || x in multiset(r)
      ensures multiset(s)[x] == multiset(r)[x]
    {
      assert x in s || x in r;
      ClassCounts(cmp, s, x);
      ClassCounts(cmp, r, x);
    }
  }

  /** Order and stability leave no choice: there is only one such arrangement of the same elements. */
  lemma {:induction false} StableSortIsUnique<T>(cmp: (T, T) -> int, ascending: bool, s: seq<T>, r: seq<T>, dom: seq<T>)
    requires TotalPreorder(cmp, dom) && Over(s, dom) && Over(r, dom) && SameClasses(cmp, s, r, dom)
    requires Sorted(cmp, ascending, s) && Sorted(cmp, ascending, r)
    ensures s == r
    decreases |s|
  {
    if s == [] || r == [] {
      SameClassesIsPermutation(cmp, s, r, dom);
      assert |s| == |multiset(s)| && |r| == |multiset(r)|;
    } else {
      FirstsAgree(cmp, ascending, s, r, dom);
      TailsAgree(cmp, s, r, dom);
      StableSortIsUnique(cmp, ascending, s[1..], r[1..], dom);
      assert s == [s[0]] + s[1..] && r == [r[0]] + r[1..];
    }
  }

  lemma TailsAgree<T>(cmp: (T, T) -> int, s: seq<T>, r: seq<T>, dom: seq<T>)
    requires SameClasses(cmp, s, r, dom) && s != [] && r != [] && s[0] == r[0]
    ensures SameClasses(cmp, s[1..], r[1..], dom)
  {
    forall x | x in dom
      ensures Class(cmp, s[1..], x) == Class(cmp, r[1..], x)
    {
      var first := if cmp(x, s[0]) == 0 then [s[0]] else [];
      assert Class(cmp, s, x) == first + Class(cmp, s[1..], x);
      assert Class(cmp, r, x) == first + Class(cmp, r[1..], x);
      assert Class(cmp, s[1..], x) == Class(cmp, s, x)[|first|..];
    }
  }

  lemma FirstsAgree<T>(cmp: (T, T) -> int, ascending: bool, s: seq<T>, r: seq<T>, dom: seq<T>)
    requires TotalPreorder(cmp, dom) && Over(s, dom) && Over(r, dom) && SameClasses(cmp, s, r, dom)
    requires Sorted(cmp, ascending, s) && Sorted(cmp, ascending, r) && s != [] && r != []
    ensures s[0] == r[0]
  {
    var a, b := s[0], r[0];
    assert a in s && b in r;
    SameClassesIsPermutation(cmp, s, r, dom);
    assert a in multiset(r) && b in multiset(s);
    var i :| 0 <= i < |r| && r[i] == a;
    var j :| 0 <= j < |s| && s[j] == b;
    assert cmp(a, b) == 0;
    assert Class(cmp, s, a)[0] == a && Class(cmp, r, a)[0] == b;
  }
}
