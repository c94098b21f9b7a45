/** Sorting by a key, as `qsort` is used here: the comparison looks at the key only, so the order of
    elements with equal keys is nobody's business but the sort's. */
module Sorting {

  predicate Ascending<T>(s: seq<T>, key: T -> int) {
    forall i, j | 0 <= i < j < |s| :: key(s[i]) <= key(s[j])
  }

  ghost predicate SortedPermutation<T>(s: seq<T>, of: seq<T>, key: T -> int) {
    Ascending(s, key) && multiset(s) == multiset(of)
  }

  function Insert<T>(x: T, s: seq<T>, key: T -> int): seq<T>
    decreases |s|
  {
    if s == [] || key(x) <= key(s[0]) then [x] + s else [s[0]] + Insert(x, s[1..], key)
  }

  function SortBy<T>(s: seq<T>, key: T -> int): (r: seq<T>)
    decreases |s|
  {
    if s == [] then [] else Insert(s[0], SortBy(s[1..], key), key)
  }

  lemma {:induction false} InsertPermutes<T>(x: T, s: seq<T>, key: T -> int)
    ensures multiset(Insert(x, s, key)) == multiset{x} + multiset(s)
    decreases |s|
  {
    if s != [] && key(x) > key(s[0]) {
      InsertPermutes(x, s[1..], key);
      assert s == [s[0]] + s[1..];
    }
  }

  lemma AscendingCons<T>(x: T, s: seq<T>, key: T -> int)
    requires Ascending(s, key) && forall y | y in s :: key(x) <= key(y)
    ensures Ascending([x] + s, key)
  {
  }

  lemma InsertMembers<T>(x: T, s: seq<T>, key: T -> int)
    ensures forall y | y in Insert(x, s, key) :: y == x || y in s
  {
    InsertPermutes(x, s, key);
    forall y | y in Insert(x, s, key)
      ensures y == x || y in s
    {
      assert y in multiset(Insert(x, s, key));
    }
  }

  lemma {:induction false} InsertAscends<T>(x: T, s: seq<T>, key: T -> int)
    requires Ascending(s, key)
    ensures Ascending(Insert(x, s, key), key)
    decreases |s|
  {
    if s == [] || key(x) <= key(s[0]) {
      AscendingCons(x, s, key);
    } else {
      InsertAscends(x, s[1..], key);
      InsertMembers(x, s[1..], key);
      AscendingCons(s[0], Insert(x, s[1..], key), key);
    }
  }

  lemma {:induction false} SortBySorts<T>(s: seq<T>, key: T -> int)
    ensures SortedPermutation(SortBy(s, key), s, key)
    decreases |s|
  {
    if s != [] {
      SortBySorts(s[1..], key);
      InsertAscends(s[0], SortBy(s[1..], key), key);
      InsertPermutes(s[0], SortBy(s[1..], key), key);
      assert s == [s[0]] + s[1..];
    }
  }

  lemma PermutationLength<T>(a: seq<T>, b: seq<T>)
    requires multiset(a) == multiset(b)
    ensures |a| == |b|
    ensures forall x :: x in a <==> x in b
  {
    assert |a| == |multiset(a)| == |multiset(b)| == |b|;
    forall x
      ensures x in a <==> x in b
    {
      assert x in a <==> x in multiset(a);
    }
  }

  /** A sort that is fixed but unknown: any function that returns a sorted permutation of its argument. */
  type Order<!T> = seq<T> -> seq<T>

  ghost predicate IsSort<T(!new)>(order: Order<T>, key: T -> int) {
    forall s: seq<T> :: SortedPermutation(order(s), s, key)
  }

  /** Such sorts exist. */
  lemma InsertionSortIsSort<T(!new)>(key: T -> int)
    ensures IsSort((s: seq<T>) => SortBy(s, key), key)
  {
    forall s: seq<T>
      ensures SortedPermutation(SortBy(s, key), s, key)
    {
      SortBySorts(s, key);
    }
  }

  /** `qsort` on the first `n` elements of `a`, by whatever sort the C library provides. */
  method Qsort<T(!new)>(a: array<T>, n: nat, order: Order<T>, ghost key: T -> int)
    requires n <= a.Length && IsSort(order, key)
    modifies a
    ensures a[..n] == order(old(a[..n]))
    ensures a[n..] == old(a[n..])
  {
    var sorted := order(a[..n]);
    PermutationLength(sorted, a[..n]);
    var i := 0;
    while i < n
      invariant i <= n
      invariant a[..i] == sorted[..i]
      invariant a[n..] == old(a[n..])
    {
      a[i] := sorted[i];
      i := i + 1;
    }
  }

  // ---- Floor search ----

  /** `x` has the greatest key of `s` not above `probe`. */
  ghost predicate IsFloor<T>(s: seq<T>, key: T -> int, probe: int, x: T) {
    x in s && key(x) <= probe && forall y | y in s :: key(y) <= probe ==> key(y) <= key(x)
  }

  ghost predicate HasFloor<T>(s: seq<T>, key: T -> int, probe: int) {
    exists x :: x in s && key(x) <= probe
  }

  /** When the first `lo` keys are the ones not above the probe, the last of them is a floor. */
  lemma SplitIsFloor<T>(s: seq<T>, key: T -> int, probe: int, lo: nat)
    requires lo <= |s| && Ascending(s, key)
    requires forall k | 0 <= k < lo :: key(s[k]) <= probe
    requires forall k | lo <= k < |s| :: key(s[k]) > probe
    ensures HasFloor(s, key, probe) <==> lo > 0
    ensures lo > 0 ==> IsFloor(s, key, probe, s[lo - 1])
  {
    if lo > 0 {
      assert s[lo - 1] in s;
    }
  }

  /** The binary search shared by the row table and the symbol index: the last position whose key is not
      above the probe. */
  method FloorIndex<T>(a: array<T>, n: nat, key: T -> int, probe: int) returns (found: bool, best: nat)
    requires n <= a.Length && Ascending(a[..n], key)
    ensures found <==> HasFloor(a[..n], key, probe)
    ensures found ==> best < n && key(a[best]) <= probe && IsFloor(a[..n], key, probe, a[best])
    ensures found ==> forall k | best < k < n :: key(a[k]) > probe
  {
    hide IsFloor, HasFloor;
    ghost var s := a[..n];
    var lo, hi := 0, n;
    found, best := false, 0;
    while lo < hi
      invariant lo <= hi <= n
      invariant found <==> lo > 0
      invariant found ==> best == lo - 1
      invariant forall k | 0 <= k < lo :: key(s[k]) <= probe
      invariant forall k | hi <= k < n :: key(s[k]) > probe
    {
      var mid := lo + (hi - lo) / 2;
      assert a[mid] == s[mid];
      if key(a[mid]) <= probe {
        found, best := true, mid;
        lo := mid + 1;
      } else {
        hi := mid;
      }
    }
    SplitIsFloor(s, key, probe, lo);
  }

  /** A permutation has the same floors. */
  lemma FloorOfPermutation<T>(a: seq<T>, b: seq<T>, key: T -> int, probe: int, x: T)
    requires multiset(a) == multiset(b)
    ensures IsFloor(a, key, probe, x) <==> IsFloor(b, key, probe, x)
    ensures HasFloor(a, key, probe) <==> HasFloor(b, key, probe)
  {
    PermutationLength(a, b);
  }
}
