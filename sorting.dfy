/** Sorting a finite set into a strictly ordered sequence. Both sources call
    a library sort (Python's `sorted`, C++'s `std::sort`, and the ordered
    iteration of `std::set`); this module gives that call a definition and
    the contract the sources rely on. */
module Sorting {

  /** `less` is a strict total order: irreflexive, transitive and connected. */
  ghost predicate IsStrictOrder<T(!new)>(less: (T, T) -> bool) {
    && (forall x :: !less(x, x))
    && (forall x, y, z :: less(x, y) && less(y, z) ==> less(x, z))
    && (forall x, y :: x != y ==> less(x, y) || less(y, x))
  }

  /** Every earlier element comes strictly before every later one. */
  ghost predicate SortedBy<T>(less: (T, T) -> bool, s: seq<T>) {
    forall i, j :: 0 <= i < j < |s| ==> less(s[i], s[j])
  }

  /** Inserts a new element into a strictly sorted sequence. */
  function InsertSorted<T(!new)>(less: (T, T) -> bool, s: seq<T>, x: T): (r: seq<T>)
    requires IsStrictOrder(less) && SortedBy(less, s) && x !in s
    ensures SortedBy(less, r)
    ensures multiset(r) == multiset(s) + multiset{x}
  {
    if s == [] then [x]
    else if less(x, s[0]) then
      assert forall j :: 0 <= j < |s| ==> less(x, s[j]);
      [x] + s
    else
      var t := InsertSorted(less, s[1..], x);
      assert s == [s[0]] + s[1..];
      assert less(s[0], x);
      assert forall j :: 0 <= j < |t| ==> less(s[0], t[j]) by {
        forall j | 0 <= j < |t| ensures less(s[0], t[j]) {
          assert t[j] in multiset(t);
          assert t[j] == x || t[j] in s[1..];
        }
      }
      [s[0]] + t
  }

  /** The elements of `s` in strictly ascending order of `less`: a sorted
      permutation of the set. */
  method SortSet<T(==,!new)>(less: (T, T) -> bool, s: set<T>) returns (r: seq<T>)
    requires IsStrictOrder(less)
    ensures SortedBy(less, r)
    ensures multiset(r) == multiset(s)
  {
    r := [];
    var rest := s;
    while rest != {}
      invariant rest <= s
      invariant SortedBy(less, r)
      invariant multiset(r) == multiset(s - rest)
      decreases rest
    {
      var x :| x in rest;
      assert x !in multiset(s - rest);
      r := InsertSorted(less, r, x);
      assert s - (rest - {x}) == (s - rest) + {x};
      rest := rest - {x};
    }
  }

  /** A strictly sorted sequence has no repeated element, so a sorted
      permutation of a set has the set's size. */
  lemma {:induction false} SortedHasSetSize<T(!new)>(less: (T, T) -> bool, r: seq<T>, s: set<T>)
    requires IsStrictOrder(less) && SortedBy(less, r) && multiset(r) == multiset(s)
    ensures |r| == |s|
    ensures forall x :: x in s <==> x in r
  {
    assert |multiset(r)| == |r|;
    assert |multiset(s)| == |s|;
    forall x ensures x in s <==> x in r {
      assert x in multiset(s) <==> x in s;
      assert x in multiset(r) <==> x in r;
    }
  }

  /** Two strictly sorted sequences with the same elements are equal: a
      sorted output does not depend on the order in which the set was
      enumerated. */
  lemma {:induction false} SortedUnique<T(!new)>(less: (T, T) -> bool, r1: seq<T>, r2: seq<T>)
    requires IsStrictOrder(less) && SortedBy(less, r1) && SortedBy(less, r2)
    requires multiset(r1) == multiset(r2)
    ensures r1 == r2
    decreases |r1|
  {
    if r1 != [] {
      SameHead(less, r1, r2);
      SameTail(r1, r2);
      SortedTail(less, r1);
      SortedTail(less, r2);
      SortedUnique(less, r1[1..], r2[1..]);
      assert r1 == [r1[0]] + r1[1..] && r2 == [r2[0]] + r2[1..];
    }
  }

  /** Two non-empty strictly sorted sequences with the same elements start
      with the same element. */
  lemma SameHead<T(!new)>(less: (T, T) -> bool, r1: seq<T>, r2: seq<T>)
    requires IsStrictOrder(less) && SortedBy(less, r1) && SortedBy(less, r2)
    requires r1 != [] && multiset(r1) == multiset(r2)
    ensures r2 != [] && r1[0] == r2[0]
  {
    assert |multiset(r2)| == |multiset(r1)| > 0;
    var x, y := r1[0], r2[0];
    assert x in multiset(r2) && y in multiset(r1);
    HeadIsLeast(less, r1, y);
    HeadIsLeast(less, r2, x);
  }

  /** Dropping equal heads from sequences with the same elements leaves
      tails with the same elements. */
  lemma SameTail<T>(r1: seq<T>, r2: seq<T>)
    requires r1 != [] && r2 != [] && r1[0] == r2[0] && multiset(r1) == multiset(r2)
    ensures multiset(r1[1..]) == multiset(r2[1..])
  {
    assert r1 == [r1[0]] + r1[1..] && r2 == [r2[0]] + r2[1..];
    assert multiset(r1) == multiset{r1[0]} + multiset(r1[1..]);
    assert multiset(r2) == multiset{r2[0]} + multiset(r2[1..]);
    assert multiset(r1[1..]) == multiset(r1) - multiset{r1[0]};
  }

  /** The tail of a strictly sorted sequence is strictly sorted. */
  lemma SortedTail<T>(less: (T, T) -> bool, r: seq<T>)
    requires r != [] && SortedBy(less, r)
    ensures SortedBy(less, r[1..])
  {
    forall i, j | 0 <= i < j < |r| - 1 ensures less(r[1..][i], r[1..][j]) {
      assert r[1..][i] == r[i + 1] && r[1..][j] == r[j + 1];
    }
  }

  /** The head of a strictly sorted sequence comes before all its other
      elements. */
  lemma HeadIsLeast<T(!new)>(less: (T, T) -> bool, r: seq<T>, x: T)
    requires SortedBy(less, r) && x in r
    ensures x == r[0] || less(r[0], x)
  {
    var i :| 0 <= i < |r| && r[i] == x;
    if i > 0 {
      assert less(r[0], r[i]);
    }
  }

  /** `r` lists, in order, the best-ranked elements of `s`: it is sorted,
      drawn from `s`, and every element of `s` it leaves out ranks below
      every element it lists. */
  ghost predicate IsTopOf<T>(less: (T, T) -> bool, s: set<T>, r: seq<T>) {
    && SortedBy(less, r)
    && (forall i :: 0 <= i < |r| ==> r[i] in s)
    && (forall x, i :: x in s && x !in r && 0 <= i < |r| ==> less(r[i], x))
  }

  /** Any prefix of a sorted permutation of a set lists its best-ranked
      elements. */
  lemma PrefixIsTop<T(!new)>(less: (T, T) -> bool, s: set<T>, full: seq<T>, n: nat)
    requires IsStrictOrder(less) && SortedBy(less, full) && multiset(full) == multiset(s)
    requires n <= |full|
    ensures |full| == |s|
    ensures IsTopOf(less, s, full[..n])
  {
    SortedHasSetSize(less, full, s);
    var r := full[..n];
    assert forall i :: 0 <= i < n ==> r[i] == full[i];
    forall x, i | x in s && x !in r && 0 <= i < |r| ensures less(r[i], x) {
      var j :| 0 <= j < |full| && full[j] == x;
    }
  }
}
