/** The orders and the cut-offs of the two stores' ranked outputs: friend
    lists in name order, suggestions by (-mutual count, name), and the way
    each source trims a ranking to `k` entries. */
module Ranking {
  import opened Strings
  import opened Sorting

  /** Names sort by `StrLess`, which is a strict total order. */
  lemma NameOrder()
    ensures IsStrictOrder(StrLess)
  {
    forall x ensures !StrLess(x, x) {
      StrLessIrreflexive(x);
    }
    forall x, y, z | StrLess(x, y) && StrLess(y, z) ensures StrLess(x, z) {
      StrLessTransitive(x, y, z);
    }
    forall x, y | x != y ensures StrLess(x, y) || StrLess(y, x) {
      StrLessTotal(x, y);
    }
  }

  /** `compare` of code.cpp on (negated count, name) pairs: the first
      component decides, and on a tie the name does. */
  predicate Compare(a: (int, string), b: (int, string)) {
    if a.0 != b.0 then a.0 < b.0 else StrLess(a.1, b.1)
  }

  lemma CompareOrder()
    ensures IsStrictOrder(Compare)
  {
    forall x ensures !Compare(x, x) {
      StrLessIrreflexive(x.1);
    }
    forall x, y, z | Compare(x, y) && Compare(y, z) ensures Compare(x, z) {
      if x.0 == y.0 && y.0 == z.0 {
        StrLessTransitive(x.1, y.1, z.1);
      }
    }
    forall x, y | x != y ensures Compare(x, y) || Compare(y, x) {
      if x.0 == y.0 {
        StrLessTotal(x.1, y.1);
      }
    }
  }

  /** The sort key `(-count, name)` of frontend.py's `suggest_friends`, on
      (name, count) items, compared as Python compares tuples. */
  predicate PyKeyLess(a: (string, int), b: (string, int)) {
    Compare((-a.1, a.0), (-b.1, b.0))
  }

  lemma PyKeyOrder()
    ensures IsStrictOrder(PyKeyLess)
  {
    CompareOrder();
    forall x ensures !PyKeyLess(x, x) {
      assert !Compare((-x.1, x.0), (-x.1, x.0));
    }
    forall x, y, z | PyKeyLess(x, y) && PyKeyLess(y, z) ensures PyKeyLess(x, z) {
      assert Compare((-x.1, x.0), (-y.1, y.0)) && Compare((-y.1, y.0), (-z.1, z.0));
    }
    forall x, y | x != y ensures PyKeyLess(x, y) || PyKeyLess(y, x) {
      assert (-x.1, x.0) != (-y.1, y.0);
    }
  }

  /** A higher count ranks first; among equal counts the smaller name does. */
  lemma PyKeyMeaning(a: (string, int), b: (string, int))
    ensures PyKeyLess(a, b) <==> a.1 > b.1 || (a.1 == b.1 && StrLess(a.0, b.0))
  {
  }

  /** Python's slice `s[:k]`: the first `k` elements for `k >= 0` (all of
      them when `k` exceeds the length), and all but the last `-k` for a
      negative `k`. */
  function PyTake<T>(s: seq<T>, k: int): (r: seq<T>)
    ensures |r| <= |s| && r == s[..|r|]
    ensures 0 <= k <= |s| ==> |r| == k
    ensures |s| < k ==> r == s
    ensures -|s| <= k < 0 ==> |r| == |s| + k
    ensures k < -|s| ==> r == []
  {
    if 0 <= k then (if k <= |s| then s[..k] else s)
    else if -|s| <= k then s[..|s| + k]
    else []
  }

  /** The names of a ranking of (negated count, name) pairs. */
  function Names(res: seq<(int, string)>): (r: seq<string>)
    ensures |r| == |res| && forall i :: 0 <= i < |res| ==> r[i] == res[i].1
  {
    if res == [] then [] else [res[0].1] + Names(res[1..])
  }

  /** The names of a prefix are the prefix of the names. */
  lemma NamesPrefix(res: seq<(int, string)>, c: nat)
    requires c <= |res|
    ensures Names(res)[..c] == Names(res[..c])
  {
    forall i | 0 <= i < c ensures Names(res)[..c][i] == Names(res[..c])[i] {
      assert Names(res)[i] == res[i].1 == res[..c][i].1;
    }
  }

  /** How many names the emit loop of code.cpp's `suggest_friends` prints:
      it stops once its countdown reaches zero, so a `k` of 1 or more
      prints `min(k, n)` names, and a `k` of 0 or less, which only
      decreases past zero, prints all `n`. */
  function CppEmitCount(n: nat, k: int): (c: nat)
    ensures 1 <= k <= n ==> c == k
    ensures (k <= 0 || n < k) ==> c == n
  {
    if 1 <= k <= n then k else n
  }

  /** The emit loop of code.cpp's `suggest_friends`: prints the name of
      each pair in order, decrements `k`, and stops when it reaches 0. */
  method CppEmit(res: seq<(int, string)>, k: int) returns (out: seq<string>)
    ensures out == Names(res)[..CppEmitCount(|res|, k)]
  {
    out := [];
    var i := 0;
    var left := k;
    while i < |res|
      invariant 0 <= i <= |res|
      invariant left == k - i
      invariant 1 <= k ==> i < k
      invariant |out| == i && forall n :: 0 <= n < i ==> out[n] == res[n].1
    {
      out := out + [res[i].1];
      left := left - 1;
      i := i + 1;
      if left == 0 {
        NamesUpTo(res, i, out);
        return;
      }
    }
    NamesUpTo(res, i, out);
  }

  /** A sequence holding the first `i` names of a ranking, in order, is
      that prefix of its names. */
  lemma NamesUpTo(res: seq<(int, string)>, i: nat, out: seq<string>)
    requires i <= |res| && |out| == i && forall n :: 0 <= n < i ==> out[n] == res[n].1
    ensures out == Names(res)[..i]
  {
  }

  /** The best-ranked keys of a set of name keys, read back as names: the
      names come from `cands`, in `Compare` order of their keys, and every
      name left out ranks below every name listed. */
  lemma TopNames(key: string -> (int, string), cands: set<string>, p: seq<(int, string)>)
    requires forall v :: key(v).1 == v
    requires IsTopOf(Compare, set v | v in cands :: key(v), p)
    ensures forall i :: 0 <= i < |p| ==> Names(p)[i] in cands && p[i] == key(Names(p)[i])
    ensures forall i, j :: 0 <= i < j < |p| ==> Compare(key(Names(p)[i]), key(Names(p)[j]))
    ensures forall v, i :: v in cands && v !in Names(p) && 0 <= i < |p| ==> Compare(key(Names(p)[i]), key(v))
  {
    var s := set v | v in cands :: key(v);
    forall i | 0 <= i < |p| ensures Names(p)[i] in cands && p[i] == key(Names(p)[i]) {
      assert p[i] in s;
      var v :| v in cands && p[i] == key(v);
      assert key(v).1 == v;
    }
    forall v, i | v in cands && v !in Names(p) && 0 <= i < |p| ensures Compare(key(Names(p)[i]), key(v)) {
      var x := key(v);
      assert x in s;
      forall j | 0 <= j < |p| ensures p[j] != x {
        assert Names(p)[j] == p[j].1;
      }
      assert x !in p;
      assert Compare(p[i], x);
      assert p[i] == key(Names(p)[i]);
    }
  }
}
