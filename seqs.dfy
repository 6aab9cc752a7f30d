/**
 * Sequence helpers standing in for query-set operations: `filter(...)`
 * keeps the rows that satisfy a predicate in table order, and
 * `.first()` on an unordered query set picks the row with the lowest
 * primary key, which is the lowest index of the table.
 */
module Seqs {
  import opened Wrappers

  /** `r` holds every element of `s` that satisfies `p` as often as `s` does, and nothing else. */
  ghost predicate KeepsCounts<T>(s: seq<T>, p: T -> bool, r: seq<T>)
  {
    multiset(r) <= multiset(s) && forall x :: x in multiset(s) ==> multiset(r)[x] == if p(x) then multiset(s)[x] else 0
  }

  function Filter<T(==)>(s: seq<T>, p: T -> bool): (r: seq<T>)
    ensures |r| <= |s|
    ensures forall i :: 0 <= i < |r| ==> p(r[i]) && r[i] in s
    ensures forall i :: 0 <= i < |s| && p(s[i]) ==> s[i] in r
  {
    if s == [] then []
    else (if p(s[0]) then [s[0]] else []) + Filter(s[1..], p)
  }

  /** `.count()` of a query: every row that satisfies `p` is kept as often as the table holds it, and no other row is. */
  lemma {:induction false} FilterCounts<T>(s: seq<T>, p: T -> bool)
    ensures KeepsCounts(s, p, Filter(s, p))
  {
    if s != [] {
      assert s == [s[0]] + s[1..];
      FilterCounts(s[1..], p);
    }
  }

  /** `r` is `s` with some elements left out, the rest in their order in `s`. */
  ghost predicate Subsequence<T>(r: seq<T>, s: seq<T>)
    decreases |s|
  {
    if s == [] then r == []
    else (r != [] && r[0] == s[0] && Subsequence(r[1..], s[1..])) || Subsequence(r, s[1..])
  }

  /** A query keeps its rows in table order. */
  lemma {:induction false} FilterInOrder<T>(s: seq<T>, p: T -> bool)
    ensures Subsequence(Filter(s, p), s)
  {
    if s != [] {
      FilterInOrder(s[1..], p);
      if p(s[0]) {
        var r := Filter(s, p);
        assert r[0] == s[0] && r[1..] == Filter(s[1..], p);
      } else {
        assert Filter(s, p) == [] + Filter(s[1..], p) == Filter(s[1..], p);
      }
    }
  }

  lemma {:induction false} FilterAppend<T>(a: seq<T>, b: seq<T>, p: T -> bool)
    ensures Filter(a + b, p) == Filter(a, p) + Filter(b, p)
  {
    if a != [] {
      assert (a + b)[1..] == a[1..] + b;
      FilterAppend(a[1..], b, p);
    } else {
      assert a + b == b;
    }
  }

  /** The row at index `i` is the only one that the predicate keeps. */
  lemma {:induction false} FilterUpdateOutside<T>(s: seq<T>, i: nat, x: T, p: T -> bool)
    requires i < |s| && !p(s[i]) && !p(x)
    ensures Filter(s[i := x], p) == Filter(s, p)
  {
    if i > 0 {
      assert s[i := x][1..] == s[1..][i - 1 := x];
      FilterUpdateOutside(s[1..], i - 1, x, p);
    }
  }

  /** `.first()`: the lowest index whose element satisfies `p`. */
  function FirstIndex<T>(s: seq<T>, p: T -> bool): (r: Option<nat>)
    ensures r.Some? ==> r.value < |s| && p(s[r.value])
    ensures r.Some? ==> forall j :: 0 <= j < r.value ==> !p(s[j])
    ensures r.None? <==> forall j :: 0 <= j < |s| ==> !p(s[j])
  {
    if s == [] then None
    else if p(s[0]) then Some(0)
    else match FirstIndex(s[1..], p)
      case None => None
      case Some(i) => Some(i + 1)
  }

  /** A query whose condition implies another's keeps no more rows. */
  lemma {:induction false} FilterCountMonotone<T>(s: seq<T>, p: T -> bool, q: T -> bool)
    requires forall i :: 0 <= i < |s| && p(s[i]) ==> q(s[i])
    ensures |Filter(s, p)| <= |Filter(s, q)|
  {
    if s != [] {
      assert forall i :: 0 <= i < |s[1..]| ==> s[1..][i] == s[i + 1];
      FilterCountMonotone(s[1..], p, q);
    }
  }

  /** Two complementary queries split the table: together they keep every row once. */
  lemma {:induction false} FilterPartitionCount<T>(s: seq<T>, p: T -> bool, q: T -> bool)
    requires forall i :: 0 <= i < |s| ==> (q(s[i]) <==> !p(s[i]))
    ensures |Filter(s, p)| + |Filter(s, q)| == |s|
  {
    if s != [] {
      assert forall i :: 0 <= i < |s[1..]| ==> s[1..][i] == s[i + 1];
      FilterPartitionCount(s[1..], p, q);
    }
  }

  /** `.exists()`: the query keeps a row exactly when some row satisfies the predicate. */
  lemma {:induction false} FilterNonEmpty<T>(s: seq<T>, p: T -> bool)
    ensures |Filter(s, p)| > 0 <==> exists i :: 0 <= i < |s| && p(s[i])
  {
    var r := Filter(s, p);
    if |r| > 0 {
      assert p(r[0]) && r[0] in s;
    }
    if exists i :: 0 <= i < |s| && p(s[i]) {
      var i :| 0 <= i < |s| && p(s[i]);
      assert s[i] in r;
    }
  }

  /** A query that no row satisfies is empty. */
  lemma {:induction false} FilterEmpty<T>(s: seq<T>, p: T -> bool)
    requires forall i :: 0 <= i < |s| ==> !p(s[i])
    ensures Filter(s, p) == []
  {
    if s != [] {
      assert forall i :: 0 <= i < |s[1..]| ==> s[1..][i] == s[i + 1];
      FilterEmpty(s[1..], p);
    }
  }
}
