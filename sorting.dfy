/**
 * Python's `sorted(xs, key=...)`: a stable sort. Keys are sequences of
 * integers compared lexicographically, which covers the integer keys,
 * the tuple key `(week_checkins, week_records)` and the code points of a
 * user name. `reverse=True` keeps equal keys in their original order, so
 * it is the same as a stable sort on the negated key.
 */
module Sorting {

  type Key = seq<int>

  /** Lexicographic order on keys; a proper prefix comes first. */
  predicate LexLe(a: Key, b: Key)
  {
    if |a| == 0 then true
    else if |b| == 0 then false
    else if a[0] != b[0] then a[0] < b[0]
    else LexLe(a[1..], b[1..])
  }

  lemma {:induction false} LexReflexive(a: Key)
    ensures LexLe(a, a)
  {
    if |a| > 0 { LexReflexive(a[1..]); }
  }

  lemma {:induction false} LexTotal(a: Key, b: Key)
    ensures LexLe(a, b) || LexLe(b, a)
  {
    if |a| > 0 && |b| > 0 && a[0] == b[0] { LexTotal(a[1..], b[1..]); }
  }

  lemma {:induction false} LexTransitive(a: Key, b: Key, c: Key)
    requires LexLe(a, b) && LexLe(b, c)
    ensures LexLe(a, c)
  {
    if |a| > 0 && |b| > 0 && |c| > 0 && a[0] == b[0] == c[0] {
      LexTransitive(a[1..], b[1..], c[1..]);
    }
  }

  lemma {:induction false} LexAntisymmetric(a: Key, b: Key)
    requires LexLe(a, b) && LexLe(b, a)
    ensures a == b
  {
    if |a| > 0 && |b| > 0 { LexAntisymmetric(a[1..], b[1..]); }
  }

  /** The code points of a string, as a sort key (binary collation). */
  function CodePoints(s: string): Key
  {
    seq(|s|, i requires 0 <= i < |s| => s[i] as int)
  }

  ghost predicate SortedBy<T>(s: seq<T>, key: T -> Key)
  {
    forall i, j :: 0 <= i < j < |s| ==> LexLe(key(s[i]), key(s[j]))
  }

  /** The elements of `s` whose key is `k`, in their order in `s`. */
  function WithKey<T>(s: seq<T>, key: T -> Key, k: Key): (r: seq<T>)
    ensures |r| <= |s|
  {
    if s == [] then []
    else WithKey(s[..|s| - 1], key, k) + (if key(s[|s| - 1]) == k then [s[|s| - 1]] else [])
  }

  /**
   * Inserts `x` behind every element of `t` whose key is not greater
   * than its own: it walks left only past strictly greater keys.
   */
  function Insert<T>(t: seq<T>, x: T, key: T -> Key): (r: seq<T>)
    ensures multiset(r) == multiset(t) + multiset{x}
    ensures |r| == |t| + 1
  {
    if t == [] then [x]
    else if LexLe(key(t[|t| - 1]), key(x)) then t + [x]
    else
      assert t == t[..|t| - 1] + [t[|t| - 1]];
      Insert(t[..|t| - 1], x, key) + [t[|t| - 1]]
  }

  /** `sorted(s, key=key)`: insertion sort that appends the elements of `s` one at a time. */
  function SortBy<T>(s: seq<T>, key: T -> Key): (r: seq<T>)
    ensures multiset(r) == multiset(s)
    ensures |r| == |s|
  {
    if s == [] then []
    else
      assert s == s[..|s| - 1] + [s[|s| - 1]];
      assert multiset(s) == multiset(s[..|s| - 1]) + multiset{s[|s| - 1]};
      Insert(SortBy(s[..|s| - 1], key), s[|s| - 1], key)
  }

  /** Appending an element no smaller than any other keeps a sequence sorted. */
  lemma {:induction false} SortedSnoc<T>(u: seq<T>, y: T, key: T -> Key)
    requires SortedBy(u, key)
    requires forall i :: 0 <= i < |u| ==> LexLe(key(u[i]), key(y))
    ensures SortedBy(u + [y], key)
  {
    var r := u + [y];
    forall i, j | 0 <= i < j < |r| ensures LexLe(key(r[i]), key(r[j])) {
      assert r[i] == u[i];
      if j < |u| {
        assert r[j] == u[j];
      } else {
        assert r[j] == y;
      }
    }
  }

  lemma {:induction false} InsertSorted<T>(t: seq<T>, x: T, key: T -> Key)
    requires SortedBy(t, key)
    ensures SortedBy(Insert(t, x, key), key)
    decreases |t|
  {
    if t == [] {
    } else if LexLe(key(t[|t| - 1]), key(x)) {
      forall i | 0 <= i < |t| ensures LexLe(key(t[i]), key(x)) {
        if i < |t| - 1 {
          LexTransitive(key(t[i]), key(t[|t| - 1]), key(x));
        }
      }
      SortedSnoc(t, x, key);
    } else {
      var init, last := t[..|t| - 1], t[|t| - 1];
      assert SortedBy(init, key) by {
        forall i, j | 0 <= i < j < |init| ensures LexLe(key(init[i]), key(init[j])) {
          assert init[i] == t[i] && init[j] == t[j];
        }
      }
      InsertSorted(init, x, key);
      var u := Insert(init, x, key);
      assert Insert(t, x, key) == u + [last];
      LexTotal(key(last), key(x));
      forall i | 0 <= i < |u| ensures LexLe(key(u[i]), key(last)) {
        assert u[i] in multiset(u);
        if u[i] != x {
          assert u[i] in multiset(init);
          var k :| 0 <= k < |init| && init[k] == u[i];
          assert t[k] == u[i];
        }
      }
      SortedSnoc(u, last, key);
    }
  }

  lemma {:induction false} SortBySorted<T>(s: seq<T>, key: T -> Key)
    ensures SortedBy(SortBy(s, key), key)
  {
    if s != [] {
      SortBySorted(s[..|s| - 1], key);
      InsertSorted(SortBy(s[..|s| - 1], key), s[|s| - 1], key);
    }
  }

  lemma {:induction false} WithKeySnoc<T>(s: seq<T>, y: T, key: T -> Key, k: Key)
    ensures WithKey(s + [y], key, k) == WithKey(s, key, k) + (if key(y) == k then [y] else [])
  {
    assert (s + [y])[..|s + [y]| - 1] == s;
  }

  /** Inserting `x` adds it behind every element that has the same key. */
  lemma {:induction false} InsertStable<T>(t: seq<T>, x: T, key: T -> Key, k: Key)
    ensures WithKey(Insert(t, x, key), key, k)
         == WithKey(t, key, k) + (if key(x) == k then [x] else [])
    decreases |t|
  {
    if t == [] {
      WithKeySnoc(t, x, key, k);
      assert t + [x] == [x];
    } else if LexLe(key(t[|t| - 1]), key(x)) {
      WithKeySnoc(t, x, key, k);
    } else {
      var init, last := t[..|t| - 1], t[|t| - 1];
      assert t == init + [last];
      assert Insert(t, x, key) == Insert(init, x, key) + [last];
      InsertStable(init, x, key, k);
      InsertStableBehind(init, last, x, key, k);
    }
  }

  /** The step of `InsertStable` where `x` goes in front of a last element with a greater key. */
  lemma {:induction false} InsertStableBehind<T>(init: seq<T>, last: T, x: T, key: T -> Key, k: Key)
    requires !LexLe(key(last), key(x))
    requires WithKey(Insert(init, x, key), key, k) == WithKey(init, key, k) + (if key(x) == k then [x] else [])
    ensures WithKey(Insert(init, x, key) + [last], key, k)
         == WithKey(init + [last], key, k) + (if key(x) == k then [x] else [])
  {
    var u := Insert(init, x, key);
    var xs := if key(x) == k then [x] else [];
    var ls := if key(last) == k then [last] else [];
    WithKeySnoc(u, last, key, k);
    WithKeySnoc(init, last, key, k);
    if key(x) == k {
      LexReflexive(k);
      assert ls == [];
    } else {
      assert xs == [];
    }
  }

  /** Stability: among elements with equal keys, `SortBy` keeps the input order. */
  lemma {:induction false} SortByStable<T>(s: seq<T>, key: T -> Key, k: Key)
    ensures WithKey(SortBy(s, key), key, k) == WithKey(s, key, k)
  {
    if s != [] {
      SortByStable(s[..|s| - 1], key, k);
      InsertStable(SortBy(s[..|s| - 1], key), s[|s| - 1], key, k);
    }
  }

  /** One-component keys compare as integers. */
  lemma {:induction false} LexSingle(a: int, b: int)
    ensures LexLe([a], [b]) <==> a <= b
  {
    assert [a][1..] == [] && [b][1..] == [];
  }

  /** Two-component keys compare as pairs, first component first. */
  lemma {:induction false} LexPair(a: int, b: int, c: int, d: int)
    ensures LexLe([a, b], [c, d]) <==> a < c || (a == c && b <= d)
  {
    assert [a, b][1..] == [b] && [c, d][1..] == [d];
    LexSingle(b, d);
  }

  /** `Insert` puts `x` at one position and keeps the order of `t` around it. */
  lemma {:induction false} InsertShape<T>(t: seq<T>, x: T, key: T -> Key) returns (m: nat)
    ensures m <= |t| && Insert(t, x, key) == t[..m] + [x] + t[m..]
    decreases |t|
  {
    if t == [] {
      m := 0;
    } else if LexLe(key(t[|t| - 1]), key(x)) {
      m := |t|;
    } else {
      var init := t[..|t| - 1];
      m := InsertShape(init, x, key);
      assert init[..m] == t[..m];
      assert init[m..] + [t[|t| - 1]] == t[m..];
    }
  }

  ghost predicate DistinctBy<T>(s: seq<T>, f: T -> int)
  {
    forall i, j :: 0 <= i < j < |s| ==> f(s[i]) != f(s[j])
  }

  lemma {:induction false} DistinctInsertAt<T>(t: seq<T>, x: T, m: nat, f: T -> int)
    requires m <= |t| && DistinctBy(t, f)
    requires forall i :: 0 <= i < |t| ==> f(t[i]) != f(x)
    ensures DistinctBy(t[..m] + [x] + t[m..], f)
  {
    var r := t[..m] + [x] + t[m..];
    forall k | 0 <= k < |r| ensures r[k] == if k < m then t[k] else if k == m then x else t[k - 1] {
      if k < m { assert r[k] == t[..m][k]; }
      else if k > m { assert r[k] == t[m..][k - m - 1]; }
    }
    forall i, j | 0 <= i < j < |r| ensures f(r[i]) != f(r[j]) {
      if i != m && j != m {
        var i', j' := if i < m then i else i - 1, if j < m then j else j - 1;
        assert r[i] == t[i'] && r[j] == t[j'] && i' < j';
      }
    }
  }

  /** Sorting keeps a sequence free of two elements with the same image under `f`. */
  lemma {:induction false} SortByDistinct<T>(s: seq<T>, key: T -> Key, f: T -> int)
    requires DistinctBy(s, f)
    ensures DistinctBy(SortBy(s, key), f)
  {
    if s != [] {
      var init, last := s[..|s| - 1], s[|s| - 1];
      assert DistinctBy(init, f);
      SortByDistinct(init, key, f);
      var t := SortBy(init, key);
      forall i | 0 <= i < |t| ensures f(t[i]) != f(last) {
        assert t[i] in multiset(init);
        var k :| 0 <= k < |init| && init[k] == t[i];
        assert s[k] == t[i];
      }
      var m := InsertShape(t, last, key);
      DistinctInsertAt(t, last, m, f);
    }
  }
}
