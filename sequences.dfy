/** Sequence operations that stand for the vectorised DataFrame operations of the script:
    boolean-mask selection, sort_values, and column sums. */
module Sequences {

  /** `r` is obtained from `s` by deleting elements, keeping the order of the rest. */
  predicate IsSubsequence<T(==)>(r: seq<T>, s: seq<T>)
    decreases |s|
  {
    r == [] || (s != [] && ((r[0] == s[0] && IsSubsequence(r[1..], s[1..])) || IsSubsequence(r, s[1..])))
  }

  /** Boolean-mask selection `df[mask]`: keeps the rows satisfying `p`, in their original order. */
  function Filter<T(==,!new)>(s: seq<T>, p: T -> bool): (r: seq<T>)
    ensures IsSubsequence(r, s)
    ensures forall x :: multiset(r)[x] == if p(x) then multiset(s)[x] else 0
    ensures forall i :: 0 <= i < |r| ==> p(r[i])
  {
    if s == [] then []
    else
      assert s == [s[0]] + s[1..];
      if p(s[0]) then [s[0]] + Filter(s[1..], p) else Filter(s[1..], p)
  }

  /** The order `sort_values(by=...)` establishes: non-decreasing in `key`. */
  ghost predicate SortedBy<T>(s: seq<T>, key: T -> real) {
    forall i, j :: 0 <= i < j < |s| ==> key(s[i]) <= key(s[j])
  }

  /** Deleting elements from a sorted sequence leaves it sorted. */
  lemma {:induction false} SubsequenceSorted<T>(r: seq<T>, s: seq<T>, key: T -> real)
    requires IsSubsequence(r, s) && SortedBy(s, key)
    ensures SortedBy(r, key)
    decreases |s|
  {
    if r != [] {
      if r[0] == s[0] && IsSubsequence(r[1..], s[1..]) {
        SubsequenceSorted(r[1..], s[1..], key);
        SubsequenceMembers(r[1..], s[1..]);
        forall j | 0 < j < |r| ensures key(r[0]) <= key(r[j]) {
          assert r[j] == r[1..][j - 1];
          assert r[j] in r[1..];
          assert r[j] in s[1..];
          var k :| 0 <= k < |s[1..]| && s[1..][k] == r[j];
          assert s[k + 1] == r[j];
        }
      } else {
        SubsequenceSorted(r, s[1..], key);
      }
    }
  }

  /** Every element of a subsequence is an element of the sequence. */
  lemma {:induction false} SubsequenceMembers<T>(r: seq<T>, s: seq<T>)
    requires IsSubsequence(r, s)
    ensures forall x :: x in r ==> x in s
    decreases |s|
  {
    if r != [] {
      if r[0] == s[0] && IsSubsequence(r[1..], s[1..]) {
        SubsequenceMembers(r[1..], s[1..]);
        assert r == [r[0]] + r[1..];
      } else {
        SubsequenceMembers(r, s[1..]);
      }
    }
  }

  /** IsSubsequence is transitive: selecting from a selection is a selection. */
  lemma {:induction false} SubsequenceTransitive<T>(q: seq<T>, r: seq<T>, s: seq<T>)
    requires IsSubsequence(q, r) && IsSubsequence(r, s)
    ensures IsSubsequence(q, s)
    decreases |s|
  {
    if q != [] {
      assert r != [];
      if r[0] == s[0] && IsSubsequence(r[1..], s[1..]) {
        if q[0] == r[0] && IsSubsequence(q[1..], r[1..]) {
          SubsequenceTransitive(q[1..], r[1..], s[1..]);
        } else {
          SubsequenceTransitive(q, r[1..], s[1..]);
        }
      } else {
        SubsequenceTransitive(q, r, s[1..]);
      }
    }
  }

  /** Putting an element no larger than the head in front of a sorted sequence keeps it sorted. */
  lemma {:induction false} SortedCons<T>(x: T, t: seq<T>, key: T -> real)
    requires SortedBy(t, key) && (t != [] ==> key(x) <= key(t[0]))
    ensures SortedBy([x] + t, key)
  {
    var r := [x] + t;
    forall i, j | 0 <= i < j < |r| ensures key(r[i]) <= key(r[j]) {
      if i == 0 && j > 1 {
        assert key(t[0]) <= key(t[j - 1]);
      }
    }
  }

  /** Inserts `x` into a sorted sequence before the first element with a larger or equal key. */
  function Insert<T(==)>(x: T, s: seq<T>, key: T -> real): (r: seq<T>)
    requires SortedBy(s, key)
    ensures |r| == |s| + 1
    ensures r[0] == x || (s != [] && r[0] == s[0])
    ensures SortedBy(r, key)
    ensures multiset(r) == multiset(s) + multiset{x}
  {
    if s == [] then [x]
    else if key(x) <= key(s[0]) then SortedCons(x, s, key); [x] + s
    else
      assert SortedBy(s[1..], key);
      var t := Insert(x, s[1..], key);
      InsertBehindHead(x, s, t, key);
      [s[0]] + t
  }

  /** The step of `Insert` that keeps the head: `t` is `x` inserted into the tail. */
  lemma {:induction false} InsertBehindHead<T>(x: T, s: seq<T>, t: seq<T>, key: T -> real)
    requires s != [] && SortedBy(s, key) && key(s[0]) < key(x)
    requires |t| == |s| && (t[0] == x || (|s| > 1 && t[0] == s[1]))
    requires SortedBy(t, key) && multiset(t) == multiset(s[1..]) + multiset{x}
    ensures SortedBy([s[0]] + t, key)
    ensures multiset([s[0]] + t) == multiset(s) + multiset{x}
  {
    assert s == [s[0]] + s[1..];
    assert key(s[0]) <= key(t[0]);
    SortedCons(s[0], t, key);
  }

  /** `sort_values(by=key)`: a permutation of `s` that is non-decreasing in `key`.
      The order among equal keys is not part of the contract (pandas' default sort is not stable). */
  function SortBy<T(==)>(s: seq<T>, key: T -> real): (r: seq<T>)
    ensures |r| == |s|
    ensures multiset(r) == multiset(s)
    ensures SortedBy(r, key)
  {
    if s == [] then []
    else
      assert s == [s[0]] + s[1..];
      Insert(s[0], SortBy(s[1..], key), key)
  }

  lemma AppendAssociative<T>(x: seq<T>, y: seq<T>, z: seq<T>)
    ensures x + (y + z) == (x + y) + z
  {
  }

  /** Column sum, accumulated left to right. */
  function Sum(s: seq<real>): real {
    if s == [] then 0.0 else Sum(s[..|s| - 1]) + s[|s| - 1]
  }

  lemma {:induction false} SumAppend(a: seq<real>, b: seq<real>)
    ensures Sum(a + b) == Sum(a) + Sum(b)
    decreases |b|
  {
    if b != [] {
      assert (a + b)[..|a + b| - 1] == a + b[..|b| - 1];
      SumAppend(a, b[..|b| - 1]);
    } else {
      assert a + b == a;
    }
  }

  /** A sum of values in [lo, hi] lies between |s| * lo and |s| * hi. */
  lemma {:induction false} SumBounds(s: seq<real>, lo: real, hi: real)
    requires forall i :: 0 <= i < |s| ==> lo <= s[i] <= hi
    ensures (|s| as real) * lo <= Sum(s) <= (|s| as real) * hi
    decreases |s|
  {
    if s != [] {
      SumBounds(s[..|s| - 1], lo, hi);
    }
  }
}
