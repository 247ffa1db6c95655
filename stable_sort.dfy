/**
  Python's `sorted(xs, key=k, reverse=True)`: a stable sort into descending key order
  (elements with equal keys keep their input order), written as an insertion sort.
 */
module StableSort {

  /** Keys never increase along `s`. */
  ghost predicate SortedBy(s: seq<string>, key: string -> nat) {
    forall i, j :: 0 <= i < j < |s| ==> key(s[i]) >= key(s[j])
  }

  /** `s` is in descending order of `k1`, and of `k2` among elements with equal `k1`. */
  ghost predicate SortedThenBy(s: seq<string>, k1: string -> nat, k2: string -> nat) {
    forall i, j :: 0 <= i < j < |s| ==>
      k1(s[i]) > k1(s[j]) || (k1(s[i]) == k1(s[j]) && k2(s[i]) >= k2(s[j]))
  }

  /** Puts `x` in front of the first element whose key is not larger than its own. */
  function Insert(x: string, s: seq<string>, key: string -> nat): (r: seq<string>)
    ensures multiset(r) == multiset(s) + multiset{x}
  {
    if s == [] || key(x) >= key(s[0]) then
      [x] + s
    else
      assert s == [s[0]] + s[1..];
      [s[0]] + Insert(x, s[1..], key)
  }

  /** Inserting into a sorted sequence keeps it sorted. */
  lemma {:induction false} InsertSorted(x: string, s: seq<string>, key: string -> nat)
    requires SortedBy(s, key)
    ensures SortedBy(Insert(x, s, key), key)
  {
    if s != [] && key(x) < key(s[0]) {
      var rest := Insert(x, s[1..], key);
      InsertSorted(x, s[1..], key);
      forall j | 0 <= j < |rest|
        ensures key(s[0]) >= key(rest[j])
      {
        assert rest[j] in multiset(s[1..]) + multiset{x};
        if rest[j] != x {
          assert rest[j] in s[1..];
        }
      }
      assert Insert(x, s, key) == [s[0]] + rest;
    }
  }

  /** `sorted(xs, key=key, reverse=True)`. */
  function Sort(xs: seq<string>, key: string -> nat): (r: seq<string>)
    ensures multiset(r) == multiset(xs)
    ensures SortedBy(r, key)
  {
    if xs == [] then []
    else
      assert xs == [xs[0]] + xs[1..];
      var tail := Sort(xs[1..], key);
      InsertSorted(xs[0], tail, key);
      Insert(xs[0], tail, key)
  }

  /** Inserting an element whose secondary key dominates keeps the secondary order among ties. */
  lemma {:induction false} InsertKeepsTies(x: string, s: seq<string>, k1: string -> nat, k2: string -> nat)
    requires SortedThenBy(s, k1, k2)
    requires forall y :: y in s ==> k2(y) <= k2(x)
    ensures SortedThenBy(Insert(x, s, k1), k1, k2)
  {
    if s == [] || k1(x) >= k1(s[0]) {
      PrependKeepsTies(x, s, k1, k2);
    } else {
      var rest := Insert(x, s[1..], k1);
      InsertKeepsTies(x, s[1..], k1, k2);
      forall y | y in rest
        ensures k1(s[0]) > k1(y) || (k1(s[0]) == k1(y) && k2(s[0]) >= k2(y))
      {
        assert y in multiset(s[1..]) + multiset{x};
        if y != x {
          var m :| 0 <= m < |s[1..]| && s[1..][m] == y;
          assert s[m + 1] == y;
        }
      }
      PrependKeepsTies(s[0], rest, k1, k2);
    }
  }

  lemma PrependKeepsTies(x: string, s: seq<string>, k1: string -> nat, k2: string -> nat)
    requires SortedThenBy(s, k1, k2)
    requires forall y :: y in s ==> k1(x) > k1(y) || (k1(x) == k1(y) && k2(x) >= k2(y))
    ensures SortedThenBy([x] + s, k1, k2)
  {
    var r := [x] + s;
    forall i, j | 0 <= i < j < |r|
      ensures k1(r[i]) > k1(r[j]) || (k1(r[i]) == k1(r[j]) && k2(r[i]) >= k2(r[j]))
    {
      assert r[j] == s[j - 1];
      if i == 0 {
        assert r[j] in s;
      } else {
        assert r[i] == s[i - 1];
      }
    }
  }

  /** Stability: sorting an input already ordered by `k2` yields `k1` order with ties in `k2` order. */
  lemma {:induction false} SortIsStable(xs: seq<string>, k1: string -> nat, k2: string -> nat)
    requires SortedBy(xs, k2)
    ensures SortedThenBy(Sort(xs, k1), k1, k2)
  {
    if xs != [] {
      var tail := Sort(xs[1..], k1);
      SortIsStable(xs[1..], k1, k2);
      forall y | y in tail
        ensures k2(y) <= k2(xs[0])
      {
        assert y in multiset(xs[1..]);
      }
      InsertKeepsTies(xs[0], tail, k1, k2);
    }
  }
}
