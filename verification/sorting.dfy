/**
 * Stable sorting by an integer key, the behaviour of Java's `List.sort` and
 * of `Stream.sorted` on an ordered stream with a `comparingInt`-style
 * comparator: the result is ordered by key and elements with equal keys keep
 * their input order.
 */
module Sorting {

  /** Keys never decrease along `s`. */
  predicate SortedBy<T>(s: seq<T>, key: T -> int) {
    forall i, j :: 0 <= i < j < |s| ==> key(s[i]) <= key(s[j])
  }

  /** The elements of `s` whose key is `v`, in their order in `s`. */
  function WithKey<T>(s: seq<T>, key: T -> int, v: int): seq<T> {
    if |s| == 0 then []
    else (if key(s[0]) == v then [s[0]] else []) + WithKey(s[1..], key, v)
  }

  /** Inserts `x` in front of the first element whose key is not smaller. */
  function InsertBy<T>(x: T, s: seq<T>, key: T -> int): (r: seq<T>)
    requires SortedBy(s, key)
    ensures |r| == |s| + 1
    ensures r[0] == x || (|s| > 0 && r[0] == s[0])
    ensures SortedBy(r, key)
    ensures multiset(r) == multiset(s) + multiset{x}
  {
    if |s| == 0 then [x]
    else if key(x) <= key(s[0]) then
      PrependSorted(x, s, key);
      [x] + s
    else
      assert s == [s[0]] + s[1..];
      var rest := InsertBy(x, s[1..], key);
      assert key(s[0]) <= key(rest[0]) by {
        if rest[0] != x {
          assert key(s[0]) <= key(s[1]);
        }
      }
      PrependSorted(s[0], rest, key);
      [s[0]] + rest
  }

  /** An element no larger than the head of a sorted sequence can go in front of it. */
  lemma PrependSorted<T>(h: T, s: seq<T>, key: T -> int)
    requires SortedBy(s, key) && (|s| > 0 ==> key(h) <= key(s[0]))
    ensures SortedBy([h] + s, key)
  {
    var r := [h] + s;
    forall i, j | 0 <= i < j < |r| ensures key(r[i]) <= key(r[j]) {
      if i > 0 {
        assert r[i] == s[i - 1] && r[j] == s[j - 1];
      } else {
        assert r[j] == s[j - 1];
      }
    }
  }

  /** `WithKey` on a sequence with a given first element. */
  lemma WithKeyCons<T>(h: T, s: seq<T>, key: T -> int, v: int)
    ensures WithKey([h] + s, key, v) == (if key(h) == v then [h] else []) + WithKey(s, key, v)
  {
    assert ([h] + s)[0] == h && ([h] + s)[1..] == s;
  }

  /** Inserting `x` puts it first among the elements that share its key. */
  lemma {:induction false} InsertByWithKey<T>(x: T, s: seq<T>, key: T -> int, v: int)
    requires SortedBy(s, key)
    ensures WithKey(InsertBy(x, s, key), key, v) == (if key(x) == v then [x] else []) + WithKey(s, key, v)
  {
    if |s| == 0 {
      assert InsertBy(x, s, key) == [x] + s;
      WithKeyCons(x, s, key, v);
    } else if key(x) <= key(s[0]) {
      WithKeyCons(x, s, key, v);
    } else {
      var rest := InsertBy(x, s[1..], key);
      assert InsertBy(x, s, key) == [s[0]] + rest;
      InsertByWithKey(x, s[1..], key, v);
      WithKeyCons(s[0], rest, key, v);
      WithKeyCons(s[0], s[1..], key, v);
      assert s == [s[0]] + s[1..];
    }
  }

  /**
   * Insertion sort: ordered by key, a permutation of the input, and stable
   * (for every key, the elements carrying it appear in input order).
   */
  function SortBy<T>(s: seq<T>, key: T -> int): (r: seq<T>)
    ensures SortedBy(r, key)
    ensures multiset(r) == multiset(s)
    ensures |r| == |s|
    ensures forall v :: WithKey(r, key, v) == WithKey(s, key, v)
  {
    if |s| == 0 then []
    else
      assert s == [s[0]] + s[1..];
      var rest := SortBy(s[1..], key);
      var r := InsertBy(s[0], rest, key);
      assert |r| == |multiset(r)| == |multiset(s)| == |s|;
      forall v ensures WithKey(r, key, v) == WithKey(s, key, v) {
        InsertByWithKey(s[0], rest, key, v);
      }
      r
  }

  /** In a sorted sequence, a strictly smaller key comes strictly earlier. */
  lemma SmallerKeyEarlier<T>(s: seq<T>, key: T -> int, i: int, j: int)
    requires SortedBy(s, key)
    requires 0 <= i < |s| && 0 <= j < |s|
    requires key(s[i]) < key(s[j])
    ensures i < j
  {
  }

  /** An element with key `v` occurs in `WithKey(s, key, v)` exactly when it occurs in `s`. */
  lemma WithKeyMembership<T>(s: seq<T>, key: T -> int, x: T)
    ensures x in WithKey(s, key, key(x)) <==> x in s
  {
    if |s| > 0 {
      WithKeyMembership(s[1..], key, x);
      assert s == [s[0]] + s[1..];
    }
  }
}
