/**
 * Python's `list.sort(key=...)` with a string key: a stable sort in
 * ascending `str` order. It is given here as an insertion sort over
 * sequences, and proved to produce a sorted permutation of its input
 * that keeps elements with equal keys in their original order.
 */
module Sorting {
  import opened PyStr

  /** Ascending by key, in Python's `str` order. */
  ghost predicate SortedBy<T>(s: seq<T>, key: T -> string)
  {
    forall i, j :: 0 <= i < j < |s| ==> StrLe(key(s[i]), key(s[j]))
  }

  /** The elements of `s` whose key is `k`, in their order in `s`. */
  function WithKey<T>(s: seq<T>, key: T -> string, k: string): seq<T>
  {
    if s == [] then [] else (if key(s[0]) == k then [s[0]] else []) + WithKey(s[1..], key, k)
  }

  /** `x` placed before the first element whose key is not below its own. */
  function Insert<T>(x: T, s: seq<T>, key: T -> string): seq<T>
  {
    if s == [] then [x]
    else if StrLe(key(x), key(s[0])) then [x] + s
    else [s[0]] + Insert(x, s[1..], key)
  }

  /** `s` sorted by `key`, as `s.sort(key=key)` leaves it. */
  function SortBy<T>(s: seq<T>, key: T -> string): seq<T>
  {
    if s == [] then [] else Insert(s[0], SortBy(s[1..], key), key)
  }

  lemma {:induction false} InsertPermutation<T>(x: T, s: seq<T>, key: T -> string)
    ensures multiset(Insert(x, s, key)) == multiset(s) + multiset{x}
  {
    if s != [] && !StrLe(key(x), key(s[0])) {
      InsertPermutation(x, s[1..], key);
      assert s == [s[0]] + s[1..];
      assert Insert(x, s, key) == [s[0]] + Insert(x, s[1..], key);
    }
  }

  lemma {:induction false} InsertSorted<T>(x: T, s: seq<T>, key: T -> string)
    requires SortedBy(s, key)
    ensures SortedBy(Insert(x, s, key), key)
  {
    if s == [] {
    } else if StrLe(key(x), key(s[0])) {
      var r := [x] + s;
      forall i, j | 0 <= i < j < |r| ensures StrLe(key(r[i]), key(r[j])) {
        if i == 0 && j > 1 {
          StrLeTransitive(key(x), key(s[0]), key(s[j - 1]));
        }
      }
    } else {
      StrLeTotal(key(x), key(s[0]));
      InsertSorted(x, s[1..], key);
      InsertPermutation(x, s[1..], key);
      var rest := Insert(x, s[1..], key);
      var r := [s[0]] + rest;
      assert s == [s[0]] + s[1..];
      forall i, j | 0 <= i < j < |r| ensures StrLe(key(r[i]), key(r[j])) {
        if i == 0 {
          // every element of rest is x or an element of s[1..]
          assert r[j] in multiset(rest);
          assert r[j] == x || r[j] in multiset(s[1..]);
          if r[j] != x {
            var m :| 0 <= m < |s[1..]| && s[1..][m] == r[j];
            assert s[m + 1] == r[j];
          }
        }
      }
    }
  }

  lemma {:induction false} SortBySorted<T>(s: seq<T>, key: T -> string)
    ensures SortedBy(SortBy(s, key), key)
  {
    if s != [] {
      SortBySorted(s[1..], key);
      InsertSorted(s[0], SortBy(s[1..], key), key);
    }
  }

  lemma {:induction false} SortByPermutation<T>(s: seq<T>, key: T -> string)
    ensures multiset(SortBy(s, key)) == multiset(s)
  {
    if s != [] {
      var rest := SortBy(s[1..], key);
      SortByPermutation(s[1..], key);
      InsertPermutation(s[0], rest, key);
      assert s == [s[0]] + s[1..];
      assert multiset(s) == multiset(s[1..]) + multiset{s[0]};
    }
  }

  /** The sort produces an ascending permutation of its input. */
  lemma SortBySortedPermutation<T>(s: seq<T>, key: T -> string)
    ensures SortedBy(SortBy(s, key), key)
    ensures multiset(SortBy(s, key)) == multiset(s)
    ensures |SortBy(s, key)| == |s|
  {
    SortBySorted(s, key);
    SortByPermutation(s, key);
    assert |multiset(SortBy(s, key))| == |SortBy(s, key)|;
  }

  lemma {:induction false} WithKeyConcat<T>(a: seq<T>, b: seq<T>, key: T -> string, k: string)
    ensures WithKey(a + b, key, k) == WithKey(a, key, k) + WithKey(b, key, k)
  {
    if a == [] {
      assert a + b == b;
    } else {
      var ab := a + b;
      assert ab[0] == a[0] && ab[1..] == a[1..] + b;
      WithKeyConcat(a[1..], b, key, k);
      var head: seq<T> := if key(a[0]) == k then [a[0]] else [];
      assert WithKey(ab, key, k) == head + WithKey(a[1..] + b, key, k);
      assert WithKey(a, key, k) == head + WithKey(a[1..], key, k);
    }
  }

  /** Inserting puts `x` ahead of every element that has the same key. */
  lemma {:induction false} InsertWithKey<T>(x: T, s: seq<T>, key: T -> string, k: string)
    ensures WithKey(Insert(x, s, key), key, k) ==
            (if key(x) == k then [x] else []) + WithKey(s, key, k)
  {
    var xs: seq<T> := if key(x) == k then [x] else [];
    if s == [] {
      assert WithKey([x], key, k) == xs + WithKey([], key, k);
    } else if StrLe(key(x), key(s[0])) {
      WithKeyConcat([x], s, key, k);
      assert WithKey([x], key, k) == xs + WithKey([], key, k);
    } else {
      StrLeReflexive(key(x));
      var heads: seq<T> := if key(s[0]) == k then [s[0]] else [];
      var rest := Insert(x, s[1..], key);
      InsertWithKey(x, s[1..], key, k);
      assert WithKey(rest, key, k) == xs + WithKey(s[1..], key, k);
      assert WithKey([s[0]] + rest, key, k) == heads + WithKey(rest, key, k) by {
        assert ([s[0]] + rest)[1..] == rest;
      }
      assert WithKey(s, key, k) == heads + WithKey(s[1..], key, k);
      assert heads == [] || xs == [];
    }
  }

  /** The sort is stable: the elements with any one key keep their original order. */
  lemma {:induction false} SortByStable<T>(s: seq<T>, key: T -> string, k: string)
    ensures WithKey(SortBy(s, key), key, k) == WithKey(s, key, k)
  {
    if s != [] {
      SortByStable(s[1..], key, k);
      InsertWithKey(s[0], SortBy(s[1..], key), key, k);
    }
  }
}
