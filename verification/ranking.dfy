/**
  `sorted(items, key=key, reverse=True)`: a stable sort into non-increasing key
  order. Python keeps items with equal keys in their original order even when
  `reverse=True`, so the sort below inserts each item in front of the items whose
  key is not larger.
 */
module Ranking {

  /** `x` put in front of the first item of `s` whose key is at most `key(x)`. */
  function Insert<T>(x: T, s: seq<T>, key: T -> int): (r: seq<T>)
    ensures |r| == |s| + 1
    ensures multiset(r) == multiset(s) + multiset{x}
  {
    if s == [] || key(s[0]) <= key(x) then [x] + s
    else
      assert s == [s[0]] + s[1..];
      [s[0]] + Insert(x, s[1..], key)
  }

  /** The items of `s` in non-increasing key order, ties in their order in `s`. */
  function SortByKeyDesc<T>(s: seq<T>, key: T -> int): (r: seq<T>)
    ensures multiset(r) == multiset(s)
    ensures |r| == |s|
  {
    if s == [] then []
    else
      assert s == [s[0]] + s[1..];
      Insert(s[0], SortByKeyDesc(s[1..], key), key)
  }

  /** No item has a larger key than an item before it. */
  ghost predicate NonIncreasing<T>(s: seq<T>, key: T -> int)
  {
    forall i, j :: 0 <= i < j < |s| ==> key(s[i]) >= key(s[j])
  }

  /** The items of `s` whose key is `k`, in order. */
  function WithKey<T>(s: seq<T>, key: T -> int, k: int): seq<T>
  {
    if s == [] then [] else (if key(s[0]) == k then [s[0]] else []) + WithKey(s[1..], key, k)
  }

  /** No item of `s` has a key above `bound`. */
  ghost predicate AtMost<T>(s: seq<T>, key: T -> int, bound: int)
  {
    forall i :: 0 <= i < |s| ==> key(s[i]) <= bound
  }

  lemma {:induction false} InsertAtMost<T>(x: T, s: seq<T>, key: T -> int, bound: int)
    requires AtMost(s, key, bound) && key(x) <= bound
    ensures AtMost(Insert(x, s, key), key, bound)
  {
    if s != [] && key(s[0]) > key(x) {
      InsertAtMost(x, s[1..], key, bound);
    }
  }

  lemma {:induction false} InsertKeepsOrder<T>(x: T, s: seq<T>, key: T -> int)
    requires NonIncreasing(s, key)
    ensures NonIncreasing(Insert(x, s, key), key)
  {
    if s != [] && key(s[0]) > key(x) {
      var t := Insert(x, s[1..], key);
      InsertKeepsOrder(x, s[1..], key);
      InsertAtMost(x, s[1..], key, key(s[0]));
      assert Insert(x, s, key) == [s[0]] + t;
    }
  }

  /** The sort's output is in non-increasing key order. */
  lemma {:induction false} SortIsOrdered<T>(s: seq<T>, key: T -> int)
    ensures NonIncreasing(SortByKeyDesc(s, key), key)
  {
    if s != [] {
      SortIsOrdered(s[1..], key);
      InsertKeepsOrder(s[0], SortByKeyDesc(s[1..], key), key);
    }
  }

  /** `WithKey` of a sequence with a known first item. */
  lemma WithKeyCons<T>(x: T, s: seq<T>, key: T -> int, k: int)
    ensures WithKey([x] + s, key, k) == (if key(x) == k then [x] else []) + WithKey(s, key, k)
  {
    assert ([x] + s)[0] == x;
    assert ([x] + s)[1..] == s;
  }

  lemma {:induction false} InsertWithKey<T>(x: T, s: seq<T>, key: T -> int, k: int)
    ensures WithKey(Insert(x, s, key), key, k) == (if key(x) == k then [x] else []) + WithKey(s, key, k)
  {
    if s == [] || key(s[0]) <= key(x) {
      WithKeyCons(x, s, key, k);
    } else {
      var t := Insert(x, s[1..], key);
      var rest := WithKey(s[1..], key, k);
      assert Insert(x, s, key) == [s[0]] + t;
      WithKeyCons(s[0], t, key, k);
      InsertWithKey(x, s[1..], key, k);
      if key(s[0]) == k {
        assert WithKey(t, key, k) == rest;
      } else if key(x) == k {
        assert WithKey(s, key, k) == rest;
      } else {
        assert WithKey(t, key, k) == rest;
        assert WithKey(s, key, k) == rest;
      }
    }
  }

  /** The sort is stable: for every key, the items with that key keep their order. */
  lemma {:induction false} SortIsStable<T>(s: seq<T>, key: T -> int, k: int)
    ensures WithKey(SortByKeyDesc(s, key), key, k) == WithKey(s, key, k)
  {
    if s != [] {
      SortIsStable(s[1..], key, k);
      InsertWithKey(s[0], SortByKeyDesc(s[1..], key), key, k);
    }
  }
}
