/** Python's `sorted(items, key=..., reverse=True)`: a stable sort into
    non-increasing key order. Stability survives `reverse=True`: items with
    equal keys keep their original relative order. */
module Sorting {

  /** `x` placed after every item of `r` whose key is at least its own. */
  function InsertDesc<T>(r: seq<T>, x: T, key: T -> int): seq<T> {
    if r == [] then [x]
    else if key(r[0]) >= key(x) then [r[0]] + InsertDesc(r[1..], x, key)
    else [x] + r
  }

  /** Reference definition of the sort: the items inserted one by one, first
      to last. */
  function SortDesc<T>(s: seq<T>, key: T -> int): seq<T>
    decreases |s|
  {
    if s == [] then [] else InsertDesc(SortDesc(s[..|s| - 1], key), s[|s| - 1], key)
  }

  /** Keys never increase from left to right. */
  predicate NonIncreasing<T>(r: seq<T>, key: T -> int) {
    forall i, j :: 0 <= i < j < |r| ==> key(r[i]) >= key(r[j])
  }

  /** The items of `s` whose key is `c`, in their order in `s`. */
  function WithKey<T>(s: seq<T>, key: T -> int, c: int): seq<T> {
    if s == [] then [] else (if key(s[0]) == c then [s[0]] else []) + WithKey(s[1..], key, c)
  }

  lemma {:induction false} WithKeyAppend<T>(a: seq<T>, b: seq<T>, key: T -> int, c: int)
    ensures WithKey(a + b, key, c) == WithKey(a, key, c) + WithKey(b, key, c)
  {
    if a == [] {
      assert a + b == b;
    } else {
      var head := if key(a[0]) == c then [a[0]] else [];
      assert (a + b)[0] == a[0] && (a + b)[1..] == a[1..] + b;
      assert WithKey(a + b, key, c) == head + WithKey(a[1..] + b, key, c);
      WithKeyAppend(a[1..], b, key, c);
      assert WithKey(a, key, c) == head + WithKey(a[1..], key, c);
    }
  }

  /** No item of `r` has key `c` when every key of `r` is below `c`. */
  lemma {:induction false} WithKeyNone<T>(r: seq<T>, key: T -> int, c: int)
    requires forall i :: 0 <= i < |r| ==> key(r[i]) < c
    ensures WithKey(r, key, c) == []
  {
    if r != [] {
      WithKeyNone(r[1..], key, c);
    }
  }

  lemma {:induction false} InsertPermutation<T>(r: seq<T>, x: T, key: T -> int)
    ensures multiset(InsertDesc(r, x, key)) == multiset(r) + multiset{x}
    ensures |InsertDesc(r, x, key)| == |r| + 1
  {
    if r != [] && key(r[0]) >= key(x) {
      InsertPermutation(r[1..], x, key);
      assert r == [r[0]] + r[1..];
    }
  }

  lemma {:induction false} InsertOrdered<T>(r: seq<T>, x: T, key: T -> int)
    requires NonIncreasing(r, key)
    ensures NonIncreasing(InsertDesc(r, x, key), key)
  {
    if r != [] && key(r[0]) >= key(x) {
      var tail := InsertDesc(r[1..], x, key);
      InsertOrdered(r[1..], x, key);
      InsertPermutation(r[1..], x, key);
      forall j | 0 <= j < |tail| ensures key(r[0]) >= key(tail[j]) {
        assert tail[j] in multiset(tail);
        if tail[j] != x {
          assert tail[j] in multiset(r[1..]);
          var k :| 0 <= k < |r[1..]| && r[1..][k] == tail[j];
          assert r[k + 1] == tail[j];
        }
      }
      assert InsertDesc(r, x, key) == [r[0]] + tail;
    } else if r != [] {
      assert InsertDesc(r, x, key) == [x] + r;
    }
  }

  /** Inserting keeps the items of every key in order, with `x` after those
      of its own key. */
  lemma {:induction false} InsertStable<T>(r: seq<T>, x: T, key: T -> int, c: int)
    requires NonIncreasing(r, key)
    ensures WithKey(InsertDesc(r, x, key), key, c) == WithKey(r, key, c) + WithKey([x], key, c)
  {
    if r == [] {
      assert WithKey([x], key, c) == WithKey([x], key, c) + [];
    } else if key(r[0]) >= key(x) {
      InsertStable(r[1..], x, key, c);
      WithKeyAppend([r[0]], InsertDesc(r[1..], x, key), key, c);
      WithKeyAppend([r[0]], r[1..], key, c);
      assert [r[0]] + r[1..] == r;
    } else {
      WithKeyAppend([x], r, key, c);
      if key(x) == c {
        WithKeyNone(r, key, c);
      }
    }
  }

  /** The sort returns the same items, counted with repetition. */
  lemma {:induction false} SortPermutation<T>(s: seq<T>, key: T -> int)
    ensures multiset(SortDesc(s, key)) == multiset(s)
    ensures |SortDesc(s, key)| == |s|
    decreases |s|
  {
    if s != [] {
      SortPermutation(s[..|s| - 1], key);
      InsertPermutation(SortDesc(s[..|s| - 1], key), s[|s| - 1], key);
      assert s == s[..|s| - 1] + [s[|s| - 1]];
    }
  }

  /** The sort orders the items by non-increasing key. */
  lemma {:induction false} SortOrdered<T>(s: seq<T>, key: T -> int)
    ensures NonIncreasing(SortDesc(s, key), key)
    decreases |s|
  {
    if s != [] {
      SortOrdered(s[..|s| - 1], key);
      InsertOrdered(SortDesc(s[..|s| - 1], key), s[|s| - 1], key);
    }
  }

  /** The sort is stable: for every key, its items come out in the order
      they went in. */
  lemma {:induction false} SortStable<T>(s: seq<T>, key: T -> int, c: int)
    ensures WithKey(SortDesc(s, key), key, c) == WithKey(s, key, c)
    decreases |s|
  {
    if s != [] {
      var init := s[..|s| - 1];
      SortStable(init, key, c);
      SortOrdered(init, key);
      InsertStable(SortDesc(init, key), s[|s| - 1], key, c);
      assert s == init + [s[|s| - 1]];
      WithKeyAppend(init, [s[|s| - 1]], key, c);
    }
  }

  /** `items` lists the entries of `m`, each key once, in some order: what
      `dict.items()` yields. */
  ghost predicate Lists<K, V>(m: map<K, V>, items: seq<(K, V)>) {
    && (forall i :: 0 <= i < |items| ==> items[i].0 in m && m[items[i].0] == items[i].1)
    && (forall i, j :: 0 <= i < j < |items| ==> items[i].0 != items[j].0)
    && (forall k :: k in m ==> exists i :: 0 <= i < |items| && items[i].0 == k)
  }

  /** `dict.items()`: the entries of `m` in an order the model leaves open
      (Python's insertion order is not recorded in a `map`). */
  method Items<K, V>(m: map<K, V>) returns (items: seq<(K, V)>)
    ensures Lists(m, items) && |items| == |m|
  {
    items := [];
    var rest := m.Keys;
    while rest != {}
      invariant rest <= m.Keys && |items| + |rest| == |m|
      invariant forall i :: 0 <= i < |items| ==> items[i].0 in m && m[items[i].0] == items[i].1 && items[i].0 !in rest
      invariant forall i, j :: 0 <= i < j < |items| ==> items[i].0 != items[j].0
      invariant forall k :: k in m && k !in rest ==> exists i :: 0 <= i < |items| && items[i].0 == k
      decreases rest
    {
      var k :| k in rest;
      ghost var before := items;
      items := items + [(k, m[k])];
      forall k' | k' in m && k' !in rest - {k} ensures exists i :: 0 <= i < |items| && items[i].0 == k' {
        if k' == k {
          assert items[|before|].0 == k;
        } else {
          var i :| 0 <= i < |before| && before[i].0 == k';
          assert items[i].0 == k';
        }
      }
      rest := rest - {k};
    }
  }

  /** An element occurs at most once in a duplicate-free sequence. */
  lemma {:induction false} DistinctOnce<T>(s: seq<T>, x: T)
    requires forall i, j :: 0 <= i < j < |s| ==> s[i] != s[j]
    ensures multiset(s)[x] <= 1
  {
    if s != [] {
      DistinctOnce(s[1..], x);
      assert s == [s[0]] + s[1..];
      assert s[0] !in s[1..];
    }
  }

  /** Reordering a listing of `m` lists `m` again. */
  lemma ListsPermutation<K, V>(m: map<K, V>, a: seq<(K, V)>, b: seq<(K, V)>)
    requires Lists(m, a) && multiset(a) == multiset(b)
    ensures Lists(m, b)
  {
    forall i | 0 <= i < |b| ensures b[i] in a {
      assert b[i] in multiset(b);
    }
    forall k | k in m ensures exists i :: 0 <= i < |b| && b[i].0 == k {
      ReorderedKey(m, a, b, k);
    }
    forall i, j | 0 <= i < j < |b| ensures b[i].0 != b[j].0 {
      ReorderedDistinct(m, a, b, i, j);
    }
  }

  lemma ReorderedKey<K, V>(m: map<K, V>, a: seq<(K, V)>, b: seq<(K, V)>, k: K)
    requires Lists(m, a) && multiset(a) == multiset(b) && k in m
    ensures exists i :: 0 <= i < |b| && b[i].0 == k
  {
    var i :| 0 <= i < |a| && a[i].0 == k;
    assert a[i] in multiset(b);
    var t :| 0 <= t < |b| && b[t] == a[i];
  }

  lemma ReorderedDistinct<K, V>(m: map<K, V>, a: seq<(K, V)>, b: seq<(K, V)>, i: nat, j: nat)
    requires Lists(m, a) && multiset(a) == multiset(b) && i < j < |b|
    ensures b[i].0 != b[j].0
  {
    assert b[i] in multiset(b) && b[j] in multiset(b);
    if b[i].0 == b[j].0 {
      assert b[i] in a && b[j] in a;
      assert b[i] == b[j];
      assert b == b[..i] + [b[i]] + b[i + 1..j] + [b[j]] + b[j + 1..];
      assert multiset(b)[b[i]] >= 2;
      DistinctOnce(a, b[i]);
    }
  }

  /** A descending sort of a listing of `m` lists `m` again,
      by non-increasing key, stably. */
  lemma SortListing<K, V>(m: map<K, V>, items: seq<(K, V)>, key: ((K, V)) -> int)
    requires Lists(m, items)
    ensures Lists(m, SortDesc(items, key)) && |SortDesc(items, key)| == |items|
    ensures NonIncreasing(SortDesc(items, key), key)
    ensures forall c :: WithKey(SortDesc(items, key), key, c) == WithKey(items, key, c)
  {
    SortPermutation(items, key);
    ListsPermutation(m, items, SortDesc(items, key));
    SortOrdered(items, key);
    forall c ensures WithKey(SortDesc(items, key), key, c) == WithKey(items, key, c) {
      SortStable(items, key, c);
    }
  }
}
