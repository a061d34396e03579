/** Small shared vocabulary: optional values, duplicate-free sequences, sums
    over sequences and Python's ordering of strings. */
module Util {

  datatype Option<T> = None | Some(value: T)

  /** No element occurs twice. */
  predicate NoDup<T(==)>(s: seq<T>) {
    forall i, j :: 0 <= i < j < |s| ==> s[i] != s[j]
  }

  /** Sum of `f` over the elements of `s`, counted with repetition. */
  function Sum<T>(s: seq<T>, f: T -> nat): nat {
    if s == [] then 0 else f(s[0]) + Sum(s[1..], f)
  }

  lemma {:induction false} SumAppend<T>(a: seq<T>, b: seq<T>, f: T -> nat)
    ensures Sum(a + b, f) == Sum(a, f) + Sum(b, f)
  {
    if a == [] {
      assert a + b == b;
    } else {
      assert (a + b)[1..] == a[1..] + b;
      SumAppend(a[1..], b, f);
    }
  }

  /** Removing the element at position `k` removes exactly its term. */
  lemma {:induction false} SumRemove<T>(s: seq<T>, k: nat, f: T -> nat)
    requires k < |s|
    ensures Sum(s, f) == f(s[k]) + Sum(s[..k] + s[k + 1..], f)
  {
    assert s == s[..k] + [s[k]] + s[k + 1..];
    SumAppend(s[..k] + [s[k]], s[k + 1..], f);
    SumAppend(s[..k], [s[k]], f);
    SumAppend(s[..k], s[k + 1..], f);
  }

  /** A position of an element that occurs in `s`. */
  lemma IndexOf<T>(s: seq<T>, x: T) returns (k: nat)
    requires x in multiset(s)
    ensures k < |s| && s[k] == x
  {
    k :| k < |s| && s[k] == x;
  }

  /** Dropping the element at position `k` drops one occurrence of it. */
  lemma MultisetRemove<T>(s: seq<T>, k: nat)
    requires k < |s|
    ensures multiset(s[..k] + s[k + 1..]) == multiset(s) - multiset{s[k]}
  {
    assert s == s[..k] + [s[k]] + s[k + 1..];
    assert multiset(s) == multiset(s[..k]) + multiset{s[k]} + multiset(s[k + 1..]);
  }

  /** The head of `a` sits somewhere in a permutation `b` of it, and the
      rests are permutations of each other. */
  lemma MatchHead<T>(a: seq<T>, b: seq<T>) returns (k: nat)
    requires a != [] && multiset(a) == multiset(b)
    ensures k < |b| && b[k] == a[0]
    ensures multiset(a[1..]) == multiset(b[..k] + b[k + 1..])
  {
    assert a == [a[0]] + a[1..];
    assert multiset(a) == multiset{a[0]} + multiset(a[1..]);
    k := IndexOf(b, a[0]);
    MultisetRemove(b, k);
  }

  /** A sum over a sequence does not depend on the order of its elements. */
  lemma {:induction false} SumPermutation<T>(a: seq<T>, b: seq<T>, f: T -> nat)
    requires multiset(a) == multiset(b)
    ensures Sum(a, f) == Sum(b, f)
  {
    if a == [] {
      assert |b| == |multiset(b)| == 0;
    } else {
      var k := MatchHead(a, b);
      SumPermutation(a[1..], b[..k] + b[k + 1..], f);
      SumRemove(b, k, f);
    }
  }

  /** A sum grows with its terms. */
  lemma {:induction false} SumMonotone<T>(s: seq<T>, f: T -> nat, g: T -> nat)
    requires forall x :: x in s ==> f(x) <= g(x)
    ensures Sum(s, f) <= Sum(s, g)
  {
    if s != [] {
      SumMonotone(s[1..], f, g);
    }
  }

  /** Sums agree when their terms agree on the elements summed. */
  lemma {:induction false} SumExt<T>(s: seq<T>, f: T -> nat, g: T -> nat)
    requires forall x :: x in s ==> f(x) == g(x)
    ensures Sum(s, f) == Sum(s, g)
  {
    if s != [] {
      SumExt(s[1..], f, g);
    }
  }

  /** Sums over two sequences agree when their terms agree position by
      position. */
  lemma {:induction false} SumMatched<T, U>(a: seq<T>, b: seq<U>, f: T -> nat, g: U -> nat)
    requires |a| == |b|
    requires forall i :: 0 <= i < |a| ==> f(a[i]) == g(b[i])
    ensures Sum(a, f) == Sum(b, g)
  {
    if a != [] {
      assert forall i :: 0 <= i < |a| - 1 ==> a[1..][i] == a[i + 1] && b[1..][i] == b[i + 1];
      SumMatched(a[1..], b[1..], f, g);
    }
  }

  /** A sum of pointwise sums is the sum of the two sums. */
  lemma {:induction false} SumAdd<T>(s: seq<T>, f: T -> nat, g: T -> nat, h: T -> nat)
    requires forall x :: x in s ==> h(x) == f(x) + g(x)
    ensures Sum(s, h) == Sum(s, f) + Sum(s, g)
  {
    if s != [] {
      SumAdd(s[1..], f, g, h);
    }
  }

  /** A sum of zero terms is zero. */
  lemma {:induction false} SumZero<T>(s: seq<T>, f: T -> nat)
    requires forall x :: x in s ==> f(x) == 0
    ensures Sum(s, f) == 0
  {
    if s != [] {
      SumZero(s[1..], f);
    }
  }

  /** Column `y` of a table of terms `g(x)(y)`. */
  function Column<T>(g: T -> T -> nat, y: T): T -> nat {
    x => g(x)(y)
  }

  /** A double sum may be taken in either order: the sum of the row sums is
      the sum of the column sums. */
  lemma {:induction false} SumSwap<T>(a: seq<T>, b: seq<T>, g: T -> T -> nat, rows: T -> nat, cols: T -> nat)
    requires forall x :: x in a ==> rows(x) == Sum(b, g(x))
    requires forall y :: y in b ==> cols(y) == Sum(a, Column(g, y))
    ensures Sum(a, rows) == Sum(b, cols)
  {
    if a == [] {
      SumZero(b, cols);
    } else {
      var rest := y => Sum(a[1..], Column(g, y));
      SumSwap(a[1..], b, g, rows, rest);
      SumAdd(b, g(a[0]), rest, cols);
    }
  }

  /** The elements of a duplicate-free sequence form a set of its length. */
  lemma {:induction false} NoDupCard<T>(s: seq<T>)
    requires NoDup(s)
    ensures |set x | x in s| == |s|
  {
    if s != [] {
      NoDupCard(s[1..]);
      assert (set x | x in s) == (set x | x in s[1..]) + {s[0]};
      assert s[0] !in s[1..];
    }
  }

  /** Number of elements of `s` that satisfy `p`, counted with repetition. */
  function Count<T>(s: seq<T>, p: T -> bool): nat {
    if s == [] then 0 else (if p(s[0]) then 1 else 0) + Count(s[1..], p)
  }

  /** Counting a prefix one element further. */
  lemma {:induction false} CountSnoc<T>(s: seq<T>, j: nat, p: T -> bool)
    requires j < |s|
    ensures Count(s[..j + 1], p) == Count(s[..j], p) + (if p(s[j]) then 1 else 0)
  {
    assert s[..j + 1] == s[..j] + [s[j]];
    CountAppend(s[..j], [s[j]], p);
  }

  lemma {:induction false} CountAppend<T>(a: seq<T>, b: seq<T>, p: T -> bool)
    ensures Count(a + b, p) == Count(a, p) + Count(b, p)
  {
    if a == [] {
      assert a + b == b;
    } else {
      assert (a + b)[1..] == a[1..] + b;
      CountAppend(a[1..], b, p);
    }
  }

  /** The elements of `s` that satisfy `p`. */
  function Matching<T>(s: seq<T>, p: T -> bool): set<T> {
    set x | x in s && p(x)
  }

  /** In a duplicate-free sequence, the count is the size of the set of
      elements that satisfy `p`. */
  lemma {:induction false} CountCard<T>(s: seq<T>, p: T -> bool)
    requires NoDup(s)
    ensures Count(s, p) == |Matching(s, p)|
  {
    if s == [] {
      assert Matching(s, p) == {};
    } else {
      CountCard(s[1..], p);
      MatchingCons(s, p);
    }
  }

  /** The matching elements of a duplicate-free sequence: its head, when it
      matches, beside those of its tail. */
  lemma MatchingCons<T>(s: seq<T>, p: T -> bool)
    requires s != [] && NoDup(s)
    ensures NoDup(s[1..])
    ensures |Matching(s, p)| == (if p(s[0]) then 1 else 0) + |Matching(s[1..], p)|
  {
    assert s[0] !in s[1..];
    if p(s[0]) {
      assert Matching(s, p) == Matching(s[1..], p) + {s[0]};
    } else {
      assert Matching(s, p) == Matching(s[1..], p);
    }
  }

  /** Every element of `a` occurs in `b`. */
  ghost predicate Included<T>(a: seq<T>, b: seq<T>) {
    forall x :: x in a ==> x in b
  }

  lemma IncludedAppend<T>(x: seq<T>, a: seq<T>, b: seq<T>)
    ensures Included(x, a) ==> Included(x, a + b)
    ensures Included(x, b) ==> Included(x, a + b)
  {
  }

  /** Two duplicate-free sequences with no common element concatenate to a
      duplicate-free sequence. */
  lemma NoDupConcat<T>(a: seq<T>, b: seq<T>)
    requires NoDup(a) && NoDup(b)
    requires forall x :: x in a ==> x !in b
    ensures NoDup(a + b)
  {
    forall i, j | 0 <= i < j < |a + b| ensures (a + b)[i] != (a + b)[j] {
      if j >= |a| && i < |a| {
        assert (a + b)[i] in a;
        assert (a + b)[j] in b;
      }
    }
  }

  /** Python's `<` on `str`: lexicographic by code point, a proper prefix first. */
  predicate StrLess(a: string, b: string) {
    if a == [] then b != []
    else if b == [] then false
    else a[0] < b[0] || (a[0] == b[0] && StrLess(a[1..], b[1..]))
  }

  lemma {:induction false} StrLessIrreflexive(a: string)
    ensures !StrLess(a, a)
  {
    if a != [] {
      StrLessIrreflexive(a[1..]);
    }
  }

  lemma {:induction false} StrLessTransitive(a: string, b: string, c: string)
    requires StrLess(a, b) && StrLess(b, c)
    ensures StrLess(a, c)
  {
    if a != [] && b != [] && c != [] && a[0] == b[0] && b[0] == c[0] {
      StrLessTransitive(a[1..], b[1..], c[1..]);
    }
  }

  lemma {:induction false} StrLessTotal(a: string, b: string)
    requires a != b
    ensures StrLess(a, b) || StrLess(b, a)
  {
    if a != [] && b != [] && a[0] == b[0] {
      assert a == [a[0]] + a[1..] && b == [b[0]] + b[1..];
      StrLessTotal(a[1..], b[1..]);
    }
  }
}
