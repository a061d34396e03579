/** The exhaustive strategy of algorithm/brute_force_graphlet_counter.py:
    every `size`-combination of the node names is generated, and the ones
    with enough internal adjacencies are saved as graphlets. */
module Exhaustive {
  import opened Util
  import opened GraphStore
  import opened Signature
  import opened Counts

  /** `[[name] for name in names]`. */
  function Singletons(names: seq<Name>): seq<seq<Name>> {
    seq(|names|, i requires 0 <= i < |names| => [names[i]])
  }

  /** Every list of `cs` with `x` appended. */
  function Appended(cs: seq<seq<Name>>, x: Name): seq<seq<Name>> {
    seq(|cs|, i requires 0 <= i < |cs| => cs[i] + [x])
  }

  /** Extending one more list of `cs` after those before it. */
  lemma AppendedSnoc(base: seq<seq<Name>>, cs: seq<seq<Name>>, j: nat, x: Name)
    requires j < |cs|
    ensures base + Appended(cs[..j + 1], x) == (base + Appended(cs[..j], x)) + [cs[j] + [x]]
  {
    assert Appended(cs[..j + 1], x) == Appended(cs[..j], x) + [cs[j] + [x]] by {
      assert Appended(cs[..j + 1], x)[j] == cs[j] + [x];
    }
  }

  /** Reference definition of `_get_node_combinations`: the combinations that
      take `names[0]` (appended last, after the rest of the combination) come
      first, then those that skip it. */
  function Combinations(names: seq<Name>, size: int): seq<seq<Name>>
    decreases |names|
  {
    if size == 1 then Singletons(names)
    else if names == [] then []
    else Appended(Combinations(names[1..], size - 1), names[0]) + Combinations(names[1..], size)
  }

  /** What the loop over `i` has built after its first `i` rounds. */
  function LoopCombinations(names: seq<Name>, size: int, i: nat): seq<seq<Name>>
    requires i <= |names|
  {
    if i == 0 then []
    else LoopCombinations(names, size, i - 1) + Appended(Combinations(names[i..], size - 1), names[i - 1])
  }

  lemma {:induction false} LoopShift(names: seq<Name>, size: int, i: nat)
    requires 1 <= i <= |names|
    ensures LoopCombinations(names, size, i)
         == Appended(Combinations(names[1..], size - 1), names[0]) + LoopCombinations(names[1..], size, i - 1)
  {
    if i > 1 {
      LoopShift(names, size, i - 1);
      assert names[1..][i - 1..] == names[i..];
      assert names[1..][i - 2] == names[i - 1];
    }
  }

  lemma {:induction false} LoopComplete(names: seq<Name>, size: int)
    requires size != 1
    ensures LoopCombinations(names, size, |names|) == Combinations(names, size)
    decreases |names|
  {
    if names != [] {
      LoopShift(names, size, |names|);
      LoopComplete(names[1..], size);
    }
  }

  /** `_get_node_combinations`: a recursive call per start index, each result
      extended in place by the start name. */
  method NodeCombinations(names: seq<Name>, size: int) returns (r: seq<seq<Name>>)
    ensures r == Combinations(names, size)
    decreases |names|
  {
    if size == 1 {
      return Singletons(names);
    }
    r := [];
    for i := 0 to |names|
      invariant r == LoopCombinations(names, size, i)
    {
      var sub := NodeCombinations(names[i + 1..], size - 1);
      ghost var base := r;
      for j := 0 to |sub|
        invariant r == base + Appended(sub[..j], names[i])
      {
        AppendedSnoc(base, sub, j, names[i]);
        r := r + [sub[j] + [names[i]]];
      }
      assert sub[..|sub|] == sub;
    }
    LoopComplete(names, size);
  }

  /** `c` lists positions of `names` in strictly decreasing order: read
      backwards, it is a subsequence of `names`. */
  predicate RevSub(c: seq<Name>, names: seq<Name>)
    decreases |names|
  {
    if c == [] then true
    else if names == [] then false
    else (c[|c| - 1] == names[0] && RevSub(c[..|c| - 1], names[1..])) || RevSub(c, names[1..])
  }

  /** The elements of such a `c` are elements of `names`, none twice when
      `names` has none twice. */
  lemma {:induction false} RevSubElements(c: seq<Name>, names: seq<Name>)
    requires RevSub(c, names)
    ensures forall x :: x in c ==> x in names
    ensures NoDup(names) ==> NoDup(c)
    decreases |names|
  {
    if c != [] {
      if c[|c| - 1] == names[0] && RevSub(c[..|c| - 1], names[1..]) {
        var init := c[..|c| - 1];
        RevSubElements(init, names[1..]);
        assert c == init + [names[0]];
        if NoDup(names) {
          assert names[0] !in names[1..];
          NoDupConcat(init, [names[0]]);
        }
      } else {
        RevSubElements(c, names[1..]);
      }
    }
  }

  /** Every combination has `size` elements and picks positions of `names`
      in decreasing order. */
  lemma {:induction false} CombinationsSound(names: seq<Name>, size: int, c: seq<Name>)
    requires c in Combinations(names, size)
    ensures |c| == size && RevSub(c, names)
    decreases |names|
  {
    if size == 1 {
      var i :| 0 <= i < |names| && c == [names[i]];
      RevSubSingle(names, i);
    } else {
      var with := Appended(Combinations(names[1..], size - 1), names[0]);
      if c in with {
        var i :| 0 <= i < |with| && c == with[i];
        var c0 := Combinations(names[1..], size - 1)[i];
        CombinationsSound(names[1..], size - 1, c0);
        assert c[..|c| - 1] == c0;
      } else {
        CombinationsSound(names[1..], size, c);
      }
    }
  }

  lemma {:induction false} RevSubSingle(names: seq<Name>, i: nat)
    requires i < |names|
    ensures RevSub([names[i]], names)
    decreases |names|
  {
    if i > 0 {
      RevSubSingle(names[1..], i - 1);
    } else {
      assert [names[0]][..0] == [];
    }
  }

  /** Every one-element choice is a singleton of `names`. */
  lemma SingletonsComplete(names: seq<Name>, c: seq<Name>)
    requires |c| == 1 && RevSub(c, names)
    ensures c in Singletons(names)
  {
    RevSubElements(c, names);
    assert c[0] in c;
    var i :| 0 <= i < |names| && names[i] == c[0];
    assert Singletons(names)[i] == c;
  }

  lemma AppendedContains(cs: seq<seq<Name>>, x: Name, c: seq<Name>)
    requires c in cs
    ensures c + [x] in Appended(cs, x)
  {
    var i :| 0 <= i < |cs| && cs[i] == c;
    assert Appended(cs, x)[i] == c + [x];
  }

  /** No combination is missed: every choice of `size` positions in
      decreasing order is produced. */
  lemma {:induction false} CombinationsComplete(names: seq<Name>, size: int, c: seq<Name>)
    requires size >= 1 && |c| == size && RevSub(c, names)
    ensures c in Combinations(names, size)
    decreases |names|
  {
    if size == 1 {
      SingletonsComplete(names, c);
    } else if c[|c| - 1] == names[0] && RevSub(c[..|c| - 1], names[1..]) {
      var init := c[..|c| - 1];
      CombinationsComplete(names[1..], size - 1, init);
      AppendedContains(Combinations(names[1..], size - 1), names[0], init);
      assert c == init + [names[0]];
    } else {
      CombinationsComplete(names[1..], size, c);
    }
  }

  /** Sizes outside 1..|names| give no combination. */
  lemma {:induction false} CombinationsEmpty(names: seq<Name>, size: int)
    requires size <= 0 || size > |names|
    ensures Combinations(names, size) == []
    decreases |names|
  {
    if names != [] {
      CombinationsEmpty(names[1..], size - 1);
      CombinationsEmpty(names[1..], size);
    }
  }

  /** No combination is produced twice when the names are distinct, and
      each one has distinct elements. */
  lemma {:induction false} CombinationsDistinct(names: seq<Name>, size: int)
    requires NoDup(names)
    ensures NoDup(Combinations(names, size))
    ensures forall c :: c in Combinations(names, size) ==> NoDup(c)
    decreases |names|
  {
    forall c | c in Combinations(names, size) ensures NoDup(c) {
      CombinationsSound(names, size, c);
      RevSubElements(c, names);
    }
    if size == 1 {
      var r := Singletons(names);
      forall i, j | 0 <= i < j < |r| ensures r[i] != r[j] {
        assert r[i][0] == names[i] && r[j][0] == names[j];
      }
    } else if names != [] {
      var sub := Combinations(names[1..], size - 1);
      var with := Appended(sub, names[0]);
      var without := Combinations(names[1..], size);
      CombinationsDistinct(names[1..], size - 1);
      CombinationsDistinct(names[1..], size);
      forall i, j | 0 <= i < j < |with| ensures with[i] != with[j] {
        assert with[i][..|with[i]| - 1] == sub[i];
        assert with[j][..|with[j]| - 1] == sub[j];
      }
      HeadAbsent(names, size);
      forall c | c in with ensures c !in without {
        var i :| 0 <= i < |with| && c == with[i];
        assert c[|c| - 1] == names[0];
      }
      NoDupConcat(with, without);
    }
  }

  /** Over distinct registered names, every combination is a valid member
      list for a graphlet. */
  lemma CombinationMembers(tbl: map<Name, Node>, names: seq<Name>, size: int, c: seq<Name>)
    requires NoDup(names) && forall x :: x in names ==> x in tbl
    requires c in Combinations(names, size)
    ensures Members(tbl, c)
  {
    CombinationsSound(names, size, c);
    RevSubElements(c, names);
  }

  /** The combinations that skip the first name do not contain it. */
  lemma HeadAbsent(names: seq<Name>, size: int)
    requires NoDup(names) && names != []
    ensures forall c :: c in Combinations(names[1..], size) ==> names[0] !in c
  {
    forall c | c in Combinations(names[1..], size) ensures names[0] !in c {
      CombinationsSound(names[1..], size, c);
      RevSubElements(c, names[1..]);
    }
  }

  /** Binomial coefficient by Pascal's rule. */
  function Binom(n: nat, k: nat): nat {
    if k == 0 then 1 else if n == 0 then 0 else Binom(n - 1, k - 1) + Binom(n - 1, k)
  }

  lemma {:induction false} BinomOne(n: nat)
    ensures Binom(n, 1) == n
  {
    if n > 0 {
      BinomOne(n - 1);
    }
  }

  /** The combinations that take the first name and those that skip it:
      Pascal's rule, one level down. */
  lemma CombinationsSplit(names: seq<Name>, size: int)
    requires size >= 2 && names != []
    requires |Combinations(names[1..], size - 1)| == Binom(|names| - 1, size - 1)
    requires |Combinations(names[1..], size)| == Binom(|names| - 1, size)
    ensures |Combinations(names, size)| == Binom(|names|, size)
  {
    assert |Appended(Combinations(names[1..], size - 1), names[0])| == |Combinations(names[1..], size - 1)|;
  }

  /** There are C(n, size) combinations of `n` names. */
  lemma {:induction false} CombinationsCount(names: seq<Name>, size: nat)
    requires size >= 1
    ensures |Combinations(names, size)| == Binom(|names|, size)
    decreases |names|
  {
    if size == 1 {
      BinomOne(|names|);
      assert |Singletons(names)| == |names|;
    } else if names == [] {
      CombinationsEmpty(names, size);
    } else {
      CombinationsCount(names[1..], size - 1);
      CombinationsCount(names[1..], size);
      CombinationsSplit(names, size);
    }
  }

  /** `{name: i for i, name in enumerate(combination)}`: a later position
      overwrites an earlier one. */
  function IndexMap(s: seq<Name>): map<Name, nat>
    decreases |s|
  {
    if s == [] then map[] else IndexMap(s[..|s| - 1])[s[|s| - 1] := |s| - 1]
  }

  lemma {:induction false} IndexMapKeys(s: seq<Name>)
    ensures IndexMap(s).Keys == set x | x in s
    decreases |s|
  {
    if s != [] {
      IndexMapKeys(s[..|s| - 1]);
      assert s == s[..|s| - 1] + [s[|s| - 1]];
    }
  }

  /** With distinct names, the map gives each name its position. */
  lemma {:induction false} IndexMapAt(s: seq<Name>, i: nat)
    requires NoDup(s) && i < |s|
    ensures s[i] in IndexMap(s) && IndexMap(s)[s[i]] == i
    decreases |s|
  {
    if i < |s| - 1 {
      IndexMapAt(s[..|s| - 1], i);
    }
  }

  /** Neighbour test of the inner loop: a member at a later position. */
  function Later(index: map<Name, nat>, i: nat): Name -> bool {
    n => n in index && index[n] > i
  }

  /** Adjacencies the scan counts at member `i`. */
  function CountedAt(tbl: map<Name, Node>, s: seq<Name>, i: nat): nat
    requires i < |s|
  {
    Count(Neighbors(tbl, s[i]), Later(IndexMap(s), i))
  }

  /** `edge_count` after a full scan of the first `k` members. */
  function CountedBefore(tbl: map<Name, Node>, s: seq<Name>, k: nat): nat
    requires k <= |s|
  {
    if k == 0 then 0 else CountedBefore(tbl, s, k - 1) + CountedAt(tbl, s, k - 1)
  }

  /** The verdict of `_check_valid_combination`, in terms of the full count. */
  predicate Accepts(tbl: map<Name, Node>, s: seq<Name>, size: int)
  {
    var total := CountedBefore(tbl, s, |s|);
    total >= 1 && total >= size - 1
  }

  lemma {:induction false} CountedBeforeMonotone(tbl: map<Name, Node>, s: seq<Name>, j: nat, k: nat)
    requires j <= k <= |s|
    ensures CountedBefore(tbl, s, j) <= CountedBefore(tbl, s, k)
    decreases k - j
  {
    if j < k {
      CountedBeforeMonotone(tbl, s, j, k - 1);
    }
  }

  lemma {:induction false} CountPrefixBound<T>(s: seq<T>, j: nat, p: T -> bool)
    requires j <= |s|
    ensures Count(s[..j], p) <= Count(s, p)
  {
    assert s == s[..j] + s[j..];
    CountAppend(s[..j], s[j..], p);
  }

  /** A count taken part-way through the scan never exceeds the full count. */
  lemma PartialCountBound(tbl: map<Name, Node>, s: seq<Name>, i: nat, j: nat)
    requires i < |s| && j <= |Neighbors(tbl, s[i])|
    ensures ScanCount(tbl, s, i, j) <= CountedBefore(tbl, s, |s|)
  {
    CountPrefixBound(Neighbors(tbl, s[i]), j, Later(IndexMap(s), i));
    CountedBeforeMonotone(tbl, s, i + 1, |s|);
  }

  /** `edge_count` part-way through the scan: the rows before member `i`
      and the first `j` neighbours of member `i`. */
  function ScanCount(tbl: map<Name, Node>, s: seq<Name>, i: nat, j: nat): nat
    requires i < |s| && j <= |Neighbors(tbl, s[i])|
  {
    CountedBefore(tbl, s, i) + Count(Neighbors(tbl, s[i])[..j], Later(IndexMap(s), i))
  }

  /** One neighbour further into the scan. */
  lemma ScanStep(tbl: map<Name, Node>, s: seq<Name>, i: nat, j: nat)
    requires i < |s| && j < |Neighbors(tbl, s[i])|
    ensures var n := Neighbors(tbl, s[i])[j];
      ScanCount(tbl, s, i, j + 1) == ScanCount(tbl, s, i, j)
        + (if n in IndexMap(s) && IndexMap(s)[n] > i then 1 else 0)
  {
    CountSnoc(Neighbors(tbl, s[i]), j, Later(IndexMap(s), i));
  }

  /** A finished row is the count of the next prefix. */
  lemma ScanRowDone(tbl: map<Name, Node>, s: seq<Name>, i: nat)
    requires i < |s|
    ensures ScanCount(tbl, s, i, |Neighbors(tbl, s[i])|) == CountedBefore(tbl, s, i + 1)
  {
    assert Neighbors(tbl, s[i])[..|Neighbors(tbl, s[i])|] == Neighbors(tbl, s[i]);
  }

  /** Neighbours of `x` among the members after it. */
  function AdjacentTo(tbl: map<Name, Node>, x: Name): Name -> bool {
    y => Adjacent(tbl, x, y)
  }

  /** Number of unordered member pairs {s[i], s[j]}, i < j < k, that are
      undirected neighbours. */
  function AdjacentPairs(tbl: map<Name, Node>, s: seq<Name>, k: nat): nat
    requires k <= |s|
  {
    if k == 0 then 0 else AdjacentPairs(tbl, s, k - 1) + Count(s[k..], AdjacentTo(tbl, s[k - 1]))
  }

  /** With distinct names, "a member at a later position" is membership in
      the suffix. */
  lemma LaterIff(s: seq<Name>, i: nat, n: Name)
    requires NoDup(s) && i < |s|
    ensures Later(IndexMap(s), i)(n) <==> n in s[i + 1..]
  {
    IndexMapKeys(s);
    if n in s {
      var j :| 0 <= j < |s| && s[j] == n;
      IndexMapAt(s, j);
      if j > i {
        assert s[i + 1..][j - i - 1] == n;
      }
    }
    if n in s[i + 1..] {
      var a :| 0 <= a < |s[i + 1..]| && s[i + 1..][a] == n;
      assert s[i + 1 + a] == n;
      IndexMapAt(s, i + 1 + a);
    }
  }

  lemma SuffixNoDup(s: seq<Name>, k: nat)
    requires NoDup(s) && k <= |s|
    ensures NoDup(s[k..])
  {
    forall a, b | 0 <= a < b < |s[k..]| ensures s[k..][a] != s[k..][b] {
      assert s[k..][a] == s[k + a] && s[k..][b] == s[k + b];
    }
  }

  /** The count at one member: its adjacent members at later positions. */
  lemma RowCount(tbl: map<Name, Node>, s: seq<Name>, i: nat)
    requires WellFormed(tbl) && NoDup(s) && i < |s|
    ensures CountedAt(tbl, s, i) == Count(s[i + 1..], AdjacentTo(tbl, s[i]))
  {
    var nbrs := Neighbors(tbl, s[i]);
    var p := Later(IndexMap(s), i);
    var q := AdjacentTo(tbl, s[i]);
    CountCard(nbrs, p);
    SuffixNoDup(s, i + 1);
    CountCard(s[i + 1..], q);
    forall n ensures (n in nbrs && p(n)) <==> (n in s[i + 1..] && q(n)) {
      LaterIff(s, i, n);
    }
    assert Matching(nbrs, p) == Matching(s[i + 1..], q);
  }

  /** For a combination of distinct names, the scan counts every adjacent
      unordered pair of members exactly once. */
  lemma {:induction false} CountedIsAdjacentPairs(tbl: map<Name, Node>, s: seq<Name>, k: nat)
    requires WellFormed(tbl) && NoDup(s) && k <= |s|
    ensures CountedBefore(tbl, s, k) == AdjacentPairs(tbl, s, k)
  {
    if k > 0 {
      CountedIsAdjacentPairs(tbl, s, k - 1);
      RowCount(tbl, s, k - 1);
    }
  }

  /** A single name is never accepted: a member is not counted against
      itself. */
  lemma SingletonNeverAccepted(tbl: map<Name, Node>, x: Name, size: int)
    requires WellFormed(tbl)
    ensures !Accepts(tbl, [x], size)
  {
    CountedIsAdjacentPairs(tbl, [x], 1);
    assert [x][1..] == [];
  }

  /** For distinct names, the combination is accepted exactly when at least
      `size - 1` (and at least one) unordered member pairs are adjacent. */
  lemma AcceptsIffPairs(tbl: map<Name, Node>, s: seq<Name>, size: int)
    requires WellFormed(tbl) && NoDup(s)
    ensures Accepts(tbl, s, size) <==> AdjacentPairs(tbl, s, |s|) >= 1 && AdjacentPairs(tbl, s, |s|) >= size - 1
  {
    CountedIsAdjacentPairs(tbl, s, |s|);
  }

  /** The combinations `count_graphlets` keeps, in order. */
  function Kept(tbl: map<Name, Node>, cs: seq<seq<Name>>, size: int): seq<seq<Name>> {
    if cs == [] then []
    else Kept(tbl, cs[..|cs| - 1], size) + (if Accepts(tbl, cs[|cs| - 1], size) then [cs[|cs| - 1]] else [])
  }

  lemma KeptSnoc(tbl: map<Name, Node>, cs: seq<seq<Name>>, k: nat, size: int)
    requires k < |cs|
    ensures Kept(tbl, cs[..k + 1], size) == Kept(tbl, cs[..k], size) + (if Accepts(tbl, cs[k], size) then [cs[k]] else [])
  {
    assert cs[..k + 1][..k] == cs[..k];
  }

  /** One more combination considered: saved and counted when accepted,
      skipped otherwise. */
  lemma KeptStep(cm: CountMap, tbl: map<Name, Node>, cs: seq<seq<Name>>, k: nat, size: int)
    requires k < |cs|
    ensures Accepts(tbl, cs[k], size) ==>
      && SaveAll(cm, tbl, Kept(tbl, cs[..k + 1], size)) == Saved(SaveAll(cm, tbl, Kept(tbl, cs[..k], size)), tbl, cs[k])
      && |Kept(tbl, cs[..k + 1], size)| == |Kept(tbl, cs[..k], size)| + 1
    ensures !Accepts(tbl, cs[k], size) ==> Kept(tbl, cs[..k + 1], size) == Kept(tbl, cs[..k], size)
  {
    KeptSnoc(tbl, cs, k, size);
    SaveAllSnoc(cm, tbl, Kept(tbl, cs[..k], size), cs[k]);
  }

  lemma {:induction false} KeptMembers(tbl: map<Name, Node>, cs: seq<seq<Name>>, size: int, c: seq<Name>)
    requires c in Kept(tbl, cs, size)
    ensures c in cs && Accepts(tbl, c, size)
  {
    if cs != [] && c !in Kept(tbl, cs[..|cs| - 1], size) {
      assert c == cs[|cs| - 1];
    } else if cs != [] {
      KeptMembers(tbl, cs[..|cs| - 1], size, c);
    }
  }

  class BruteForceGraphletCounter {
    const graph: Graph
    /** `_graphlet_count_map`. */
    var countMap: CountMap
    /** `_processed_nodes`: initialised, never used by this strategy. */
    var processed: set<Name>

    ghost predicate Valid()
      reads this, graph
    {
      graph.Valid() && WellKeyed(graph.nodes, countMap)
    }

    constructor (g: Graph)
      requires g.Valid()
      ensures Valid()
      ensures graph == g && countMap == map[] && processed == {}
    {
      graph := g;
      countMap := map[];
      processed := {};
    }

    /** `_check_valid_combination`: scan the members in order, count each
        neighbour that is a member at a later position, and stop with True as
        soon as the count reaches `size - 1`. */
    method CheckValidCombination(s: seq<Name>, size: int) returns (valid: bool)
      requires forall x :: x in s ==> x in graph.nodes
      ensures valid == Accepts(graph.nodes, s, size)
    {
      var tbl := graph.nodes;
      var index := IndexMap(s);
      // `set(combination)`: the same names as the keys of the index map
      var nodesSet := index.Keys;
      var edgeCount := 0;
      for i := 0 to |s|
        invariant edgeCount == CountedBefore(tbl, s, i)
        invariant edgeCount == 0 || edgeCount < size - 1
      {
        var neighbors := Neighbors(tbl, s[i]);
        for j := 0 to |neighbors|
          invariant edgeCount == ScanCount(tbl, s, i, j)
          invariant edgeCount == 0 || edgeCount < size - 1
        {
          var n := neighbors[j];
          ScanStep(tbl, s, i, j);
          if n in nodesSet && index[n] > i {
            edgeCount := edgeCount + 1;
            if edgeCount >= size - 1 {
              PartialCountBound(tbl, s, i, j + 1);
              return true;
            }
          }
        }
        ScanRowDone(tbl, s, i);
      }
      return false;
    }

    /** `_create_and_save_graphlet`: append the graphlet under its signature. */
    method SaveGraphlet(members: seq<Name>)
      requires Valid() && Members(graph.nodes, members)
      modifies this
      ensures Valid()
      ensures countMap == Saved(old(countMap), graph.nodes, members)
      ensures processed == old(processed)
    {
      var sig := ComputeSignature(graph.nodes, members);
      SavedWellKeyed(countMap, graph.nodes, members);
      countMap := countMap[sig := Listed(countMap, sig) + [Graphlet(members)]];
    }

    /** `count_graphlets`: save every accepted combination of the node names;
        `count` is the number the source prints. */
    method CountGraphlets(size: int) returns (result: CountMap, count: nat)
      requires Valid()
      modifies this
      ensures Valid()
      ensures countMap == SaveAll(old(countMap), graph.nodes, Kept(graph.nodes, Combinations(graph.order, size), size))
      ensures count == |Kept(graph.nodes, Combinations(graph.order, size), size)|
      ensures Total(countMap) == Total(old(countMap)) + count
      ensures result == countMap
    {
      var names := graph.order;
      ghost var tbl := graph.nodes;
      ghost var start := countMap;
      var combos := NodeCombinations(names, size);
      count := 0;
      for k := 0 to |combos|
        invariant Valid() && graph.nodes == tbl
        invariant countMap == SaveAll(start, tbl, Kept(tbl, combos[..k], size))
        invariant count == |Kept(tbl, combos[..k], size)|
      {
        var c := combos[k];
        KeptStep(start, tbl, combos, k, size);
        CombinationMembers(tbl, names, size, c);
        var isValid := CheckValidCombination(c, size);
        if isValid {
          count := count + 1;
          SaveGraphlet(c);
        }
      }
      assert combos[..|combos|] == combos;
      SaveAllTotal(start, tbl, Kept(tbl, combos, size));
      result := countMap;
    }
  }
}
