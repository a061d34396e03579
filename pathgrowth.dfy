/** Path growth by breadth-first search, shared by the BFS counter class
    (algorithm/bfs_graphlet_counter.py) and the free functions of the
    top-level brute_force_graphlet_counter.py, whose bodies are the same:
    grow simple paths from a start node, file them by length, then pair
    paths whose "combined length" is the target size. */
module PathGrowth {
  import opened Util
  import opened GraphStore
  import opened Signature
  import opened Counts

  /** A path as the node names along it. */
  type Path = seq<Name>

  /** `distance_to_path_map`: path length -> paths of that length, in the
      order they were found. */
  type Levels = map<nat, seq<Path>>

  /** Length of the longest common prefix of two paths. */
  function CommonPrefix(p1: Path, p2: Path): (c: nat)
    ensures c <= |p1| && c <= |p2|
    ensures p1[..c] == p2[..c]
    ensures c < |p1| && c < |p2| ==> p1[c] != p2[c]
  {
    if p1 == [] || p2 == [] || p1[0] != p2[0] then 0
    else
      var c := 1 + CommonPrefix(p1[1..], p2[1..]);
      assert p1[..c] == [p1[0]] + p1[1..][..c - 1];
      assert p2[..c] == [p2[0]] + p2[1..][..c - 1];
      c
  }

  /** Any prefix length with the two properties above is the common prefix. */
  lemma {:induction false} CommonPrefixUnique(p1: Path, p2: Path, c: nat)
    requires c <= |p1| && c <= |p2| && p1[..c] == p2[..c]
    requires c == |p1| || c == |p2| || p1[c] != p2[c]
    ensures CommonPrefix(p1, p2) == c
  {
    if c > 0 {
      assert p1[0] == p1[..c][0] == p2[..c][0] == p2[0];
      assert p1[1..][..c - 1] == p1[..c][1..] == p2[..c][1..] == p2[1..][..c - 1];
      CommonPrefixUnique(p1[1..], p2[1..], c - 1);
    }
  }

  /** `get_combined_path_length` / `path_combination`: total length minus
      the prefix the scan finds equal before its first mismatch. */
  method CombinedLength(p1: Path, p2: Path) returns (r: int)
    ensures r == |p1| + |p2| - CommonPrefix(p1, p2)
  {
    var total := |p1| + |p2|;
    var common := 0;
    var i := 0;
    while i < |p1|
      invariant 0 <= i <= |p1| && i <= |p2| && common == i
      invariant p1[..i] == p2[..i]
    {
      if i < |p2| && p1[i] == p2[i] {
        common := common + 1;
      } else {
        break;
      }
      assert p1[..i + 1] == p1[..i] + [p1[i]];
      assert p2[..i + 1] == p2[..i] + [p2[i]];
      i := i + 1;
    }
    CommonPrefixUnique(p1, p2, common);
    r := total - common;
  }

  /** The combined length, as a function. */
  function Combined(p1: Path, p2: Path): int {
    |p1| + |p2| - CommonPrefix(p1, p2)
  }

  /** The combined length does not depend on the order of the two paths. */
  lemma CombinedSymmetric(p1: Path, p2: Path)
    ensures Combined(p1, p2) == Combined(p2, p1)
  {
    CommonPrefixUnique(p2, p1, CommonPrefix(p1, p2));
  }

  /** A path combined with itself has its own length. */
  lemma CombinedSelf(p: Path)
    ensures Combined(p, p) == |p|
  {
    CommonPrefixUnique(p, p, |p|);
  }

  /** The elements of `q` that are not in `p`, in order. */
  function Missing(q: Path, p: Path): Path {
    if q == [] then [] else (if q[0] in p then [] else [q[0]]) + Missing(q[1..], p)
  }

  /** `set(path1).union(set(path2))`, listed as `path1` followed by the new
      names of `path2` (the signature does not depend on the order). */
  function Union(p1: Path, p2: Path): Path {
    p1 + Missing(p2, p1)
  }

  lemma {:induction false} MissingElements(q: Path, p: Path)
    ensures forall x :: x in Missing(q, p) <==> x in q && x !in p
    ensures NoDup(q) ==> NoDup(Missing(q, p))
    ensures |Missing(q, p)| <= |q|
  {
    if q != [] {
      MissingElements(q[1..], p);
      if NoDup(q) {
        assert q[0] !in q[1..];
        var head: Path := if q[0] in p then [] else [q[0]];
        NoDupConcat(head, Missing(q[1..], p));
      }
    }
  }

  /** The union has exactly the names of both paths, none twice. */
  lemma UnionElements(p1: Path, p2: Path)
    ensures forall x :: x in Union(p1, p2) <==> x in p1 || x in p2
    ensures NoDup(p1) && NoDup(p2) ==> NoDup(Union(p1, p2))
  {
    MissingElements(p2, p1);
    if NoDup(p1) && NoDup(p2) {
      NoDupConcat(p1, Missing(p2, p1));
    }
  }

  /** A path united with itself is the path. */
  lemma {:induction false} UnionSelf(p: Path)
    ensures Union(p, p) == p
  {
    MissingNone(p, p);
  }

  lemma {:induction false} MissingNone(q: Path, p: Path)
    requires forall x :: x in q ==> x in p
    ensures Missing(q, p) == []
  {
    if q != [] {
      MissingNone(q[1..], p);
    }
  }

  lemma {:induction false} MissingAppend(a: Path, b: Path, p: Path)
    ensures Missing(a + b, p) == Missing(a, p) + Missing(b, p)
  {
    if a == [] {
      assert a + b == b;
    } else {
      assert (a + b)[1..] == a[1..] + b;
      MissingAppend(a[1..], b, p);
    }
  }

  /** The union never has more names than the combined length: the common
      prefix of `p2` is already in `p1`. */
  lemma UnionBound(p1: Path, p2: Path)
    ensures |Union(p1, p2)| <= Combined(p1, p2)
  {
    var c := CommonPrefix(p1, p2);
    assert p2 == p2[..c] + p2[c..];
    MissingAppend(p2[..c], p2[c..], p1);
    forall x | x in p2[..c] ensures x in p1 {
      var i :| 0 <= i < c && p2[..c][i] == x;
      assert p1[..c][i] == x;
    }
    MissingNone(p2[..c], p1);
    MissingElements(p2[c..], p1);
  }

  /** The bound can be strict: two length-3 paths that share only their
      start and end have combined length 5 but only 4 names, so a pair
      accepted for a 5-node graphlet saves a 4-node one. */
  lemma UnionSmallerThanCombined()
    ensures Combined(["s", "a", "c"], ["s", "b", "c"]) == 5
    ensures |Union(["s", "a", "c"], ["s", "b", "c"])| == 4
  {
    var p1: Path := ["s", "a", "c"];
    var p2: Path := ["s", "b", "c"];
    CommonPrefixUnique(p1, p2, 1);
    assert p2[1..][1..] == ["c"];
    assert Missing(p2, p1) == ["b"];
  }

  /** A path grown from `start`: registered names, each step to an
      undirected neighbour, no name twice, and no processed name after the
      start. */
  ghost predicate Grown(tbl: map<Name, Node>, processed: set<Name>, start: Name, p: Path) {
    && |p| >= 1 && p[0] == start && NoDup(p)
    && (forall i :: 0 <= i < |p| ==> p[i] in tbl)
    && (forall i :: 0 <= i < |p| - 1 ==> Adjacent(tbl, p[i], p[i + 1]))
    && (forall i :: 1 <= i < |p| ==> p[i] !in processed)
  }

  /** `node_distance_map` covers `p`, each name at most at its position. */
  ghost predicate Recorded(dist: map<Name, nat>, p: Path) {
    forall i :: 0 <= i < |p| ==> p[i] in dist && dist[p[i]] <= i + 1
  }

  /** What the search leaves in `distance_to_path_map`: key 1 holds just the
      start, every other key lies between 2 and the target, and every path is
      grown from the start and filed under its own length. */
  ghost predicate Filed(tbl: map<Name, Node>, processed: set<Name>, start: Name, target: int, levels: Levels) {
    && 1 in levels && levels[1] == [[start]]
    && (forall k :: k in levels ==> k == 1 || 2 <= k <= target)
    && (forall k, p :: k in levels && p in levels[k] ==> |p| == k && Grown(tbl, processed, start, p))
  }

  /** `keys` is the insertion order of `levels`: the lengths 1, 2, 3, ...
      in turn, so the keys are filed in increasing order. */
  ghost predicate KeyOrder(levels: Levels, keys: seq<nat>) {
    && (forall i :: 0 <= i < |keys| ==> keys[i] == i + 1)
    && (forall k :: k in levels <==> k in keys)
  }

  /** Termination measure: a queued path of length `len` can still cause at
      most `Weight(len, n)` dequeues in a graph of `n` nodes. */
  function Weight(len: nat, n: nat): nat
    decreases n + 1 - len
  {
    if len > n then 0 else 1 + n * Weight(len + 1, n)
  }

  function WeightOf(n: nat): Path -> nat {
    p => Weight(|p|, n)
  }

  function Potential(queue: seq<Path>, n: nat): nat {
    Sum(queue, WeightOf(n))
  }

  /** A duplicate-free sequence drawn from a set is no longer than the set. */
  lemma NoDupBound<T>(s: seq<T>, S: set<T>)
    requires NoDup(s) && forall x :: x in s ==> x in S
    ensures |s| <= |S|
  {
    NoDupCard(s);
    var A := set x | x in s;
    assert S == A + (S - A) && A * (S - A) == {};
  }

  /** Lowering one recorded distance keeps every path recorded. */
  lemma RecordedUpdate(dist: map<Name, nat>, p: Path, x: Name, d: nat)
    requires Recorded(dist, p)
    requires x !in dist || d <= dist[x]
    ensures Recorded(dist[x := d], p)
  {
  }

  /** The distance guard rules out a name already on the path. */
  lemma GuardFresh(dist: map<Name, nat>, p: Path, x: Name)
    requires Recorded(dist, p)
    requires x !in dist || dist[x] > |p|
    ensures x !in p
  {
    forall i | 0 <= i < |p| ensures p[i] != x {
      assert p[i] in dist && dist[p[i]] <= |p|;
    }
  }

  /** One step of the search: the path extended by a neighbour that passes
      the guard is grown and recorded. */
  lemma ExtendGrown(tbl: map<Name, Node>, processed: set<Name>, start: Name, dist: map<Name, nat>, p: Path, x: Name)
    requires WellFormed(tbl) && Grown(tbl, processed, start, p) && Recorded(dist, p)
    requires x in Neighbors(tbl, p[|p| - 1]) && x !in processed
    requires x !in dist || dist[x] > |p|
    ensures Grown(tbl, processed, start, p + [x])
    ensures Recorded(dist[x := |p| + 1], p + [x])
  {
    NeighborsAdjacent(tbl, p[|p| - 1]);
    GuardFresh(dist, p, x);
    NoDupConcat(p, [x]);
    var q := p + [x];
    forall i | 0 <= i < |q| ensures q[i] in tbl && (i >= 1 ==> q[i] !in processed) {
      if i < |p| {
        assert q[i] == p[i];
      }
    }
    forall i | 0 <= i < |q| - 1 ensures Adjacent(tbl, q[i], q[i + 1]) {
      if i < |p| - 1 {
        assert q[i] == p[i] && q[i + 1] == p[i + 1];
      }
    }
    RecordedUpdate(dist, p, x, |p| + 1);
  }

  /** Queueing a path adds its weight. */
  lemma PushPotential(queue: seq<Path>, p: Path, n: nat)
    ensures Potential(queue + [p], n) == Potential(queue, n) + Weight(|p|, n)
  {
    SumAppend(queue, [p], WeightOf(n));
  }

  /** Dequeuing a path of length at most `n` frees more weight than its at
      most `n` children can take. */
  lemma PopPotential(queue: seq<Path>, n: nat, k: nat)
    requires queue != [] && |queue[0]| <= n && k <= n
    ensures Potential(queue[1..], n) + k * Weight(|queue[0]| + 1, n) < Potential(queue, n)
  {
    MulBound(k, n, Weight(|queue[0]| + 1, n));
  }

  /** A path the search holds: grown, recorded and, when not too long,
      with its length filed. */
  ghost predicate Held(tbl: map<Name, Node>, processed: set<Name>, start: Name, target: int,
                       dist: map<Name, nat>, levels: Levels, q: Path) {
    Grown(tbl, processed, start, q) && Recorded(dist, q) && (|q| <= target ==> |q| in levels)
  }

  /** The search invariant: every queued path and the path being expanded
      are held, the levels are well filed and `keys` is their order. */
  ghost predicate Searching(tbl: map<Name, Node>, processed: set<Name>, start: Name, target: int, current: Path,
                            queue: seq<Path>, dist: map<Name, nat>, levels: Levels, keys: seq<nat>) {
    && (forall q :: q in queue ==> Held(tbl, processed, start, target, dist, levels, q))
    && Held(tbl, processed, start, target, dist, levels, current)
    && Filed(tbl, processed, start, target, levels)
    && KeyOrder(levels, keys)
  }

  /** `distance_to_path_map.setdefault(len(p), []).append(p)`. */
  function FileUnder(levels: Levels, p: Path): (r: Levels)
    ensures r.Keys == levels.Keys + {|p|}
    ensures forall k :: k in levels && k != |p| ==> r[k] == levels[k]
  {
    levels[|p| := (if |p| in levels then levels[|p|] else []) + [p]]
  }

  /** The keys 1 .. |keys| all occur in an ordered key list. */
  lemma KeysRange(levels: Levels, keys: seq<nat>)
    requires KeyOrder(levels, keys)
    ensures forall k :: 1 <= k <= |keys| ==> k in levels
  {
    forall k | 1 <= k <= |keys| ensures k in levels {
      assert keys[k - 1] == k;
    }
  }

  /** Filing a path one longer than a filed length keeps the key order: a
      new key is always one more than the largest. */
  lemma FileKeys(levels: Levels, keys: seq<nat>, p: Path)
    requires KeyOrder(levels, keys) && |p| >= 2 && |p| - 1 in levels
    ensures KeyOrder(FileUnder(levels, p), if |p| in levels then keys else keys + [|p|])
  {
    var i :| 0 <= i < |keys| && keys[i] == |p| - 1;
    if |p| !in levels {
      KeysRange(levels, keys);
      assert |p| == |keys| + 1;
      var keys' := keys + [|p|];
      forall k ensures k in FileUnder(levels, p) <==> k in keys' {
        assert k in keys' <==> k in keys || k == |p|;
      }
    }
  }

  /** Lowering one distance and filing more keeps a held path held. */
  lemma HeldUpdate(tbl: map<Name, Node>, processed: set<Name>, start: Name, target: int,
                   dist: map<Name, nat>, levels: Levels, q: Path, x: Name, d: nat, levels': Levels)
    requires Held(tbl, processed, start, target, dist, levels, q)
    requires (x !in dist || d <= dist[x]) && levels.Keys <= levels'.Keys
    ensures Held(tbl, processed, start, target, dist[x := d], levels', q)
  {
    RecordedUpdate(dist, q, x, d);
  }

  /** Extending `current` by an admissible neighbour keeps the invariant,
      whether or not the extension is queued. */
  lemma ExtendKeeps(tbl: map<Name, Node>, processed: set<Name>, start: Name, target: int, current: Path,
                    queue: seq<Path>, dist: map<Name, nat>, levels: Levels, keys: seq<nat>, nb: Name,
                    levels': Levels, keys': seq<nat>)
    requires Searching(tbl, processed, start, target, current, queue, dist, levels, keys)
    requires WellFormed(tbl) && nb in Neighbors(tbl, current[|current| - 1])
    requires nb !in processed && (nb !in dist || dist[nb] > |current|)
    requires levels' == if |current| + 1 <= target then FileUnder(levels, current + [nb]) else levels
    requires keys' == if |current| + 1 <= target && |current| + 1 !in levels then keys + [|current| + 1] else keys
    ensures Searching(tbl, processed, start, target, current, queue, dist[nb := |current| + 1], levels', keys')
    ensures Searching(tbl, processed, start, target, current, queue + [current + [nb]], dist[nb := |current| + 1], levels', keys')
  {
    var p := current + [nb];
    ExtendHeld(tbl, processed, start, target, current, queue, dist, levels, nb, levels');
    if |p| <= target {
      FileKeys(levels, keys, p);
      FileFiled(tbl, processed, start, target, levels, p);
    }
  }

  /** Filing a grown path of length 2..target keeps the levels well filed. */
  lemma FileFiled(tbl: map<Name, Node>, processed: set<Name>, start: Name, target: int, levels: Levels, p: Path)
    requires Filed(tbl, processed, start, target, levels)
    requires Grown(tbl, processed, start, p) && 2 <= |p| <= target
    ensures Filed(tbl, processed, start, target, FileUnder(levels, p))
  {
    var levels' := FileUnder(levels, p);
    forall k, q | k in levels' && q in levels'[k] ensures |q| == k && Grown(tbl, processed, start, q) {
      if k != |p| {
        assert q in levels[k];
      } else if k in levels && q in levels[k] {
      } else {
        assert q == p;
      }
    }
  }

  /** The held paths stay held, and the new path is held, once its
      distance is recorded and its length filed. */
  lemma ExtendHeld(tbl: map<Name, Node>, processed: set<Name>, start: Name, target: int, current: Path,
                   queue: seq<Path>, dist: map<Name, nat>, levels: Levels, nb: Name, levels': Levels)
    requires forall q :: q in queue ==> Held(tbl, processed, start, target, dist, levels, q)
    requires Held(tbl, processed, start, target, dist, levels, current)
    requires WellFormed(tbl) && nb in Neighbors(tbl, current[|current| - 1])
    requires nb !in processed && (nb !in dist || dist[nb] > |current|)
    requires levels.Keys <= levels'.Keys && (|current| + 1 <= target ==> |current| + 1 in levels')
    ensures forall q :: q in queue ==> Held(tbl, processed, start, target, dist[nb := |current| + 1], levels', q)
    ensures Held(tbl, processed, start, target, dist[nb := |current| + 1], levels', current)
    ensures Held(tbl, processed, start, target, dist[nb := |current| + 1], levels', current + [nb])
  {
    var p := current + [nb];
    var dist' := dist[nb := |p|];
    ExtendGrown(tbl, processed, start, dist, current, nb);
    forall q | q in queue ensures Held(tbl, processed, start, target, dist', levels', q) {
      HeldUpdate(tbl, processed, start, target, dist, levels, q, nb, |p|, levels');
    }
    HeldUpdate(tbl, processed, start, target, dist, levels, current, nb, |p|, levels');
  }

  /** Every recorded distance is still recorded, at most as large. */
  ghost predicate Lowered(dist: map<Name, nat>, dist': map<Name, nat>) {
    forall x :: x in dist ==> x in dist' && dist'[x] <= dist[x]
  }

  lemma LoweredTrans(d1: map<Name, nat>, d2: map<Name, nat>, d3: map<Name, nat>)
    requires Lowered(d1, d2) && Lowered(d2, d3)
    ensures Lowered(d1, d3)
  {
  }

  /** No queued path has the target length, except the start path. */
  predicate ShortQueue(queue: seq<Path>, target: int) {
    forall q :: q in queue ==> |q| == 1 || |q| != target
  }

  /** The body of the loop over the neighbours, for neighbour `nb`: when
      `nb` is unprocessed and not yet reached by a path at most as long,
      `current + [nb]` is recorded, filed unless longer than the target and
      queued unless exactly as long. */
  method Visit(tbl: map<Name, Node>, processed: set<Name>, start: Name, target: int, current: Path,
               queue: seq<Path>, dist: map<Name, nat>, levels: Levels, keys: seq<nat>, nb: Name)
    returns (queue': seq<Path>, dist': map<Name, nat>, levels': Levels, keys': seq<nat>)
    requires Searching(tbl, processed, start, target, current, queue, dist, levels, keys)
    requires WellFormed(tbl) && nb in Neighbors(tbl, current[|current| - 1])
    ensures Searching(tbl, processed, start, target, current, queue', dist', levels', keys')
    ensures Lowered(dist, dist')
    ensures Potential(queue', |tbl.Keys|) <= Potential(queue, |tbl.Keys|) + Weight(|current| + 1, |tbl.Keys|)
    ensures queue' == queue || (queue' == queue + [current + [nb]] && |current| + 1 != target)
  {
    queue', dist', levels', keys' := queue, dist, levels, keys;
    if nb !in processed && (nb !in dist || dist[nb] > |current|) {
      var newPath := current + [nb];
      dist' := dist[nb := |newPath|];
      if |newPath| <= target {
        if |newPath| !in levels {
          keys' := keys + [|newPath|];
        }
        levels' := FileUnder(levels, newPath);
      }
      ExtendKeeps(tbl, processed, start, target, current, queue, dist, levels, keys, nb, levels', keys');
      if |newPath| != target {
        PushPotential(queue, newPath, |tbl.Keys|);
        queue' := queue + [newPath];
      }
    }
  }

  /** One turn of the search loop: every neighbour of the last name of
      `current` is visited in turn. Recorded distances only go down, and
      each neighbour queues at most one path one longer than `current`. */
  method Expand(tbl: map<Name, Node>, processed: set<Name>, start: Name, target: int, current: Path,
                queue: seq<Path>, dist: map<Name, nat>, levels: Levels, keys: seq<nat>)
    returns (queue': seq<Path>, dist': map<Name, nat>, levels': Levels, keys': seq<nat>)
    requires WellFormed(tbl)
    requires Searching(tbl, processed, start, target, current, queue, dist, levels, keys)
    ensures Searching(tbl, processed, start, target, current, queue', dist', levels', keys')
    ensures Lowered(dist, dist')
    ensures Potential(queue', |tbl.Keys|) <= Potential(queue, |tbl.Keys|)
      + |Neighbors(tbl, current[|current| - 1])| * Weight(|current| + 1, |tbl.Keys|)
    ensures ShortQueue(queue, target) ==> ShortQueue(queue', target)
  {
    var n := |tbl.Keys|;
    ghost var w := Weight(|current| + 1, n);
    queue', dist', levels', keys' := queue, dist, levels, keys;
    var neighbors := Neighbors(tbl, current[|current| - 1]);
    for j := 0 to |neighbors|
      invariant Searching(tbl, processed, start, target, current, queue', dist', levels', keys')
      invariant Lowered(dist, dist')
      invariant Potential(queue', n) <= Potential(queue, n) + j * w
      invariant ShortQueue(queue, target) ==> ShortQueue(queue', target)
    {
      MulSucc(j, w);
      ghost var before := dist';
      queue', dist', levels', keys' := Visit(tbl, processed, start, target, current, queue', dist', levels', keys', neighbors[j]);
      LoweredTrans(dist, before, dist');
    }
  }

  /** The invariant of the outer search loop: every queued path is held and
      shorter or longer than the target (save the start path), the levels
      are well filed and `keys` is their order. */
  ghost predicate Queued(tbl: map<Name, Node>, processed: set<Name>, start: Name, target: int,
                         queue: seq<Path>, dist: map<Name, nat>, levels: Levels, keys: seq<nat>) {
    && (forall q :: q in queue ==> Held(tbl, processed, start, target, dist, levels, q))
    && ShortQueue(queue, target)
    && Filed(tbl, processed, start, target, levels)
    && KeyOrder(levels, keys)
  }

  /** Taking the first queued path out to expand it keeps the search
      invariant. */
  lemma Dequeue(tbl: map<Name, Node>, processed: set<Name>, start: Name, target: int,
                queue: seq<Path>, dist: map<Name, nat>, levels: Levels, keys: seq<nat>)
    requires queue != []
    requires Queued(tbl, processed, start, target, queue, dist, levels, keys)
    ensures Searching(tbl, processed, start, target, queue[0], queue[1..], dist, levels, keys)
    ensures ShortQueue(queue[1..], target)
  {
    assert queue[0] in queue;
    forall q | q in queue[1..] ensures q in queue { }
  }

  /** Expanding a grown path cannot use up the weight its dequeue frees. */
  lemma DequeueBound(tbl: map<Name, Node>, queue: seq<Path>, current: Path)
    requires WellFormed(tbl) && queue != [] && current == queue[0]
    requires current != [] && NoDup(current) && forall i :: 0 <= i < |current| ==> current[i] in tbl
    ensures var n := |tbl.Keys|;
      Potential(queue[1..], n) + |Neighbors(tbl, current[|current| - 1])| * Weight(|current| + 1, n) < Potential(queue, n)
  {
    forall x | x in current ensures x in tbl.Keys {
      var i :| 0 <= i < |current| && current[i] == x;
    }
    NoDupBound(current, tbl.Keys);
    NeighborsAdjacent(tbl, current[|current| - 1]);
    NoDupBound(Neighbors(tbl, current[|current| - 1]), tbl.Keys);
    PopPotential(queue, |tbl.Keys|, |Neighbors(tbl, current[|current| - 1])|);
  }

  /** `_perform_path_search` / the first half of `bfs_search`: FIFO growth
      of simple paths from `start`, never through a processed name. A path
      that reaches the target length is filed but not grown further. The
      returned `keys` is the insertion order of the returned map. */
  method PathSearch(tbl: map<Name, Node>, start: Name, target: int, processed: set<Name>)
    returns (levels: Levels, keys: seq<nat>)
    requires WellFormed(tbl) && start in tbl
    ensures Filed(tbl, processed, start, target, levels)
    ensures KeyOrder(levels, keys)
  {
    var n := |tbl.Keys|;
    var queue: seq<Path> := [[start]];
    levels, keys := map[1 := [[start]]], [1];
    var dist: map<Name, nat> := map[start := 1];
    while |queue| > 0
      invariant Queued(tbl, processed, start, target, queue, dist, levels, keys)
      decreases Potential(queue, n)
    {
      Dequeue(tbl, processed, start, target, queue, dist, levels, keys);
      var current := queue[0];
      DequeueBound(tbl, queue, current);
      queue, dist, levels, keys := Expand(tbl, processed, start, target, current, queue[1..], dist, levels, keys);
    }
  }

  lemma MulSucc(a: nat, c: nat)
    ensures (a + 1) * c == a * c + c
  {
  }

  lemma MulBound(a: nat, b: nat, c: nat)
    requires a <= b
    ensures a * c <= b * c
  {
  }
}
