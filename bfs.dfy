/** `BFSGraphletCounter` (algorithm/bfs_graphlet_counter.py): for each node
    in turn, grow paths from it by breadth-first search, pair the paths
    into graphlets, then mark the node processed so that later searches
    never step on it. */
module BfsCounter {
  import opened Util
  import opened GraphStore
  import opened Signature
  import opened Counts
  import opened PathGrowth
  import opened Combination

  /** Every path of `ps` is a duplicate-free list of registered names. */
  ghost predicate AllMembers(tbl: map<Name, Node>, ps: seq<Path>) {
    forall q :: q in ps ==> Members(tbl, q)
  }

  /** Every path filed in `levels` is made of registered names, none twice. */
  ghost predicate LevelsIn(tbl: map<Name, Node>, levels: Levels) {
    forall k :: k in levels ==> AllMembers(tbl, levels[k])
  }

  /** Saving the unions of two runs of pairs, one after the other. */
  lemma SaveUnionsAppend(cm: CountMap, tbl: map<Name, Node>, a: seq<Pair>, b: seq<Pair>)
    ensures SaveAll(cm, tbl, Unions(a + b)) == SaveAll(SaveAll(cm, tbl, Unions(a)), tbl, Unions(b))
  {
    UnionsAppend(a, b);
    SaveAllAppend(cm, tbl, Unions(a), Unions(b));
  }

  /** Saving the union of one pair. */
  lemma SaveOne(cm: CountMap, tbl: map<Name, Node>, p1: Path, p2: Path)
    ensures SaveAll(cm, tbl, Unions([(p1, p2)])) == Saved(cm, tbl, Union(p1, p2))
  {
    assert [(p1, p2)][..0] == [];
    assert Unions([(p1, p2)]) == [Union(p1, p2)];
    assert [Union(p1, p2)][1..] == [];
  }

  /** Saving one more pair after a run of pairs. */
  lemma SaveStep(start: CountMap, tbl: map<Name, Node>, before: seq<Pair>, p1: Path, p2: Path)
    ensures Saved(SaveAll(start, tbl, Unions(before)), tbl, Union(p1, p2)) == SaveAll(start, tbl, Unions(before + [(p1, p2)]))
  {
    SaveUnionsAppend(start, tbl, before, [(p1, p2)]);
    SaveOne(SaveAll(start, tbl, Unions(before)), tbl, p1, p2);
  }

  /** A filed level holds only grown paths, hence member lists. */
  lemma FiledMembers(tbl: map<Name, Node>, processed: set<Name>, start: Name, target: int, levels: Levels, k: nat)
    requires Filed(tbl, processed, start, target, levels) && k in levels
    ensures AllMembers(tbl, levels[k])
  {
    forall q | q in levels[k] ensures Members(tbl, q) {
      assert Grown(tbl, processed, start, q);
      forall x | x in q ensures x in tbl {
        var i :| 0 <= i < |q| && q[i] == x;
      }
    }
  }

  /** `a` comes before `b` in `order`. */
  ghost predicate Before(order: seq<Name>, a: Name, b: Name) {
    exists i, j :: 0 <= i < j < |order| && order[i] == a && order[j] == b
  }

  /** A graphlet a whole run may add: between 1 and `size` registered
      names, none twice, and every name after the first was unprocessed
      when the run began and comes later in the node order than the first,
      so the graphlet was found from its earliest name. */
  ghost predicate FirstFound(tbl: map<Name, Node>, order: seq<Name>, done: set<Name>, size: int, g: seq<Name>) {
    && 1 <= |g| <= size && NoDup(g)
    && (forall i :: 0 <= i < |g| ==> g[i] in tbl)
    && (forall i :: 1 <= i < |g| ==> g[i] !in done && Before(order, g[0], g[i]))
  }

  /** Every level a search files is made of member lists. */
  lemma FiledLevelsIn(tbl: map<Name, Node>, processed: set<Name>, start: Name, target: int, levels: Levels)
    requires Filed(tbl, processed, start, target, levels)
    ensures LevelsIn(tbl, levels)
  {
    forall k | k in levels ensures AllMembers(tbl, levels[k]) {
      FiledMembers(tbl, processed, start, target, levels, k);
    }
  }

  /** Every graphlet `cm` holds beyond the lists of `cm0` is first-found. */
  ghost predicate AddedFirstFound(cm0: CountMap, cm: CountMap, tbl: map<Name, Node>, order: seq<Name>, done: set<Name>, size: int) {
    forall k, i :: k in cm && |Listed(cm0, k)| <= i < |cm[k]| ==> FirstFound(tbl, order, done, size, cm[k][i].members)
  }

  /** A graphlet found from the `j`-th name, once the names before it are
      processed, is first-found. */
  lemma FoundFirst(tbl: map<Name, Node>, order: seq<Name>, done: set<Name>, processed: set<Name>, j: nat, size: int, g: seq<Name>)
    requires (forall x :: x in tbl <==> x in order) && j < |order|
    requires forall x :: x in done || x in order[..j] ==> x in processed
    requires Found(tbl, processed, order[j], size, g)
    ensures FirstFound(tbl, order, done, size, g)
  {
    forall t | 0 <= t < j ensures order[t] in order[..j] {
      assert order[..j][t] == order[t];
    }
    forall i | 1 <= i < |g| ensures g[i] !in done && Before(order, g[0], g[i]) {
      assert g[i] in order;
      var t :| 0 <= t < |order| && order[t] == g[i];
      assert g[i] != g[0];
      assert t > j;
    }
  }

  /** One search adds only first-found graphlets. */
  lemma StepFirstFound(cm0: CountMap, cm1: CountMap, tbl: map<Name, Node>, groups: seq<seq<Name>>, order: seq<Name>,
                       done: set<Name>, processed: set<Name>, j: nat, size: int)
    requires (forall x :: x in tbl <==> x in order) && j < |order|
    requires forall x :: x in done || x in order[..j] ==> x in processed
    requires forall g :: g in groups ==> Found(tbl, processed, order[j], size, g)
    requires Grows(cm0, cm1) && AddedFirstFound(cm0, cm1, tbl, order, done, size)
    ensures Grows(cm0, SaveAll(cm1, tbl, groups))
    ensures AddedFirstFound(cm0, SaveAll(cm1, tbl, groups), tbl, order, done, size)
  {
    var cm2 := SaveAll(cm1, tbl, groups);
    SaveAllAdded(cm1, tbl, groups);
    SaveAllGrows(cm1, tbl, groups);
    forall k | k in cm0 ensures k in cm2 && cm0[k] <= cm2[k] {
      assert cm0[k] <= cm1[k] <= cm2[k];
    }
    forall k, i | k in cm2 && |Listed(cm0, k)| <= i < |cm2[k]| ensures FirstFound(tbl, order, done, size, cm2[k][i].members) {
      if i < |Listed(cm1, k)| {
        assert cm1[k] <= cm2[k];
        assert cm2[k][i] == cm1[k][i];
      } else {
        FoundFirst(tbl, order, done, processed, j, size, cm2[k][i].members);
      }
    }
  }

  class BFSGraphletCounter {
    const graph: Graph
    /** `_graphlet_count_map`. */
    var countMap: CountMap
    /** `_processed_nodes`: the start nodes whose search is done. */
    var processed: set<Name>

    ghost predicate Valid()
      reads this, graph
    {
      graph.Valid() && WellKeyed(graph.nodes, countMap)
    }

    constructor (g: Graph)
      requires g.Valid()
      ensures Valid()
      ensures graph == g && countMap == map[] && processed == {}
    {
      graph := g;
      countMap := map[];
      processed := {};
    }

    /** `_create_and_save_graphlet`: the graphlet on the names of both
        paths, appended under its signature. */
    method SaveGraphlet(p1: Path, p2: Path)
      requires Valid() && Members(graph.nodes, p1) && Members(graph.nodes, p2)
      modifies this
      ensures Valid()
      ensures countMap == Saved(old(countMap), graph.nodes, Union(p1, p2))
      ensures processed == old(processed)
    {
      UnionElements(p1, p2);
      var members := Union(p1, p2);
      var sig := ComputeSignature(graph.nodes, members);
      SavedWellKeyed(countMap, graph.nodes, members);
      countMap := countMap[sig := Listed(countMap, sig) + [Graphlet(members)]];
    }

    /** The innermost loops of `_perform_path_combination`: `p` against each
        of `qs`, saving when the combined length is the target. */
    method SaveRow(p: Path, qs: seq<Path>, target: int)
      requires Valid() && Members(graph.nodes, p) && AllMembers(graph.nodes, qs)
      modifies this
      ensures Valid()
      ensures countMap == SaveAll(old(countMap), graph.nodes, Unions(Row(p, qs, target)))
      ensures processed == old(processed)
    {
      ghost var tbl := graph.nodes;
      ghost var start := countMap;
      for j := 0 to |qs|
        invariant Valid() && graph.nodes == tbl && processed == old(processed)
        invariant countMap == SaveAll(start, tbl, Unions(Row(p, qs[..j], target)))
      {
        var q := qs[j];
        RowSnoc(p, qs, j, target);
        var combined := CombinedLength(p, q);
        if combined == target {
          SaveStep(start, tbl, Row(p, qs[..j], target), p, q);
          SaveGraphlet(p, q);
        } else {
          assert Row(p, qs[..j], target) + [] == Row(p, qs[..j], target);
        }
      }
      assert qs[..|qs|] == qs;
    }

    /** Pairs `index1 < index2` within one level. */
    method SaveWithin(ps: seq<Path>, target: int)
      requires Valid() && AllMembers(graph.nodes, ps)
      modifies this
      ensures Valid()
      ensures countMap == SaveAll(old(countMap), graph.nodes, Unions(Within(ps, |ps|, target)))
      ensures processed == old(processed)
    {
      ghost var tbl := graph.nodes;
      ghost var start := countMap;
      for i := 0 to |ps|
        invariant Valid() && graph.nodes == tbl && processed == old(processed)
        invariant countMap == SaveAll(start, tbl, Unions(Within(ps, i, target)))
      {
        SaveUnionsAppend(start, tbl, Within(ps, i, target), Row(ps[i], ps[i + 1..], target));
        assert ps[i] in ps;
        SaveRow(ps[i], ps[i + 1..], target);
      }
    }

    /** Every path of one level against every path of a longer one. */
    method SaveAcross(ps: seq<Path>, qs: seq<Path>, target: int)
      requires Valid() && AllMembers(graph.nodes, ps) && AllMembers(graph.nodes, qs)
      modifies this
      ensures Valid()
      ensures countMap == SaveAll(old(countMap), graph.nodes, Unions(Across(ps, qs, |ps|, target)))
      ensures processed == old(processed)
    {
      ghost var tbl := graph.nodes;
      ghost var start := countMap;
      for i := 0 to |ps|
        invariant Valid() && graph.nodes == tbl && processed == old(processed)
        invariant countMap == SaveAll(start, tbl, Unions(Across(ps, qs, i, target)))
      {
        SaveUnionsAppend(start, tbl, Across(ps, qs, i, target), Row(ps[i], qs, target));
        assert ps[i] in ps;
        SaveRow(ps[i], qs, target);
      }
    }

    /** The `for i in range(node_count, graphlet_target_size)` loop of
        `_perform_path_combination` for one level. */
    method SavePartners(levels: Levels, nodeCount: nat, target: int)
      requires Valid() && nodeCount in levels
      requires LevelsIn(graph.nodes, levels)
      modifies this
      ensures Valid()
      ensures countMap == SaveAll(old(countMap), graph.nodes, Unions(Partners(levels, nodeCount, target, target)))
      ensures processed == old(processed)
    {
      ghost var tbl := graph.nodes;
      ghost var start := countMap;
      var i := nodeCount;
      while i < target
        invariant nodeCount <= i && (i > target ==> i == nodeCount)
        invariant Valid() && graph.nodes == tbl && processed == old(processed)
        invariant LevelsIn(tbl, levels)
        invariant countMap == SaveAll(start, tbl, Unions(Partners(levels, nodeCount, i, target)))
      {
        SavePartner(levels, nodeCount, i, target, start);
        i := i + 1;
      }
      if i != target {
        assert Partners(levels, nodeCount, i, target) == [];
        assert Partners(levels, nodeCount, target, target) == [];
      }
    }

    /** One pass of that loop: level `nodeCount` against level `m`, after
        the passes for the levels before `m`. */
    method SavePartner(levels: Levels, nodeCount: nat, m: nat, target: int, ghost start: CountMap)
      requires Valid() && nodeCount in levels && nodeCount <= m
      requires LevelsIn(graph.nodes, levels)
      requires countMap == SaveAll(start, graph.nodes, Unions(Partners(levels, nodeCount, m, target)))
      modifies this
      ensures Valid()
      ensures countMap == SaveAll(start, graph.nodes, Unions(Partners(levels, nodeCount, m + 1, target)))
      ensures processed == old(processed)
    {
      ghost var done := Partners(levels, nodeCount, m, target);
      ghost var part := Partner(levels, nodeCount, m, target);
      assert Partners(levels, nodeCount, m + 1, target) == done + part;
      SaveUnionsAppend(start, graph.nodes, done, part);
      if m in levels && |levels[m]| > 0 {
        if m == nodeCount {
          SaveWithin(levels[nodeCount], target);
        } else {
          SaveAcross(levels[nodeCount], levels[m], target);
        }
      } else {
        assert Unions(part) == [];
      }
    }

    /** The closing loop of `_perform_path_combination`: each path of the
        target level alone. */
    method SaveDiagonal(paths: seq<Path>)
      requires Valid() && AllMembers(graph.nodes, paths)
      modifies this
      ensures Valid()
      ensures countMap == SaveAll(old(countMap), graph.nodes, Unions(Diagonal(paths, |paths|)))
      ensures processed == old(processed)
    {
      ghost var tbl := graph.nodes;
      ghost var start := countMap;
      for j := 0 to |paths|
        invariant Valid() && graph.nodes == tbl && processed == old(processed)
        invariant countMap == SaveAll(start, tbl, Unions(Diagonal(paths, j)))
      {
        var path := paths[j];
        SaveStep(start, tbl, Diagonal(paths, j), path, path);
        assert path in paths;
        SaveGraphlet(path, path);
      }
    }

    /** `_perform_path_combination`: for each level in key order other than
        key 1 and the target, pair it with itself and with every longer
        level below the target; then every target-length path alone. */
    method PerformPathCombination(levels: Levels, keys: seq<nat>, target: int)
      requires Valid() && forall j :: 0 <= j < |keys| ==> keys[j] in levels
      requires LevelsIn(graph.nodes, levels)
      modifies this
      ensures Valid()
      ensures countMap == SaveAll(old(countMap), graph.nodes, Unions(Emitted(levels, keys, target)))
      ensures processed == old(processed)
    {
      ghost var tbl := graph.nodes;
      ghost var start := countMap;
      for k := 0 to |keys|
        invariant Valid() && graph.nodes == tbl && processed == old(processed)
        invariant countMap == SaveAll(start, tbl, Unions(Entries(levels, keys, k, target)))
      {
        SaveEntry(levels, keys, k, target, start);
      }
      ghost var entries := Entries(levels, keys, |keys|, target);
      ghost var tail := if target in levels then Diagonal(levels[target], |levels[target]|) else [];
      assert Emitted(levels, keys, target) == entries + tail;
      SaveUnionsAppend(start, tbl, entries, tail);
      ghost var mid := countMap;
      if target in levels {
        SaveDiagonal(levels[target]);
      } else {
        assert Unions(tail) == [];
        assert SaveAll(mid, tbl, Unions(tail)) == mid;
      }
    }

    /** One pass of the loop over the keys of `levels`, after the passes for
        the keys before position `k`. */
    method SaveEntry(levels: Levels, keys: seq<nat>, k: nat, target: int, ghost start: CountMap)
      requires Valid() && k < |keys| && forall j :: 0 <= j < |keys| ==> keys[j] in levels
      requires LevelsIn(graph.nodes, levels)
      requires countMap == SaveAll(start, graph.nodes, Unions(Entries(levels, keys, k, target)))
      modifies this
      ensures Valid()
      ensures countMap == SaveAll(start, graph.nodes, Unions(Entries(levels, keys, k + 1, target)))
      ensures processed == old(processed)
    {
      var nodeCount := keys[k];
      ghost var done := Entries(levels, keys, k, target);
      ghost var part := Entry(levels, nodeCount, target);
      assert Entries(levels, keys, k + 1, target) == done + part;
      SaveUnionsAppend(start, graph.nodes, done, part);
      ghost var mid := countMap;
      if nodeCount != target && nodeCount != 1 && |levels[nodeCount]| > 0 {
        SavePartners(levels, nodeCount, target);
      } else {
        assert Unions(part) == [];
        assert SaveAll(mid, graph.nodes, Unions(part)) == mid;
      }
    }

    /** `count_graphlets`: search and combine from every node in the
        graph's order, marking each processed after its turn. */
    method CountGraphlets(size: int) returns (result: CountMap)
      requires Valid()
      modifies this
      ensures Valid()
      ensures forall x :: x in processed <==> x in old(processed) || x in graph.nodes
      ensures Grows(old(countMap), countMap)
      ensures AddedFirstFound(old(countMap), countMap, graph.nodes, graph.order, old(processed), size)
      ensures result == countMap
    {
      var names := graph.order;
      ghost var tbl := graph.nodes;
      ghost var cm0 := countMap;
      ghost var done := processed;
      for j := 0 to |names|
        invariant Valid() && graph.nodes == tbl && graph.order == names
        invariant forall x :: x in processed <==> x in done || x in names[..j]
        invariant Grows(cm0, countMap)
        invariant AddedFirstFound(cm0, countMap, tbl, names, done, size)
      {
        var name := names[j];
        var levels, keys := PathSearch(graph.nodes, name, size, processed);
        FiledLevelsIn(tbl, processed, name, size, levels);
        UnionsFound(levels, keys, size, tbl, processed, name);
        StepFirstFound(cm0, countMap, tbl, Unions(Emitted(levels, keys, size)), names, done, processed, j, size);
        PerformPathCombination(levels, keys, size);
        assert names[..j + 1] == names[..j] + [name];
        processed := processed + {name};
      }
      assert names[..|names|] == names;
      result := countMap;
    }
  }
}
