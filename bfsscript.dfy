/** The stand-alone script brute_force_graphlet_counter.py: the same
    breadth-first search and path combination as `BFSGraphletCounter`, as
    free functions over a count map passed by reference, and a driver that
    ranks the 4-graphlet signatures by how many graphlets each holds. */
module BfsScript {
  import opened Util
  import opened GraphStore
  import opened Signature
  import opened Counts
  import opened PathGrowth
  import opened Combination
  import opened BfsCounter
  import opened Sorting

  /** `bfs_search`: the paths grown from `start` avoiding `processed`, then
      every graphlet their pairing emits saved into the count map. The map
      the source updates in place is passed in and returned; `levels` and
      `keys` are the search's `distance_to_path_map` and its key order. */
  method BfsSearch(tbl: map<Name, Node>, start: Name, size: int, cm: CountMap, processed: set<Name>)
    returns (cm': CountMap, ghost levels: Levels, ghost keys: seq<nat>)
    requires WellFormed(tbl) && start in tbl && WellKeyed(tbl, cm)
    ensures Filed(tbl, processed, start, size, levels) && KeyOrder(levels, keys)
    ensures cm' == SaveAll(cm, tbl, Unions(Emitted(levels, keys, size)))
    ensures WellKeyed(tbl, cm') && Grows(cm, cm')
    ensures forall g :: g in Unions(Emitted(levels, keys, size)) ==> Found(tbl, processed, start, size, g)
  {
    var found, order := PathSearch(tbl, start, size, processed);
    levels, keys := found, order;
    var groups := Unions(Emitted(found, order, size));
    cm' := SaveAll(cm, tbl, groups);
    SaveAllWellKeyed(cm, tbl, groups);
    SaveAllGrows(cm, tbl, groups);
    UnionsFound(levels, keys, size, tbl, processed, start);
  }

  /** `count_graphlets_bfs`: a search from every node in the graph's order,
      each node marked processed after its own search. Every graphlet
      saved is found from its earliest name and holds no name processed
      before it. */
  method CountGraphletsBfs(graph: Graph, size: int) returns (cm: CountMap)
    requires graph.Valid()
    ensures WellKeyed(graph.nodes, cm)
    ensures AddedFirstFound(map[], cm, graph.nodes, graph.order, {}, size)
  {
    var nodes := graph.order;
    ghost var tbl := graph.nodes;
    cm := map[];
    var processed: set<Name> := {};
    for j := 0 to |nodes|
      invariant forall x :: x in processed <==> x in nodes[..j]
      invariant WellKeyed(tbl, cm) && Grows(map[], cm)
      invariant AddedFirstFound(map[], cm, tbl, nodes, {}, size)
    {
      var name := nodes[j];
      var node := graph.GetNode(name);
      var next, levels, keys := BfsSearch(graph.nodes, node.value.name, size, cm, processed);
      StepFirstFound(map[], cm, tbl, Unions(Emitted(levels, keys, size)), nodes, {}, processed, j, size);
      cm := next;
      assert nodes[..j + 1] == nodes[..j] + [name];
      processed := processed + {name};
    }
  }

  /** Sort key of line 112: the number of graphlets under a signature. */
  function Size(item: (Sig, seq<Graphlet>)): int {
    |item.1|
  }

  /** `count_graphlets`: the 4-graphlets counted, their signatures ranked
      by how many graphlets each holds (most first), and the number of
      distinct signatures reported at the end. */
  method CountGraphlets(graph: Graph) returns (counts: CountMap, ranked: seq<(Sig, seq<Graphlet>)>, distinct: nat)
    requires graph.Valid()
    ensures WellKeyed(graph.nodes, counts)
    ensures AddedFirstFound(map[], counts, graph.nodes, graph.order, {}, 4)
    ensures Lists(counts, ranked) && NonIncreasing(ranked, Size)
    ensures distinct == |counts| == |ranked|
  {
    counts := CountGraphletsBfs(graph, 4);
    var items := Items(counts);
    ranked := SortDesc(items, Size);
    SortListing(counts, items, Size);
    distinct := |ranked|;
  }
}
