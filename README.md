# Graphlet counting in Dafny

This project models the core of NCSG, a tool that counts graphlets in a
directed, multi-mode interaction graph. A graphlet is a small group of nodes.
Graphlets are bucketed by an isomorphism-invariant signature.

The model covers:

- **the graph store** (`graph/graph.py`). Nodes are keyed by name. Each node
  has a directed adjacency per edge mode and a symmetric undirected adjacency.
  `Graph.add_edge` keeps both up to date.
- **the graphlet signature** (`Graphlet.__hash__`). It is the set of per-member
  records. A record maps each mode to the number of member-to-member edges of
  that mode that touch the member. The builtin `hash` applied to this set is
  not modelled; the set itself is the bucket key.
- **three counting strategies**:
  - *exhaustive* (`algorithm/brute_force_graphlet_counter.py`): every
    `size`-combination of node names is checked for enough internal
    adjacencies.
  - *path growth by breadth-first search* (`algorithm/bfs_graphlet_counter.py`,
    and the stand-alone script `brute_force_graphlet_counter.py`): paths from
    each start node are paired when their prefix-combined length is the target.
  - *size ladder* (`algorithm/dp_graphlet_counter.py`): groups grow one name at
    a time, by a neighbour whose name sorts after the group's last name.
- **the driver** (`main.py`): graph loading from CSV rows, strategy lookup by
  class name, the merge of per-sample bucket maps, and the frequency rankings.

Modules follow the program's files: `Util` (util.dfy), `GraphStore`
(graph.dfy), `Signature` (signature.dfy), `Counts` (countmap.dfy),
`PathGrowth` (pathgrowth.dfy), `Combination` (combine.dfy), `BfsCounter`
(bfs.dfy), `BfsScript` (bfsscript.dfy), `Exhaustive` (exhaustive.dfy),
`DpCounter` (dp.dfy), `Sorting` (sorting.dfy) and `Driver` (driver.dfy).

Code that mutates state keeps that form:

- `Graph` and the three counter classes are Dafny classes. Their methods carry
  `modifies` clauses and loops with invariants.
- Each method is proved against a reference function: `WithEdge`, `SaveAll`,
  `Combinations`, `Emitted`, `Ladder`, `MergeAll`.
- The properties the program relies on are lemmas about those functions.

Python dicts keyed by name become duplicate-free sequences or maps. The count
map is `map<Sig, seq<Graphlet>>`: the counters append each graphlet to the list
under its signature.

## Model

| member | source | states |
|---|---|---|
| GraphStore.AddDirected | graph/graph.py:99-110 | `Node.add_edge`: afterwards the node has exactly its old directed edges plus (mode, target); a target already present keeps its place and leaves the node unchanged; no duplicate is introduced |
| GraphStore.AddUndirected | graph/graph.py:112-119 | `Node.add_undirected_edge`: the undirected neighbours become the old ones plus `other`; the directed map is untouched; an existing neighbour leaves the node unchanged |
| GraphStore.NeighborsAdjacent | graph/graph.py:142-150 | `get_undirected_neighbors` yields exactly the adjacent names; in a well-formed table they are registered and none is listed twice |
| GraphStore.AdjacentSymmetric | graph/graph.py:215-216 | undirected adjacency is symmetric in every well-formed table; symmetry is part of the graph invariant, which `Graph.AddEdge` preserves because `add_edge` records the pair on both endpoints |
| GraphStore.Graph.constructor | graph/graph.py:187-192 | a new graph has an empty node table and an empty key order |
| GraphStore.Registered | graph/graph.py:194-202 | `__register_node` on the table: the keys gain the name, and every existing node is kept as it was |
| GraphStore.Enrolled | graph/graph.py:200-201 | after registering a name, the key order stays duplicate-free and lists exactly the registered names |
| GraphStore.Graph.Register | graph/graph.py:194-202 | the method updates table and order as `Registered`/`Enrolled` say, keeps the graph invariant, and returns the stored node |
| GraphStore.Graph.AddEdge | graph/graph.py:204-216 | `add_edge` registers both endpoints and links them; the new table is `WithEdge` of the old one; the graph invariant (keys are names, no duplicate neighbours, directed edges are undirected neighbours, symmetry) is preserved |
| GraphStore.WithEdgeProperties | graph/graph.py:204-216 | after `add_edge(a, b, mode)`: the keys gain a and b; the directed edges gain exactly (a, b, mode); the undirected pairs gain exactly (a, b) and (b, a); other nodes are unchanged; adding an existing edge changes nothing |
| GraphStore.LinkedIdempotent | graph/graph.py:212-216 | linking an edge already present leaves the table unchanged |
| GraphStore.Graph.GetNode | graph/graph.py:218-224 | `get_node` returns the node registered under the name, with that name; it returns None exactly when the name is not registered (where the source raises KeyError) |
| GraphStore.EdgesOfNode | graph/graph.py:240-242 | the inner loops of `Graph.get_edges` for one node: one (name, target, mode) triple per directed entry, none twice, and nothing else |
| GraphStore.Graph.GetEdges | graph/graph.py:233-243 | `Graph.get_edges`: every directed edge of the table exactly once, and nothing else |
| Signature.Bump | graph/graph.py:41-47 | `setdefault(mode, 0); += 1`: the mode's counter goes up by one, every other counter is unchanged, and the keys gain the mode |
| Signature.TallyPair | graph/graph.py:38-47 | the innermost loop over `from_node.edges`: each counter grows by what the pair (from, to) contributes for its mode; counters stay positive |
| Signature.TallyRow | graph/graph.py:37-47 | the middle loop: `from_node` against every member, tallied pair by pair |
| Signature.NodeData | graph/graph.py:31-47 | `node_data_map` has one entry per member, and each entry is the member's record: its out-degree plus in-degree per mode within the graphlet |
| Signature.ComputeSignature | graph/graph.py:21-49 | the value `__hash__` hashes is the set of the members' records |
| Signature.RecordCounts | graph/graph.py:36-48 | a member's record reads, for every mode, as its degree in that mode within the graphlet (zero when absent) |
| Signature.DegreeSum | graph/graph.py:36-47 | for each mode, the counters summed over the members are twice the number of that mode's member-to-member edges |
| Signature.SignaturePermutation | graph/graph.py:32-48 | the signature depends only on which names are members, not on their order |
| Signature.IsomorphicRecord | graph/graph.py:31-47 | when the i-th members of two graphlets have the same edges of every mode between corresponding members, the i-th members get the same record |
| Signature.IsomorphicSignature | graph/graph.py:21-49 | isomorphic graphlets, in the same graph or in two graphs, have the same signature: a relabelling that keeps the edges of every mode between corresponding members keeps the signature |
| Signature.SignatureCollision | graph/graph.py:21-49 | the converse fails: a 2-cycle a <-> b and two self-loops have the same signature {{x: 2}}, yet no ordering of the self-loop members matches the 2-cycle |
| Signature.SelfLoopCountsTwice | graph/graph.py:36-47 | a self-loop is counted as both an out- and an in-edge, so a one-member graphlet with a self-loop has counter 2 |
| Signature.PairRecords | graph/graph.py:36-48 | worked case: for one edge a -> b, both members get the record {x: 1} |
| Signature.EqualRecordsCollapse | graph/graph.py:48-49 | the signature is a set, so two members with equal records contribute one element |
| Signature.SingleModeRecord | graph/graph.py:41-48 | with a single mode, a touched member's record holds exactly one counter |
| Counts.SavedTotal | algorithm/brute_force_graphlet_counter.py:64-67 | one `setdefault(...).append(g)` adds exactly one graphlet to the map |
| Counts.SaveAllTotal | algorithm/dp_graphlet_counter.py:19-20 | saving n groups adds exactly n graphlets |
| Counts.SaveAllGrows | algorithm/bfs_graphlet_counter.py:51-54 | saving only appends: every earlier list remains a prefix of its new list |
| Counts.SaveAllContains | algorithm/bfs_graphlet_counter.py:51-54 | every saved group is found afterwards in the list under its own signature |
| Counts.SaveAllWellKeyed | algorithm/brute_force_graphlet_counter.py:64-67 | saving keeps every graphlet under its own signature |
| Counts.SaveAllAdded | algorithm/bfs_graphlet_counter.py:51-54 | every graphlet a run of saves adds is one of the saved groups |
| PathGrowth.CommonPrefix | algorithm/bfs_graphlet_counter.py:92-97 | the count the loop reaches is the longest common prefix: the paths agree below it and differ at it |
| PathGrowth.CombinedLength | algorithm/bfs_graphlet_counter.py:84-98 | `get_combined_path_length` is the total length minus the longest common prefix |
| PathGrowth.CombinedSymmetric | brute_force_graphlet_counter.py:83-97 | `path_combination` does not depend on the order of its two paths |
| PathGrowth.CombinedSelf | brute_force_graphlet_counter.py:83-97 | a path combined with itself gives its own length |
| PathGrowth.UnionElements | algorithm/bfs_graphlet_counter.py:51 | `set(path1).union(set(path2))` has exactly the names of both paths, none twice |
| PathGrowth.UnionSelf | algorithm/bfs_graphlet_counter.py:80-82 | a path united with itself is the path |
| PathGrowth.UnionBound | algorithm/bfs_graphlet_counter.py:51 | the union never has more names than the combined length |
| PathGrowth.UnionSmallerThanCombined | algorithm/bfs_graphlet_counter.py:70-72 | the bound can be strict: paths s-a-c and s-b-c combine to length 5 but unite to 4 names, because overlap is measured by common prefix only |
| PathGrowth.GuardFresh | algorithm/bfs_graphlet_counter.py:32-35 | the distance guard excludes a name already on the current path |
| PathGrowth.ExtendGrown | algorithm/bfs_graphlet_counter.py:31-37 | a path extended by a neighbour that passes the guards is still a simple path from the start over undirected edges, avoiding processed names, and its distances stay recorded |
| PathGrowth.FileFiled | algorithm/bfs_graphlet_counter.py:40-41 | filing a grown path of length 2..target keeps every level well filed |
| PathGrowth.FileKeys | algorithm/bfs_graphlet_counter.py:41 | filing keeps the key order of `distance_to_path_map`: lengths 1, 2, 3, ... in insertion order |
| PathGrowth.Visit | algorithm/bfs_graphlet_counter.py:32-41 | one neighbour of the loop keeps the search invariant and only lowers recorded distances; the queue either stays as it was or gains exactly the extended path, and then only when that path is not of the target length |
| PathGrowth.Expand | algorithm/bfs_graphlet_counter.py:28-41 | one turn of the search loop keeps the invariant, adds at most one weight per neighbour to the queue, and never queues a target-length path |
| PathGrowth.DequeueBound | algorithm/bfs_graphlet_counter.py:27-41 | dequeuing a path frees more weight than expanding it can add, so the search terminates |
| PathGrowth.PathSearch | algorithm/bfs_graphlet_counter.py:15-42 | `_perform_path_search` terminates; key 1 holds just the start; every other key is between 2 and the target; every filed path is a simple path from the start avoiding processed names, filed under its length; the keys are inserted as 1, 2, 3, ... |
| Combination.EmittedSound | algorithm/bfs_graphlet_counter.py:63-82 | every pair the combination loops save has combined length equal to the target, from levels 2 and up with the shorter first; or it is a target-length path with itself |
| Combination.EmittedComplete | algorithm/bfs_graphlet_counter.py:63-82 | conversely, every such pair of filed paths is saved, including every target-length path with itself |
| Combination.GrownUnion | algorithm/bfs_graphlet_counter.py:51 | the union of two grown paths starts at the start, has registered names only and no duplicates, and has no processed name after the start |
| Combination.UnionsFound | algorithm/bfs_graphlet_counter.py:56-82 | every graphlet a search's combination step saves has 1 to target names, the start first, and no other processed name |
| BfsCounter.FiledLevelsIn | algorithm/bfs_graphlet_counter.py:109-110 | every path a search files is a duplicate-free list of registered names, so it may be saved |
| BfsCounter.FoundFirst | algorithm/bfs_graphlet_counter.py:107-111 | a graphlet found from the j-th name, once the names before it are processed, has all other names later in the node order |
| BfsCounter.StepFirstFound | algorithm/bfs_graphlet_counter.py:107-111 | one search's saves keep the map growing and add only first-found graphlets |
| BfsCounter.BFSGraphletCounter.constructor | algorithm/bfs_graphlet_counter.py:10-13 | empty count map, no processed node |
| BfsCounter.BFSGraphletCounter.SaveGraphlet | algorithm/bfs_graphlet_counter.py:44-54 | the graphlet on the union of both paths is appended under its signature; nothing else changes |
| BfsCounter.BFSGraphletCounter.SaveRow | algorithm/bfs_graphlet_counter.py:74-78 | one path against each partner in turn saves exactly the pairs whose combined length is the target |
| BfsCounter.BFSGraphletCounter.SaveWithin | algorithm/bfs_graphlet_counter.py:68-72 | the `index1 < index2` loops of one level save exactly the within-level pairs of `Emitted` |
| BfsCounter.BFSGraphletCounter.SaveAcross | algorithm/bfs_graphlet_counter.py:74-78 | one level against a longer level saves exactly the across-level pairs |
| BfsCounter.BFSGraphletCounter.SavePartner | algorithm/bfs_graphlet_counter.py:66-78 | one partner level: an empty or absent level saves nothing; the same level pairs within; a longer level pairs across |
| BfsCounter.BFSGraphletCounter.SavePartners | algorithm/bfs_graphlet_counter.py:65-78 | the `range(node_count, target)` loop saves the partner passes in order |
| BfsCounter.BFSGraphletCounter.SaveEntry | algorithm/bfs_graphlet_counter.py:63-78 | one key of the map: key 1, the target key and empty levels save nothing |
| BfsCounter.BFSGraphletCounter.SaveDiagonal | algorithm/bfs_graphlet_counter.py:80-82 | each target-length path is saved alone, in order |
| BfsCounter.BFSGraphletCounter.PerformPathCombination | algorithm/bfs_graphlet_counter.py:56-82 | the count map becomes the old map with the unions of exactly the `Emitted` pairs saved in loop order |
| BfsCounter.BFSGraphletCounter.CountGraphlets | algorithm/bfs_graphlet_counter.py:100-112 | every node ends up processed; the map only grows; every graphlet added holds 1 to size registered names, none twice, all after its first name in node order and none processed beforehand |
| BfsScript.BfsSearch | brute_force_graphlet_counter.py:4-60 | `bfs_search`: the map gains exactly the unions of the pairs its search emits, stays well keyed, only grows, and every saved graphlet is found from the start |
| BfsScript.CountGraphletsBfs | brute_force_graphlet_counter.py:63-80 | `count_graphlets_bfs`: from an empty map, every graphlet saved is found from its earliest name and avoids names processed before it |
| BfsScript.CountGraphlets | brute_force_graphlet_counter.py:100-119 | `count_graphlets`: the ranking lists every signature once with its graphlets, by non-increasing graphlet count; the reported number of 4-graphlet signatures is the map's size |
| Exhaustive.NodeCombinations | algorithm/brute_force_graphlet_counter.py:29-44 | `_get_node_combinations` returns the reference list `Combinations`, built by its recursion and `append` loop |
| Exhaustive.LoopComplete | algorithm/brute_force_graphlet_counter.py:39-44 | the loop over start indices builds the whole list |
| Exhaustive.CombinationsSound | algorithm/brute_force_graphlet_counter.py:29-44 | every combination has `size` names, taken at strictly decreasing positions of the input |
| Exhaustive.CombinationsComplete | algorithm/brute_force_graphlet_counter.py:29-44 | every choice of `size` positions, read back to front, is produced |
| Exhaustive.CombinationsEmpty | algorithm/brute_force_graphlet_counter.py:36-44 | sizes below 1 or above the number of names give no combination |
| Exhaustive.CombinationsDistinct | algorithm/brute_force_graphlet_counter.py:29-44 | over distinct names, no combination is produced twice and none repeats a name |
| Exhaustive.CombinationsCount | algorithm/brute_force_graphlet_counter.py:29-44 | there are C(n, size) combinations |
| Exhaustive.CombinationMembers | algorithm/brute_force_graphlet_counter.py:19-22 | over the graph's distinct names, every combination is a duplicate-free list of registered names |
| Exhaustive.IndexMapAt | algorithm/brute_force_graphlet_counter.py:48 | `node_index_map` gives each distinct name its position |
| Exhaustive.BruteForceGraphletCounter.CheckValidCombination | algorithm/brute_force_graphlet_counter.py:46-57 | the early-exit scan returns True exactly when the full count of later-position member neighbours is at least 1 and at least size - 1 |
| Exhaustive.CountedIsAdjacentPairs | algorithm/brute_force_graphlet_counter.py:49-54 | for distinct names, the scan counts each adjacent member pair exactly once |
| Exhaustive.AcceptsIffPairs | algorithm/brute_force_graphlet_counter.py:46-57 | a combination is accepted if and only if it has at least one and at least size - 1 adjacent member pairs |
| Exhaustive.SingletonNeverAccepted | algorithm/brute_force_graphlet_counter.py:53 | a single name is never accepted: nothing is counted at a later position |
| Exhaustive.KeptMembers | algorithm/brute_force_graphlet_counter.py:21-25 | only accepted combinations are saved |
| Exhaustive.BruteForceGraphletCounter.constructor | algorithm/brute_force_graphlet_counter.py:8-11 | empty count map and processed set |
| Exhaustive.BruteForceGraphletCounter.SaveGraphlet | algorithm/brute_force_graphlet_counter.py:59-67 | the graphlet is appended under its signature; nothing else changes |
| Exhaustive.BruteForceGraphletCounter.CountGraphlets | algorithm/brute_force_graphlet_counter.py:13-27 | the map gains exactly the accepted combinations of the node names, in order; the printed count is their number and equals the growth in graphlets |
| DpCounter.SortNamesPermutation | algorithm/dp_graphlet_counter.py:13 | `sorted` returns the same names |
| DpCounter.SortNamesIncreasing | algorithm/dp_graphlet_counter.py:13 | distinct names come out strictly increasing under Python's string order |
| DpCounter.CandidatesAdjacent | algorithm/dp_graphlet_counter.py:29-32 | every name the inner loops visit is an undirected neighbour of a member |
| DpCounter.PicksSound | algorithm/dp_graphlet_counter.py:34-39 | the names taken are distinct visited names, not in the group, each sorting after the group's last name |
| DpCounter.ChildrenShape | algorithm/dp_graphlet_counter.py:25-40 | one child per distinct taken name; each child is the parent plus that name, which is a neighbour of a member and sorts after the last name |
| DpCounter.ChildShaped | algorithm/dp_graphlet_counter.py:36-38 | a child of an increasing, connected group of k registered names is such a group of k + 1 |
| DpCounter.NextLevelParents | algorithm/dp_graphlet_counter.py:23-40 | every group of the next level is one of the given groups with one name appended |
| DpCounter.NextLevelShaped | algorithm/dp_graphlet_counter.py:23-40 | growing shaped groups of size k gives shaped groups of size k + 1 |
| DpCounter.NextLevelNoDup | algorithm/dp_graphlet_counter.py:23-40 | growing distinct groups never yields the same group twice |
| DpCounter.LevelShape | algorithm/dp_graphlet_counter.py:13-18 | after `steps` growth steps from the sorted singletons, no group appears twice and every group has steps + 1 registered names, strictly increasing and connected |
| DpCounter.LadderShape | algorithm/dp_graphlet_counter.py:11-21 | the groups `count_graphlets` saves are distinct, each with `graphlet_size` names (one name when that is below 2), increasing and connected |
| DpCounter.LevelAllMembers | algorithm/dp_graphlet_counter.py:42-47 | every saved group is a duplicate-free list of registered names |
| DpCounter.LadderMissesPath | algorithm/dp_graphlet_counter.py:36 | the extension rule misses connected groups: on the path a - c - b, the names a, b, c are connected, yet no group of size 3 is saved |
| DpCounter.DPGraphletCounter.constructor | algorithm/dp_graphlet_counter.py:7-9 | empty count map |
| DpCounter.DPGraphletCounter.SaveGraphlet | algorithm/dp_graphlet_counter.py:42-50 | the graphlet on the group's names is appended under its signature |
| DpCounter.DPGraphletCounter.GroupChildren | algorithm/dp_graphlet_counter.py:26-39 | the nested loops for one group produce exactly `Children` of the group |
| DpCounter.DPGraphletCounter.NodeGroupsOfSize | algorithm/dp_graphlet_counter.py:23-40 | `get_node_groups_of_size_n` returns exactly the next level, parent by parent |
| DpCounter.DPGraphletCounter.SaveGroups | algorithm/dp_graphlet_counter.py:19-20 | one graphlet saved per group, in order |
| DpCounter.DPGraphletCounter.GrowGroups | algorithm/dp_graphlet_counter.py:13-18 | the `range(2, graphlet_size + 1)` loop yields the ladder's final level |
| DpCounter.DPGraphletCounter.CountGraphlets | algorithm/dp_graphlet_counter.py:11-21 | the map gains exactly the ladder's groups, one graphlet each |
| Sorting.Items | main.py:103 | `dict.items()` lists every entry once with its own value |
| Sorting.SortPermutation | main.py:75 | `sorted(..., reverse=True)` returns the same items |
| Sorting.SortOrdered | main.py:75 | the items come out by non-increasing key |
| Sorting.SortStable | main.py:75 | items with equal keys keep their relative order |
| Sorting.SortListing | brute_force_graphlet_counter.py:111-112 | sorting a dict's items lists the same entries, each key once, by non-increasing key, stably |
| Driver.CreateGraph | main.py:28-34 | `create_graph` builds a valid graph whose table and order are those of adding every non-`unknown` row in turn |
| Driver.LoadedGraph | main.py:28-34 | the loaded graph is well formed. Its names, directed edges and undirected pairs are exactly those of the rows whose mode is not `unknown`. `unknown` rows leave no trace |
| Driver.LoadedAdjacent | main.py:31-33 | each kept row makes its two names undirected neighbours of each other |
| Driver.GetAlgorithmClass | main.py:79-88 | the strategy found has the requested class name; None exactly when no strategy has it |
| Driver.GetAlgorithmClassInverse | main.py:85-87 | every strategy is found under its own class name |
| Driver.MergeAllEntries | main.py:103-108 | merging entries with distinct keys: the keys become the union; a present key keeps its representative and sums the counts; a new key takes the incoming pair; other entries are untouched |
| Driver.MergeListing | main.py:103-108 | merging the listed entries of a map gives the entry-by-entry merge of the two maps |
| Driver.MergeOrderFree | main.py:103-108 | the merge does not depend on the order in which the incoming entries are listed |
| Driver.MergeItems | main.py:103-108 | the merge loop computes the reference fold over the listed entries |
| Driver.Merge | main.py:103-108 | the merged map has the union of keys; shared keys keep the aggregate's representative with summed counts; new keys take the incoming pair; other entries are unchanged |
| Driver.SortByFrequency | main.py:112 | the ranking lists every entry once, by non-increasing count (the same sort ends `solve` at main.py:75) |

## Left out

- Visualisation (`visualize`, `init_visualization`, pyvis and networkx), file
  I/O (`load_data`, `write_to_file`, the configuration file), logging,
  timing and `print`: they do not affect the counted result.
- The builtin `hash` applied to the signature set. Equal signatures give equal
  hashes; hash collisions between different signatures are not modelled.
- `mutate_graph`, `sample`, the isomorphism check
  (`check_hash_function_collision`) and `display_frequent_graphlet_stats`
  with its heap. Their code (`util/heap.py` and the Markov swap) is not part
  of this model.
- The averaging step of `run_graphlet_counting` (main.py:109-110). It divides
  counts by the number of samples, which is floating-point arithmetic.
- The per-sample loop of `run_graphlet_counting` around the merge. It calls
  `mutate_graph` and `sample`, which are not modelled; one merge step is
  modelled.
- Strategy discovery by `BaseAlgorithm.__subclasses__()` is reflective. It is
  modelled as a fixed table of the three class names.
- The node objects Python stores as dict values are represented by their
  names. Every stored object is the registered one, so nothing is lost.
- Python dict insertion order is kept for the targets of each mode, for the
  undirected neighbours and for the graph's key order. It is not kept for the
  modes of a node's directed map, which is a Dafny `map`. So the order in
  which `Graph.get_edges` lists its triples is left open: `Graph.GetEdges`
  states which triples it returns, not their order.
- The order of `dict.items()` on the count map is left open (`Items`
  returns some listing). Results proved for every listing (`MergeOrderFree`,
  `SortListing`) cover it.
- `Node.get_edges` (graph/graph.py:121-130) is not modelled. It iterates the
  keys of `self.edges[mode]`, which are name strings, and reads `.name` on
  them, so it raises AttributeError on every node with a directed edge.
  Nothing in the core calls it. `GraphStore.EdgesOfNode` models the working
  inner loops of `Graph.get_edges` (graph/graph.py:240-242) instead.
- The signature is not a complete invariant (`SignatureCollision`).
  Graphlets that are not isomorphic may share a bucket; the source's own
  check for that (`check_hash_function_collision`) is not modelled.
- The dead `counts` list of `count_graphlets_bfs`
  (brute_force_graphlet_counter.py:77-79), and the first five printed and
  visualised buckets of `count_graphlets`.
- main.py:62 and main.py:106 read `graphlet_info[1]` as a count, while every
  counter stores a list of graphlets under each key. The merge and the rankings
  of main.py are modelled on (representative, count) buckets, as that code
  reads them.
- `BruteForceGraphletCounter.__init__` passes two arguments to the
  three-parameter base initialiser. The model constructs the counter from its
  graph, as evidently intended.
- PathGrowth.PathSearch: states what every filed path is (sound), not that
  every path the search should find is filed. The search has no reference
  function that fixes its output.
- BfsCounter.BFSGraphletCounter.CountGraphlets: states that every graphlet
  added is found from its earliest name and avoids processed names, not which
  graphlets are added. This follows from `PathSearch` being specified by its
  invariant only.
- BfsScript.CountGraphletsBfs: weaker in the same way as
  `BFSGraphletCounter.CountGraphlets`.
- BfsScript.BfsSearch: its combination loops are stated through the same
  `Emitted` pairs and `SaveAll` as the class. The loops themselves are
  verified once, in `BFSGraphletCounter.PerformPathCombination`.
- DpCounter.DPGraphletCounter.NodeGroupsOfSize: requires every name in the
  groups to be registered. The source would raise KeyError in `get_node`
  otherwise, and every group the ladder builds satisfies it (`LevelRegistered`).
- DpCounter.DPGraphletCounter.SaveGraphlet: requires a duplicate-free group of
  registered names, where the source deduplicates through `set()`. Every
  ladder group is already duplicate-free (`LevelAllMembers`).
- Driver.CreateGraph: requires every row to have at least three fields. The
  source raises IndexError on a shorter row.
- Exhaustive.BruteForceGraphletCounter.CheckValidCombination: requires the
  names to be registered. The source raises KeyError in `get_node` otherwise,
  and every combination of the graph's names satisfies it.
