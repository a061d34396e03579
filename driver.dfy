/** The driver main.py: the graph built from edge rows, the strategy picked
    by class name, and the per-sample bucket maps merged into one aggregate
    and ranked by frequency. A bucket is the `(representative, count)` pair
    the driver indexes as `graphlet_info[0]` and `graphlet_info[1]`. */
module Driver {
  import opened Util
  import opened GraphStore
  import opened Signature
  import opened Sorting

  /** One CSV row: source name, target name, mode, and any further fields. */
  type Row = seq<string>

  /** `row[2]` exists for every row: a shorter row raises IndexError. */
  predicate Loadable(data: seq<Row>) {
    forall i :: 0 <= i < |data| ==> |data[i]| >= 3
  }

  /** A row becomes an edge unless its mode is `'unknown'`. */
  predicate Kept(row: Row)
    requires |row| >= 3
  {
    row[2] != "unknown"
  }

  /** The node table after `create_graph` has read `data`. */
  function LoadedNodes(data: seq<Row>): map<Name, Node>
    requires Loadable(data)
    decreases |data|
  {
    if data == [] then map[]
    else
      var tbl := LoadedNodes(data[..|data| - 1]);
      var row := data[|data| - 1];
      if Kept(row) then WithEdge(tbl, row[0], row[1], row[2]) else tbl
  }

  /** The key order after `create_graph` has read `data`. */
  function LoadedOrder(data: seq<Row>): seq<Name>
    requires Loadable(data)
    decreases |data|
  {
    if data == [] then []
    else
      var init := data[..|data| - 1];
      var row := data[|data| - 1];
      if Kept(row) then
        var tbl := LoadedNodes(init);
        Enrolled(Enrolled(LoadedOrder(init), tbl, row[0]), Registered(tbl, row[0]), row[1])
      else LoadedOrder(init)
  }

  /** The edges the kept rows ask for. */
  function RowEdges(data: seq<Row>): set<(Name, Name, Mode)>
    requires Loadable(data)
  {
    set i | 0 <= i < |data| && Kept(data[i]) :: (data[i][0], data[i][1], data[i][2])
  }

  /** The names the kept rows mention. */
  function RowNames(data: seq<Row>): set<Name>
    requires Loadable(data)
  {
    (set i | 0 <= i < |data| && Kept(data[i]) :: data[i][0]) + (set i | 0 <= i < |data| && Kept(data[i]) :: data[i][1])
  }

  /** The undirected adjacencies the kept rows ask for, both ways round. */
  function RowPairs(data: seq<Row>): set<(Name, Name)>
    requires Loadable(data)
  {
    (set i | 0 <= i < |data| && Kept(data[i]) :: (data[i][0], data[i][1]))
      + (set i | 0 <= i < |data| && Kept(data[i]) :: (data[i][1], data[i][0]))
  }

  /** `create_graph`: every row whose mode is not `'unknown'` added as an
      edge, in order. */
  method CreateGraph(data: seq<Row>) returns (graph: Graph)
    requires Loadable(data)
    ensures fresh(graph) && graph.Valid()
    ensures graph.nodes == LoadedNodes(data) && graph.order == LoadedOrder(data)
  {
    graph := new Graph();
    for i := 0 to |data|
      invariant fresh(graph) && graph.Valid()
      invariant graph.nodes == LoadedNodes(data[..i]) && graph.order == LoadedOrder(data[..i])
    {
      var row := data[i];
      assert data[..i + 1][..i] == data[..i] && data[..i + 1][i] == row;
      if row[2] != "unknown" {
        graph.AddEdge(row[0], row[1], row[2]);
      }
    }
    assert data[..|data|] == data;
  }

  lemma RowEdgesSnoc(data: seq<Row>)
    requires Loadable(data) && data != []
    ensures var init := data[..|data| - 1]; var row := data[|data| - 1];
      RowEdges(data) == RowEdges(init) + (if Kept(row) then {(row[0], row[1], row[2])} else {})
  {
    var init := data[..|data| - 1];
    var row := data[|data| - 1];
    forall e | e in RowEdges(data) ensures e in RowEdges(init) + (if Kept(row) then {(row[0], row[1], row[2])} else {}) {
      var i :| 0 <= i < |data| && Kept(data[i]) && e == (data[i][0], data[i][1], data[i][2]);
      if i < |init| {
        assert init[i] == data[i];
      }
    }
    forall e | e in RowEdges(init) ensures e in RowEdges(data) {
      var i :| 0 <= i < |init| && Kept(init[i]) && e == (init[i][0], init[i][1], init[i][2]);
      assert data[i] == init[i];
    }
  }

  lemma RowNamesSnoc(data: seq<Row>)
    requires Loadable(data) && data != []
    ensures var init := data[..|data| - 1]; var row := data[|data| - 1];
      RowNames(data) == RowNames(init) + (if Kept(row) then {row[0], row[1]} else {})
  {
    var init := data[..|data| - 1];
    var row := data[|data| - 1];
    forall x | x in RowNames(data) ensures x in RowNames(init) + (if Kept(row) then {row[0], row[1]} else {}) {
      var i :| 0 <= i < |data| && Kept(data[i]) && (x == data[i][0] || x == data[i][1]);
      if i < |init| {
        assert init[i] == data[i];
      }
    }
    forall x | x in RowNames(init) ensures x in RowNames(data) {
      var i :| 0 <= i < |init| && Kept(init[i]) && (x == init[i][0] || x == init[i][1]);
      assert data[i] == init[i];
    }
  }

  lemma RowPairsSnoc(data: seq<Row>)
    requires Loadable(data) && data != []
    ensures var init := data[..|data| - 1]; var row := data[|data| - 1];
      RowPairs(data) == RowPairs(init) + (if Kept(row) then {(row[0], row[1]), (row[1], row[0])} else {})
  {
    var init := data[..|data| - 1];
    var row := data[|data| - 1];
    forall p | p in RowPairs(data) ensures p in RowPairs(init) + (if Kept(row) then {(row[0], row[1]), (row[1], row[0])} else {}) {
      var i :| 0 <= i < |data| && Kept(data[i]) && (p == (data[i][0], data[i][1]) || p == (data[i][1], data[i][0]));
      if i < |init| {
        assert init[i] == data[i];
      }
    }
    forall p | p in RowPairs(init) ensures p in RowPairs(data) {
      var i :| 0 <= i < |init| && Kept(init[i]) && (p == (init[i][0], init[i][1]) || p == (init[i][1], init[i][0]));
      assert data[i] == init[i];
    }
  }

  /** The loaded graph is well formed and holds exactly the names the kept
      rows mention, exactly the directed edges they ask for and exactly the
      undirected adjacencies they imply. Rows with mode `'unknown'` leave no
      trace. */
  lemma {:induction false} LoadedGraph(data: seq<Row>)
    requires Loadable(data)
    ensures WellFormed(LoadedNodes(data))
    ensures LoadedNodes(data).Keys == RowNames(data)
    ensures EdgesOf(LoadedNodes(data)) == RowEdges(data)
    ensures PairsOf(LoadedNodes(data)) == RowPairs(data)
    decreases |data|
  {
    if data == [] {
      assert RowEdges(data) == {} && RowNames(data) == {} && RowPairs(data) == {};
    } else {
      var init := data[..|data| - 1];
      var row := data[|data| - 1];
      LoadedGraph(init);
      RowEdgesSnoc(data);
      RowNamesSnoc(data);
      RowPairsSnoc(data);
      if Kept(row) {
        WithEdgeProperties(LoadedNodes(init), row[0], row[1], row[2]);
      }
    }
  }

  /** Each kept row makes its two names undirected neighbours. */
  lemma LoadedAdjacent(data: seq<Row>, i: nat)
    requires Loadable(data) && i < |data| && Kept(data[i])
    ensures Adjacent(LoadedNodes(data), data[i][0], data[i][1])
    ensures Adjacent(LoadedNodes(data), data[i][1], data[i][0])
  {
    LoadedGraph(data);
    assert (data[i][0], data[i][1]) in RowPairs(data);
    assert (data[i][1], data[i][0]) in RowPairs(data);
  }

  /** The enumeration strategies the driver can pick by class name. */
  datatype Strategy = BruteForce | Bfs | Dp

  /** The class name each strategy is registered under. */
  function ClassName(s: Strategy): string {
    match s
    case BruteForce => "BruteForceGraphletCounter"
    case Bfs => "BFSGraphletCounter"
    case Dp => "DPGraphletCounter"
  }

  /** `get_algorithm_class`: the strategy registered under `name`, or None
      when no strategy has that class name. */
  function GetAlgorithmClass(name: string): (r: Option<Strategy>)
    ensures r.Some? ==> ClassName(r.value) == name
    ensures r.None? ==> forall s :: ClassName(s) != name
  {
    if name == "BruteForceGraphletCounter" then Some(BruteForce)
    else if name == "BFSGraphletCounter" then Some(Bfs)
    else if name == "DPGraphletCounter" then Some(Dp)
    else None
  }

  /** Every strategy is found under its own class name. */
  lemma GetAlgorithmClassInverse(s: Strategy)
    ensures GetAlgorithmClass(ClassName(s)) == Some(s)
  {
    match s
    case BruteForce =>
    case Bfs =>
      assert ClassName(Bfs) != ClassName(BruteForce);
    case Dp =>
      assert ClassName(Dp) != ClassName(BruteForce) && ClassName(Dp) != ClassName(Bfs);
  }

  /** A signature's `(representative, count)` pair. */
  type Bucket = (Graphlet, nat)
  type BucketMap = map<Sig, Bucket>

  /** The bucket for `key` after merging `info` into `agg`: a known key
      keeps its representative and adds the count; a new key takes `info`. */
  function Merged(agg: BucketMap, key: Sig, info: Bucket): Bucket {
    if key in agg then (agg[key].0, agg[key].1 + info.1) else info
  }

  /** One step of the merge loop of `run_graphlet_counting`. */
  function MergeEntry(agg: BucketMap, key: Sig, info: Bucket): BucketMap {
    agg[key := Merged(agg, key, info)]
  }

  /** The merge loop over `items`, first to last. */
  function MergeAll(agg: BucketMap, items: seq<(Sig, Bucket)>): BucketMap
    decreases |items|
  {
    if items == [] then agg
    else
      var last := items[|items| - 1];
      MergeEntry(MergeAll(agg, items[..|items| - 1]), last.0, last.1)
  }

  /** The keys `items` lists. */
  function KeysOf(items: seq<(Sig, Bucket)>): set<Sig> {
    set i | 0 <= i < |items| :: items[i].0
  }

  /** No key is listed twice. */
  predicate DistinctKeys(items: seq<(Sig, Bucket)>) {
    forall i, j :: 0 <= i < j < |items| ==> items[i].0 != items[j].0
  }

  /** `result` is `agg` with `items` merged in: the keys are the old keys
      and the listed ones, each listed key holds its `Merged` bucket, and
      every other entry is unchanged. */
  ghost predicate MergeFacts(agg: BucketMap, items: seq<(Sig, Bucket)>, result: BucketMap) {
    && result.Keys == agg.Keys + KeysOf(items)
    && (forall i :: 0 <= i < |items| ==> result[items[i].0] == Merged(agg, items[i].0, items[i].1))
    && (forall k :: k in agg && k !in KeysOf(items) ==> result[k] == agg[k])
  }

  /** Merging items with distinct keys does what `MergeFacts` says. */
  lemma {:induction false} MergeAllEntries(agg: BucketMap, items: seq<(Sig, Bucket)>)
    requires DistinctKeys(items)
    ensures MergeFacts(agg, items, MergeAll(agg, items))
    decreases |items|
  {
    if items != [] {
      var init := items[..|items| - 1];
      var last := items[|items| - 1];
      assert DistinctKeys(init) by {
        forall i, j | 0 <= i < j < |init| ensures init[i].0 != init[j].0 {
          assert init[i] == items[i] && init[j] == items[j];
        }
      }
      MergeAllEntries(agg, init);
      KeysSnoc(items);
      assert items == init + [last];
      MergeSnoc(agg, init, last, MergeAll(agg, init));
    }
  }

  /** The step of `MergeAllEntries`: one more item with a new key. */
  lemma MergeSnoc(agg: BucketMap, init: seq<(Sig, Bucket)>, last: (Sig, Bucket), before: BucketMap)
    requires MergeFacts(agg, init, before) && last.0 !in KeysOf(init)
    ensures MergeFacts(agg, init + [last], MergeEntry(before, last.0, last.1))
  {
    var items := init + [last];
    var after := MergeEntry(before, last.0, last.1);
    KeysSnoc(items);
    assert items[..|items| - 1] == init;
    assert after.Keys == agg.Keys + KeysOf(items);
    assert last.0 in before <==> last.0 in agg;
    assert after[last.0] == Merged(agg, last.0, last.1);
    forall i | 0 <= i < |items| ensures after[items[i].0] == Merged(agg, items[i].0, items[i].1) {
      if i < |init| {
        assert items[i] == init[i] && init[i].0 in KeysOf(init);
      }
    }
    forall k | k in agg && k !in KeysOf(items) ensures after[k] == agg[k] {
      assert k != last.0 && k !in KeysOf(init);
    }
  }

  /** The keys of a listing one item longer, and that item's key new when
      the keys are distinct. */
  lemma KeysSnoc(items: seq<(Sig, Bucket)>)
    requires items != []
    ensures KeysOf(items) == KeysOf(items[..|items| - 1]) + {items[|items| - 1].0}
    ensures DistinctKeys(items) ==> items[|items| - 1].0 !in KeysOf(items[..|items| - 1])
  {
    var init := items[..|items| - 1];
    var last := items[|items| - 1];
    forall k | k in KeysOf(items) ensures k in KeysOf(init) + {last.0} {
      var i :| 0 <= i < |items| && items[i].0 == k;
      if i < |init| {
        assert init[i] == items[i];
      }
    }
    forall k | k in KeysOf(init) ensures k in KeysOf(items) {
      var i :| 0 <= i < |init| && init[i].0 == k;
      assert items[i] == init[i];
    }
    if DistinctKeys(items) {
      forall i | 0 <= i < |init| ensures init[i].0 != last.0 {
        assert init[i] == items[i];
      }
    }
  }

  /** `result` is `incoming` merged into `agg`: the keys are the union; a
      shared key keeps the representative of `agg` and sums the counts; a
      new key takes the incoming bucket; every other entry is unchanged. */
  ghost predicate MergedMap(agg: BucketMap, incoming: BucketMap, result: BucketMap) {
    && result.Keys == agg.Keys + incoming.Keys
    && (forall k :: k in agg && k in incoming ==> result[k] == (agg[k].0, agg[k].1 + incoming[k].1))
    && (forall k :: k !in agg && k in incoming ==> result[k] == incoming[k])
    && (forall k :: k in agg && k !in incoming ==> result[k] == agg[k])
  }

  /** `items` lists `incoming`, so the merge of `items` is the merge of
      `incoming` described entry by entry. */
  lemma MergeListing(agg: BucketMap, incoming: BucketMap, items: seq<(Sig, Bucket)>)
    requires Lists(incoming, items)
    ensures MergedMap(agg, incoming, MergeAll(agg, items))
  {
    MergeAllEntries(agg, items);
    assert KeysOf(items) == incoming.Keys by {
      forall k | k in incoming ensures k in KeysOf(items) {
        var i :| 0 <= i < |items| && items[i].0 == k;
      }
    }
    forall k | k in incoming ensures MergeAll(agg, items)[k] == Merged(agg, k, incoming[k]) {
      var i :| 0 <= i < |items| && items[i].0 == k;
    }
  }

  /** The merge of two maps is determined by the two maps alone. */
  lemma MergedMapUnique(agg: BucketMap, incoming: BucketMap, r1: BucketMap, r2: BucketMap)
    requires MergedMap(agg, incoming, r1) && MergedMap(agg, incoming, r2)
    ensures r1 == r2
  {
    forall k | k in r1 ensures r1[k] == r2[k] {
      if k in agg && k in incoming {
      } else if k in incoming {
      } else {
      }
    }
  }

  /** The merge does not depend on the order in which the incoming map
      lists its entries. */
  lemma MergeOrderFree(agg: BucketMap, incoming: BucketMap, a: seq<(Sig, Bucket)>, b: seq<(Sig, Bucket)>)
    requires Lists(incoming, a) && Lists(incoming, b)
    ensures MergeAll(agg, a) == MergeAll(agg, b)
  {
    MergeListing(agg, incoming, a);
    MergeListing(agg, incoming, b);
    MergedMapUnique(agg, incoming, MergeAll(agg, a), MergeAll(agg, b));
  }

  /** The merge loop of `run_graphlet_counting` over the entries of one
      sample's map, in the order `items` lists them. */
  method MergeItems(agg: BucketMap, items: seq<(Sig, Bucket)>) returns (merged: BucketMap)
    ensures merged == MergeAll(agg, items)
  {
    merged := agg;
    for j := 0 to |items|
      invariant merged == MergeAll(agg, items[..j])
    {
      var key := items[j].0;
      var info := items[j].1;
      assert items[..j + 1][..j] == items[..j] && items[..j + 1][j] == items[j];
      if key in merged {
        var value := merged[key];
        merged := merged[key := (value.0, value.1 + info.1)];
      } else {
        merged := merged[key := info];
      }
    }
    assert items[..|items|] == items;
  }

  /** The merge of one sample's map into the aggregate: the keys become the
      union; a shared key keeps the aggregate's representative and sums the
      counts; a new key takes the incoming bucket; every other entry is
      unchanged. */
  method Merge(agg: BucketMap, incoming: BucketMap) returns (merged: BucketMap)
    ensures MergedMap(agg, incoming, merged)
  {
    var items := Items(incoming);
    merged := MergeItems(agg, items);
    MergeListing(agg, incoming, items);
  }

  /** Sort key of main.py's two rankings: a bucket's count. */
  function Frequency(item: (Sig, Bucket)): int {
    item.1.1
  }

  /** The ranking at the end of `solve` and of `run_graphlet_counting`: the
      same entries, each key once, by non-increasing count. */
  method SortByFrequency(m: BucketMap) returns (ranked: seq<(Sig, Bucket)>)
    ensures Lists(m, ranked) && |ranked| == |m|
    ensures NonIncreasing(ranked, Frequency)
  {
    var items := Items(m);
    ranked := SortDesc(items, Frequency);
    SortListing(m, items, Frequency);
  }
}
