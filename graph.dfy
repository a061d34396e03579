/** The graph store of graph/graph.py: nodes identified by name, each with a
    directed adjacency (mode -> targets) and a symmetric undirected adjacency.
    Python dicts keyed by name become duplicate-free sequences of names, which
    keep the dicts' insertion order; a node object stored as a dict value is
    referred to by its name, since every stored object is the registered one. */
module GraphStore {
  import opened Util

  type Name = string
  type Mode = string

  datatype Node = Node(name: Name, edges: map<Mode, seq<Name>>, undirected: seq<Name>)

  /** `target in node.edges[mode]` in the source. */
  predicate HasEdge(n: Node, mode: Mode, target: Name) {
    mode in n.edges && target in n.edges[mode]
  }

  /** Every adjacency sequence of the node is free of duplicates. */
  predicate NodeNoDup(n: Node) {
    NoDup(n.undirected) && forall m :: m in n.edges ==> NoDup(n.edges[m])
  }

  /** `n2` is `n1` with possibly some names appended to its adjacency sequences. */
  predicate Extends(n1: Node, n2: Node) {
    && n2.name == n1.name
    && n1.undirected <= n2.undirected
    && n1.edges.Keys <= n2.edges.Keys
    && forall m :: m in n1.edges ==> n1.edges[m] <= n2.edges[m]
  }

  /** `Node.add_edge`: record `target` under `mode`; a name already present
      keeps its place. */
  function AddDirected(n: Node, target: Name, mode: Mode): (r: Node)
    ensures r.name == n.name && r.undirected == n.undirected
    ensures Extends(n, r)
    ensures NodeNoDup(n) ==> NodeNoDup(r)
    ensures forall m, x :: HasEdge(r, m, x) <==> HasEdge(n, m, x) || (m == mode && x == target)
    ensures HasEdge(n, mode, target) ==> r == n
  {
    if mode !in n.edges then n.(edges := n.edges[mode := [target]])
    else if target in n.edges[mode] then n
    else n.(edges := n.edges[mode := n.edges[mode] + [target]])
  }

  /** `Node.add_undirected_edge`: record `other` as an undirected neighbour. */
  function AddUndirected(n: Node, other: Name): (r: Node)
    ensures r.name == n.name && r.edges == n.edges
    ensures Extends(n, r)
    ensures NodeNoDup(n) ==> NodeNoDup(r)
    ensures forall x :: x in r.undirected <==> x in n.undirected || x == other
    ensures other in n.undirected ==> r == n
  {
    if other in n.undirected then n else n.(undirected := n.undirected + [other])
  }

  /** The invariant the graph's node table keeps: keys are the node names,
      adjacency sequences have no duplicates, every directed edge is also an
      undirected adjacency, and undirected adjacency is symmetric between
      registered nodes. */
  ghost predicate WellFormed(tbl: map<Name, Node>) {
    && (forall x :: x in tbl ==> tbl[x].name == x && NodeNoDup(tbl[x]))
    && (forall x, m, y :: x in tbl && HasEdge(tbl[x], m, y) ==> y in tbl[x].undirected)
    && (forall x, y :: x in tbl && y in tbl[x].undirected ==> y in tbl && x in tbl[y].undirected)
  }

  /** `y` is an undirected neighbour of `x`. */
  predicate Adjacent(tbl: map<Name, Node>, x: Name, y: Name) {
    x in tbl && y in tbl[x].undirected
  }

  /** `node.get_undirected_neighbors()` as names, in insertion order. */
  function Neighbors(tbl: map<Name, Node>, x: Name): seq<Name> {
    if x in tbl then tbl[x].undirected else []
  }

  /** The neighbours of `x` are exactly the names adjacent to it; in a
      well-formed table they are registered names, none listed twice. */
  lemma NeighborsAdjacent(tbl: map<Name, Node>, x: Name)
    ensures forall y :: y in Neighbors(tbl, x) <==> Adjacent(tbl, x, y)
    ensures WellFormed(tbl) ==> NoDup(Neighbors(tbl, x)) && forall y :: y in Neighbors(tbl, x) ==> y in tbl
  {
  }

  lemma AdjacentSymmetric(tbl: map<Name, Node>, x: Name, y: Name)
    requires WellFormed(tbl)
    requires Adjacent(tbl, x, y)
    ensures Adjacent(tbl, y, x)
  {
  }

  /** The directed edges of a table as (source, target, mode) triples. */
  function EdgesOf(tbl: map<Name, Node>): set<(Name, Name, Mode)> {
    set x, m, y | x in tbl && m in tbl[x].edges && y in tbl[x].edges[m] :: (x, y, m)
  }

  /** The undirected adjacencies of a table as ordered pairs. */
  function PairsOf(tbl: map<Name, Node>): set<(Name, Name)> {
    set x, y | x in tbl && y in tbl[x].undirected :: (x, y)
  }

  /** The node table is well formed and `order` lists its keys once each. */
  ghost predicate Consistent(tbl: map<Name, Node>, order: seq<Name>) {
    && WellFormed(tbl)
    && NoDup(order)
    && (forall x :: x in tbl <==> x in order)
  }

  class Graph {
    /** `Graph.__graph_dict`. */
    var nodes: map<Name, Node>
    /** The key order of `Graph.__graph_dict`, which `get_nodes` yields. */
    var order: seq<Name>

    ghost predicate Valid()
      reads this
    {
      && WellFormed(nodes)
      && NoDup(order)
      && (forall x :: x in nodes <==> x in order)
    }

    constructor ()
      ensures Valid()
      ensures nodes == map[] && order == []
    {
      nodes := map[];
      order := [];
    }

    /** `Graph.__register_node`: a known name keeps its node, a new name gets
        a node with no adjacencies. */
    method Register(name: Name) returns (n: Node)
      requires Valid()
      modifies this
      ensures Valid()
      ensures nodes == Registered(old(nodes), name)
      ensures order == Enrolled(old(order), old(nodes), name)
      ensures n == nodes[name]
    {
      if name !in nodes {
        nodes := nodes[name := Node(name, map[], [])];
        order := order + [name];
      }
      n := nodes[name];
    }

    /** `Graph.add_edge`: both endpoints are registered, the directed edge
        a -> b under `mode` is recorded, and a and b become undirected
        neighbours of each other. Nothing else changes. */
    method AddEdge(a: Name, b: Name, mode: Mode)
      requires Valid()
      modifies this
      ensures Valid()
      ensures nodes == WithEdge(old(nodes), a, b, mode)
      ensures order == Enrolled(Enrolled(old(order), old(nodes), a), Registered(old(nodes), a), b)
    {
      ghost var before := nodes;
      var _ := Register(a);
      var _ := Register(b);
      ghost var registered := nodes;
      nodes := nodes[a := AddDirected(nodes[a], b, mode)];
      nodes := nodes[a := AddUndirected(nodes[a], b)];
      nodes := nodes[b := AddUndirected(nodes[b], a)];
      assert nodes == Linked(registered, a, b, mode);
      LinkedConsistent(registered, order, a, b, mode);
    }

    /** `Graph.get_node`: the node registered under `name`, or None where the
        source raises KeyError. */
    function GetNode(name: Name): (r: Option<Node>)
      reads this
      requires Valid()
      ensures r.Some? <==> name in order
      ensures r.Some? ==> r.value.name == name && r.value == nodes[name]
    {
      if name in nodes then Some(nodes[name]) else None
    }

    /** `Graph.get_edges`: one (source, target, mode) triple per entry of the
        directed maps, none twice. */
    method GetEdges() returns (r: seq<(Name, Name, Mode)>)
      requires Valid()
      ensures NoDup(r)
      ensures forall e :: e in r <==> e in EdgesOf(nodes)
      ensures |r| == |EdgesOf(nodes)|
    {
      r := [];
      var i := 0;
      while i < |order|
        invariant 0 <= i <= |order|
        invariant NoDup(r)
        invariant forall e :: e in r <==> e in EdgesOf(nodes) && e.0 in order[..i]
      {
        var x := order[i];
        var part := EdgesOfNode(nodes[x]);
        assert forall e :: e in part ==> e.0 == x;
        assert x !in order[..i];
        NoDupConcat(r, part);
        r := r + part;
        i := i + 1;
        assert order[..i] == order[..i - 1] + [x];
      }
      assert order[..i] == order;
      assert (set e | e in r) == EdgesOf(nodes);
      NoDupCard(r);
    }
  }

  /** The three updates of `Graph.add_edge` applied to a table in which both
      endpoints are registered. */
  function Linked(tbl: map<Name, Node>, a: Name, b: Name, mode: Mode): (r: map<Name, Node>)
    requires a in tbl && b in tbl
    ensures r.Keys == tbl.Keys
  {
    var t1 := tbl[a := AddDirected(tbl[a], b, mode)];
    var t2 := t1[a := AddUndirected(t1[a], b)];
    t2[b := AddUndirected(t2[b], a)]
  }

  /** What `Linked` does to one entry of the table: the entry keeps its
      name, stays duplicate-free and only grows. */
  lemma LinkedAt(tbl: map<Name, Node>, a: Name, b: Name, mode: Mode, x: Name)
    requires WellFormed(tbl) && a in tbl && b in tbl && x in tbl
    ensures x in Linked(tbl, a, b, mode)
    ensures Linked(tbl, a, b, mode)[x].name == x
    ensures NodeNoDup(Linked(tbl, a, b, mode)[x])
    ensures Extends(tbl[x], Linked(tbl, a, b, mode)[x])
    ensures x != a && x != b ==> Linked(tbl, a, b, mode)[x] == tbl[x]
  {
  }

  /** The directed entries of one node after `Linked`. */
  lemma LinkedDirectedAt(tbl: map<Name, Node>, a: Name, b: Name, mode: Mode, x: Name)
    requires a in tbl && b in tbl && x in tbl
    ensures forall m, y :: HasEdge(Linked(tbl, a, b, mode)[x], m, y) <==>
      HasEdge(tbl[x], m, y) || (x == a && m == mode && y == b)
  {
  }

  /** The undirected neighbours of one node after `Linked`. */
  lemma LinkedUndirectedAt(tbl: map<Name, Node>, a: Name, b: Name, mode: Mode, x: Name)
    requires a in tbl && b in tbl && x in tbl
    ensures forall y :: y in Linked(tbl, a, b, mode)[x].undirected <==>
      y in tbl[x].undirected || (x == a && y == b) || (x == b && y == a)
  {
  }

  lemma LinkedWellFormed(tbl: map<Name, Node>, a: Name, b: Name, mode: Mode)
    requires WellFormed(tbl) && a in tbl && b in tbl
    ensures Linked(tbl, a, b, mode).Keys == tbl.Keys
    ensures WellFormed(Linked(tbl, a, b, mode))
  {
    var t := Linked(tbl, a, b, mode);
    forall x | x in tbl
      ensures t[x].name == x && NodeNoDup(t[x])
      ensures forall m, y :: HasEdge(t[x], m, y) ==> y in t[x].undirected
      ensures forall y :: y in t[x].undirected ==> y in t && x in t[y].undirected
    {
      LinkedAt(tbl, a, b, mode, x);
      LinkedDirectedAt(tbl, a, b, mode, x);
      LinkedUndirectedAt(tbl, a, b, mode, x);
      forall y | y in t[x].undirected ensures y in t && x in t[y].undirected {
        LinkedUndirectedAt(tbl, a, b, mode, y);
      }
    }
  }

  lemma LinkedConsistent(tbl: map<Name, Node>, order: seq<Name>, a: Name, b: Name, mode: Mode)
    requires Consistent(tbl, order) && a in tbl && b in tbl
    ensures Consistent(Linked(tbl, a, b, mode), order)
  {
    LinkedWellFormed(tbl, a, b, mode);
  }

  lemma LinkedEdges(tbl: map<Name, Node>, a: Name, b: Name, mode: Mode)
    requires WellFormed(tbl) && a in tbl && b in tbl
    ensures EdgesOf(Linked(tbl, a, b, mode)) == EdgesOf(tbl) + {(a, b, mode)}
  {
    var t := Linked(tbl, a, b, mode);
    forall e | e in EdgesOf(t) ensures e in EdgesOf(tbl) + {(a, b, mode)} {
      var (x, y, m) := e;
      LinkedDirectedAt(tbl, a, b, mode, x);
      assert HasEdge(t[x], m, y);
    }
    forall e | e in EdgesOf(tbl) + {(a, b, mode)} ensures e in EdgesOf(t) {
      var (x, y, m) := e;
      LinkedDirectedAt(tbl, a, b, mode, x);
      assert HasEdge(t[x], m, y);
    }
  }

  lemma LinkedPairs(tbl: map<Name, Node>, a: Name, b: Name, mode: Mode)
    requires WellFormed(tbl) && a in tbl && b in tbl
    ensures PairsOf(Linked(tbl, a, b, mode)) == PairsOf(tbl) + {(a, b), (b, a)}
  {
    LinkedPairsOld(tbl, a, b, mode);
    LinkedPairsNew(tbl, a, b, mode);
  }

  lemma LinkedPairsOld(tbl: map<Name, Node>, a: Name, b: Name, mode: Mode)
    requires WellFormed(tbl) && a in tbl && b in tbl
    ensures PairsOf(Linked(tbl, a, b, mode)) <= PairsOf(tbl) + {(a, b), (b, a)}
  {
    var t := Linked(tbl, a, b, mode);
    forall p | p in PairsOf(t) ensures p in PairsOf(tbl) + {(a, b), (b, a)} {
      LinkedUndirectedAt(tbl, a, b, mode, p.0);
      assert p.1 in t[p.0].undirected;
    }
  }

  lemma LinkedPairsNew(tbl: map<Name, Node>, a: Name, b: Name, mode: Mode)
    requires WellFormed(tbl) && a in tbl && b in tbl
    ensures PairsOf(tbl) + {(a, b), (b, a)} <= PairsOf(Linked(tbl, a, b, mode))
  {
    var t := Linked(tbl, a, b, mode);
    forall p | p in PairsOf(tbl) + {(a, b), (b, a)} ensures p in PairsOf(t) {
      LinkedUndirectedAt(tbl, a, b, mode, p.0);
      assert p.1 in t[p.0].undirected;
    }
  }

  /** Linking leaves every entry extended and the entries of other names alone. */
  lemma LinkedEntries(tbl: map<Name, Node>, a: Name, b: Name, mode: Mode)
    requires WellFormed(tbl) && a in tbl && b in tbl
    ensures forall x :: x in tbl ==> Extends(tbl[x], Linked(tbl, a, b, mode)[x])
    ensures forall x :: x in tbl && x != a && x != b ==> Linked(tbl, a, b, mode)[x] == tbl[x]
  {
    forall x | x in tbl
      ensures Extends(tbl[x], Linked(tbl, a, b, mode)[x])
      ensures x != a && x != b ==> Linked(tbl, a, b, mode)[x] == tbl[x]
    {
      LinkedAt(tbl, a, b, mode, x);
    }
  }

  /** `Graph.__register_node` on the table alone. */
  function Registered(tbl: map<Name, Node>, n: Name): (r: map<Name, Node>)
    ensures r.Keys == tbl.Keys + {n}
    ensures forall x :: x in tbl ==> r[x] == tbl[x]
  {
    if n in tbl then tbl else tbl[n := Node(n, map[], [])]
  }

  /** The key order after `Graph.__register_node(n)`: a new name goes last. */
  function Enrolled(order: seq<Name>, tbl: map<Name, Node>, n: Name): (r: seq<Name>)
    ensures NoDup(order) && (forall x :: x in tbl <==> x in order) ==>
      NoDup(r) && forall x :: x in Registered(tbl, n) <==> x in r
  {
    if n in tbl then order else order + [n]
  }

  /** The table after `Graph.add_edge(a, b, mode)`. */
  function WithEdge(tbl: map<Name, Node>, a: Name, b: Name, mode: Mode): map<Name, Node> {
    Linked(Registered(Registered(tbl, a), b), a, b, mode)
  }

  lemma WithEdgeProperties(tbl: map<Name, Node>, a: Name, b: Name, mode: Mode)
    requires WellFormed(tbl)
    ensures WellFormed(WithEdge(tbl, a, b, mode))
    ensures WithEdge(tbl, a, b, mode).Keys == tbl.Keys + {a, b}
    ensures EdgesOf(WithEdge(tbl, a, b, mode)) == EdgesOf(tbl) + {(a, b, mode)}
    ensures PairsOf(WithEdge(tbl, a, b, mode)) == PairsOf(tbl) + {(a, b), (b, a)}
    ensures forall x :: x in tbl ==> Extends(tbl[x], WithEdge(tbl, a, b, mode)[x])
    ensures forall x :: x in tbl && x != a && x != b ==> WithEdge(tbl, a, b, mode)[x] == tbl[x]
    ensures (a, b, mode) in EdgesOf(tbl) ==> WithEdge(tbl, a, b, mode) == tbl
  {
    var t2 := Registered(Registered(tbl, a), b);
    RegisteredTwice(tbl, a, b);
    LinkedWellFormed(t2, a, b, mode);
    LinkedEdges(t2, a, b, mode);
    LinkedPairs(t2, a, b, mode);
    LinkedEntries(t2, a, b, mode);
    if (a, b, mode) in EdgesOf(tbl) {
      assert HasEdge(tbl[a], mode, b);
      assert t2 == tbl;
      LinkedIdempotent(tbl, a, b, mode);
    }
  }

  /** Registering both endpoints adds nodes without adjacencies. */
  lemma RegisteredTwice(tbl: map<Name, Node>, a: Name, b: Name)
    requires WellFormed(tbl)
    ensures var t := Registered(Registered(tbl, a), b);
      && WellFormed(t) && EdgesOf(t) == EdgesOf(tbl) && PairsOf(t) == PairsOf(tbl)
      && t.Keys == tbl.Keys + {a, b} && forall x :: x in tbl ==> t[x] == tbl[x]
  {
    RegisterKeepsViews(tbl, a);
    RegisterKeepsViews(Registered(tbl, a), b);
  }

  /** Registering a name adds a node without adjacencies and changes no edge. */
  lemma RegisterKeepsViews(tbl: map<Name, Node>, n: Name)
    requires WellFormed(tbl)
    ensures var t := Registered(tbl, n);
      WellFormed(t) && EdgesOf(t) == EdgesOf(tbl) && PairsOf(t) == PairsOf(tbl)
  {
    if n !in tbl {
      RegisterEdges(tbl, n);
      RegisterPairs(tbl, n);
    }
  }

  lemma RegisterEdges(tbl: map<Name, Node>, n: Name)
    requires n !in tbl
    ensures EdgesOf(tbl[n := Node(n, map[], [])]) == EdgesOf(tbl)
  {
    var t := tbl[n := Node(n, map[], [])];
    forall e | e in EdgesOf(t) ensures e in EdgesOf(tbl) {
      assert HasEdge(t[e.0], e.2, e.1);
    }
  }

  lemma RegisterPairs(tbl: map<Name, Node>, n: Name)
    requires n !in tbl
    ensures PairsOf(tbl[n := Node(n, map[], [])]) == PairsOf(tbl)
  {
    var t := tbl[n := Node(n, map[], [])];
    forall p | p in PairsOf(t) ensures p in PairsOf(tbl) {
      assert p.1 in t[p.0].undirected;
    }
  }

  /** Linking an existing edge again changes nothing. */
  lemma LinkedIdempotent(tbl: map<Name, Node>, a: Name, b: Name, mode: Mode)
    requires WellFormed(tbl) && a in tbl && b in tbl
    requires HasEdge(tbl[a], mode, b)
    ensures Linked(tbl, a, b, mode) == tbl
  {
    assert b in tbl[a].undirected && a in tbl[b].undirected;
  }

  /** The inner loops of `Graph.get_edges` for one node: its directed
      entries as (name, target, mode) triples, in mode-then-insertion order.
      The order in which modes are visited is not modelled. */
  method EdgesOfNode(n: Node) returns (r: seq<(Name, Name, Mode)>)
    requires NodeNoDup(n)
    ensures NoDup(r)
    ensures forall e :: e in r <==> e.0 == n.name && HasEdge(n, e.2, e.1)
  {
    r := [];
    var todo := n.edges.Keys;
    while todo != {}
      invariant todo <= n.edges.Keys
      invariant NoDup(r)
      invariant forall e :: e in r <==> e.0 == n.name && HasEdge(n, e.2, e.1) && e.2 !in todo
      decreases todo
    {
      var m :| m in todo;
      var targets := n.edges[m];
      var j := 0;
      while j < |targets|
        invariant 0 <= j <= |targets|
        invariant NoDup(r)
        invariant forall e :: e in r <==> e.0 == n.name && HasEdge(n, e.2, e.1)
                                          && (e.2 !in todo || (e.2 == m && e.1 in targets[..j]))
      {
        assert targets[..j + 1] == targets[..j] + [targets[j]];
        assert (n.name, targets[j], m) !in r;
        NoDupConcat(r, [(n.name, targets[j], m)]);
        r := r + [(n.name, targets[j], m)];
        j := j + 1;
      }
      assert targets[..j] == targets;
      todo := todo - {m};
    }
  }
}
