/** The value `Graphlet.__hash__` (graph/graph.py) hashes: for each member a
    record mode -> counter, where every induced edge f -> t of a mode adds one
    to the counter of f and one to the counter of t (so a self-loop adds two),
    collected into a SET of records. Python's builtin `hash` of that set is not
    modelled; the set itself is the signature. */
module Signature {
  import opened Util
  import opened GraphStore

  /** A graphlet: its member names. The owning graph is the one its counter
      holds. */
  datatype Graphlet = Graphlet(members: seq<Name>)

  type Record = map<Mode, nat>
  type Sig = set<Record>

  /** `Graphlet.nodes` as the source's callers build it: registered names,
      none twice. */
  ghost predicate Members(tbl: map<Name, Node>, s: seq<Name>) {
    NoDup(s) && forall x :: x in s ==> x in tbl
  }

  /** 1 when `f -> t` is an edge of mode `m`. */
  function Edge(tbl: map<Name, Node>, f: Name, t: Name, m: Mode): nat {
    if f in tbl && HasEdge(tbl[f], m, t) then 1 else 0
  }

  function OutTerm(tbl: map<Name, Node>, x: Name, m: Mode): Name -> nat {
    t => Edge(tbl, x, t, m)
  }

  function InTerm(tbl: map<Name, Node>, x: Name, m: Mode): Name -> nat {
    f => Edge(tbl, f, x, m)
  }

  /** Number of members `x` has an `m` edge to. */
  function OutDegree(tbl: map<Name, Node>, s: seq<Name>, x: Name, m: Mode): nat {
    Sum(s, OutTerm(tbl, x, m))
  }

  /** Number of members that have an `m` edge to `x`. */
  function InDegree(tbl: map<Name, Node>, s: seq<Name>, x: Name, m: Mode): nat {
    Sum(s, InTerm(tbl, x, m))
  }

  /** The counter the source accumulates for `x` and mode `m`. */
  function Degree(tbl: map<Name, Node>, s: seq<Name>, x: Name, m: Mode): nat {
    OutDegree(tbl, s, x, m) + InDegree(tbl, s, x, m)
  }

  /** Modes of the directed maps of the members. */
  function ModesIn(tbl: map<Name, Node>, s: seq<Name>): set<Mode> {
    set f, m | f in s && f in tbl && m in tbl[f].edges :: m
  }

  /** The record of `x`: a counter for exactly the modes it touches. */
  function RecordOf(tbl: map<Name, Node>, s: seq<Name>, x: Name): Record {
    map m | m in ModesIn(tbl, s) && Degree(tbl, s, x, m) > 0 :: Degree(tbl, s, x, m)
  }

  /** The signature of a graphlet with members `s`. */
  function SignatureOf(tbl: map<Name, Node>, s: seq<Name>): Sig {
    set x | x in s :: RecordOf(tbl, s, x)
  }

  /** A missing counter reads as zero (`setdefault(mode, 0)`). */
  function Get(r: Record, m: Mode): nat {
    if m in r then r[m] else 0
  }

  /** `data.setdefault(m, 0); data[m] += 1`. */
  function Bump(r: Record, m: Mode): (r': Record)
    ensures r'.Keys == r.Keys + {m}
    ensures forall k :: Get(r', k) == Get(r, k) + (if k == m then 1 else 0)
  {
    r[m := Get(r, m) + 1]
  }

  /** Every counter present is positive: a counter is created only when it is
      incremented. */
  predicate Positive(data: map<Name, Record>) {
    forall x, m :: x in data && m in data[x] ==> data[x][m] > 0
  }

  /** What one ordered pair (f, t) adds to the counter of `x` for mode `m`. */
  function Share(tbl: map<Name, Node>, f: Name, t: Name, x: Name, m: Mode): nat {
    (if x == f then Edge(tbl, f, t, m) else 0) + (if x == t then Edge(tbl, f, t, m) else 0)
  }

  /** `d` is `data` after the modes of `f` outside `todo` have been tallied
      for the pair (f, t). */
  ghost predicate PairTallied(tbl: map<Name, Node>, data: map<Name, Record>, d: map<Name, Record>,
                              f: Name, t: Name, todo: set<Mode>) {
    d.Keys == data.Keys &&
    forall x, m :: x in d ==> Get(d[x], m) == Get(data[x], m) + (if m in todo then 0 else Share(tbl, f, t, x, m))
  }

  /** Bumping the counters of `f` and then `t` for `mode`: one each, two
      when they are the same member. */
  lemma BumpTwice(prev: map<Name, Record>, f: Name, t: Name, mode: Mode)
    requires f in prev && t in prev && Positive(prev)
    ensures var d1 := prev[f := Bump(prev[f], mode)];
      var d2 := d1[t := Bump(d1[t], mode)];
      && d2.Keys == prev.Keys && Positive(d2)
      && forall x, m :: x in d2 ==>
        Get(d2[x], m) == Get(prev[x], m) + (if m == mode then (if x == f then 1 else 0) + (if x == t then 1 else 0) else 0)
  {
  }

  /** One mode of the innermost loop, when `t` is a target of that mode:
      both counters are bumped. */
  lemma PairBumped(tbl: map<Name, Node>, data: map<Name, Record>, prev: map<Name, Record>,
                   f: Name, t: Name, mode: Mode, todo: set<Mode>)
    requires f in tbl && f in prev && t in prev && mode in todo && mode in tbl[f].edges
    requires t in tbl[f].edges[mode]
    requires Positive(prev) && PairTallied(tbl, data, prev, f, t, todo)
    ensures var d1 := prev[f := Bump(prev[f], mode)];
      var d2 := d1[t := Bump(d1[t], mode)];
      Positive(d2) && PairTallied(tbl, data, d2, f, t, todo - {mode})
  {
    BumpTwice(prev, f, t, mode);
    var d1 := prev[f := Bump(prev[f], mode)];
    var d2 := d1[t := Bump(d1[t], mode)];
    forall x, m | x in d2
      ensures Get(d2[x], m) == Get(data[x], m) + (if m in todo - {mode} then 0 else Share(tbl, f, t, x, m))
    {
      if m == mode {
        assert Edge(tbl, f, t, mode) == 1;
      }
    }
  }

  /** One mode of the innermost loop, when `t` is not a target of that
      mode: nothing changes. */
  lemma PairSkipped(tbl: map<Name, Node>, data: map<Name, Record>, prev: map<Name, Record>,
                    f: Name, t: Name, mode: Mode, todo: set<Mode>)
    requires f in tbl && mode in tbl[f].edges && t !in tbl[f].edges[mode]
    requires PairTallied(tbl, data, prev, f, t, todo)
    ensures PairTallied(tbl, data, prev, f, t, todo - {mode})
  {
    assert Edge(tbl, f, t, mode) == 0;
  }

  /** The innermost loop of `Graphlet.__hash__`: for each mode of `f`'s
      directed map that has `t` as a target, bump the counters of `f` and `t`. */
  method TallyPair(tbl: map<Name, Node>, data: map<Name, Record>, f: Name, t: Name)
    returns (d: map<Name, Record>)
    requires f in tbl && f in data && t in data && Positive(data)
    ensures d.Keys == data.Keys && Positive(d)
    ensures forall x, m :: x in d ==> Get(d[x], m) == Get(data[x], m) + Share(tbl, f, t, x, m)
  {
    d := data;
    var todo := tbl[f].edges.Keys;
    while todo != {}
      invariant todo <= tbl[f].edges.Keys
      invariant Positive(d) && PairTallied(tbl, data, d, f, t, todo)
      decreases todo
    {
      var mode :| mode in todo;
      if t in tbl[f].edges[mode] {
        PairBumped(tbl, data, d, f, t, mode, todo);
        d := d[f := Bump(d[f], mode)];
        d := d[t := Bump(d[t], mode)];
      } else {
        PairSkipped(tbl, data, d, f, t, mode, todo);
      }
      todo := todo - {mode};
    }
  }

  /** `d` is `data` after the pairs (f, t), t in `s`, have been tallied. */
  ghost predicate RowTallied(tbl: map<Name, Node>, data: map<Name, Record>, d: map<Name, Record>, s: seq<Name>, f: Name) {
    d.Keys == data.Keys &&
    forall x, m :: x in d ==>
      Get(d[x], m) == Get(data[x], m) + (if x == f then OutDegree(tbl, s, f, m) else 0)
                                      + (if x in s then Edge(tbl, f, x, m) else 0)
  }

  /** The middle loop: `f` against every member. */
  method TallyRow(tbl: map<Name, Node>, data: map<Name, Record>, s: seq<Name>, f: Name)
    returns (d: map<Name, Record>)
    requires NoDup(s) && f in tbl && f in data && Positive(data)
    requires forall x :: x in s ==> x in data
    ensures Positive(d) && RowTallied(tbl, data, d, s, f)
  {
    d := data;
    var j := 0;
    forall x, m | x in d
      ensures Get(d[x], m) == Get(data[x], m) + (if x == f then OutDegree(tbl, s[..0], f, m) else 0)
                                              + (if x in s[..0] then Edge(tbl, f, x, m) else 0)
    {
      assert s[..0] == [];
    }
    while j < |s|
      invariant 0 <= j <= |s|
      invariant Positive(d) && RowTallied(tbl, data, d, s[..j], f)
    {
      ghost var prev := d;
      d := TallyPair(tbl, d, f, s[j]);
      RowStep(tbl, data, prev, d, s, j, f);
      j := j + 1;
    }
    assert s[..j] == s;
  }

  /** One member of the middle loop. */
  lemma RowStep(tbl: map<Name, Node>, data: map<Name, Record>, prev: map<Name, Record>, d: map<Name, Record>,
                s: seq<Name>, j: nat, f: Name)
    requires NoDup(s) && j < |s| && RowTallied(tbl, data, prev, s[..j], f)
    requires d.Keys == prev.Keys
    requires forall x, m :: x in d ==> Get(d[x], m) == Get(prev[x], m) + Share(tbl, f, s[j], x, m)
    ensures RowTallied(tbl, data, d, s[..j + 1], f)
  {
    assert s[..j + 1] == s[..j] + [s[j]];
    assert s[j] !in s[..j];
    forall x, m | x in d
      ensures Get(d[x], m) == Get(data[x], m)
        + (if x == f then OutDegree(tbl, s[..j + 1], f, m) else 0)
        + (if x in s[..j + 1] then Edge(tbl, f, x, m) else 0)
    {
      OutDegreeStep(tbl, s, j, f, m);
    }
  }

  lemma OutDegreeStep(tbl: map<Name, Node>, s: seq<Name>, j: nat, f: Name, m: Mode)
    requires j < |s|
    ensures OutDegree(tbl, s[..j + 1], f, m) == OutDegree(tbl, s[..j], f, m) + Edge(tbl, f, s[j], m)
  {
    assert s[..j + 1] == s[..j] + [s[j]];
    SumAppend(s[..j], [s[j]], OutTerm(tbl, f, m));
  }

  lemma InDegreeStep(tbl: map<Name, Node>, s: seq<Name>, i: nat, x: Name, m: Mode)
    requires i < |s|
    ensures InDegree(tbl, s[..i + 1], x, m) == InDegree(tbl, s[..i], x, m) + Edge(tbl, s[i], x, m)
  {
    assert s[..i + 1] == s[..i] + [s[i]];
    SumAppend(s[..i], [s[i]], InTerm(tbl, x, m));
  }

  /** `data` holds, for every member, the counters after the rows of the
      members in `p` (a prefix of `s`) have been tallied. */
  ghost predicate Tallied(tbl: map<Name, Node>, s: seq<Name>, p: seq<Name>, data: map<Name, Record>) {
    forall x, m :: x in data ==>
      Get(data[x], m) == (if x in p then OutDegree(tbl, s, x, m) else 0) + InDegree(tbl, p, x, m)
  }

  /** `node_data_map` of `Graphlet.__hash__`: the record of every member. */
  method NodeData(tbl: map<Name, Node>, s: seq<Name>) returns (data: map<Name, Record>)
    requires Members(tbl, s)
    ensures data.Keys == set x | x in s
    ensures forall x :: x in data ==> data[x] == RecordOf(tbl, s, x)
  {
    data := map[];
    var k := 0;
    while k < |s|
      invariant 0 <= k <= |s|
      invariant data.Keys == set x | x in s[..k]
      invariant forall x :: x in data ==> data[x] == map[]
    {
      data := data[s[k] := map[]];
      k := k + 1;
      assert s[..k] == s[..k - 1] + [s[k - 1]];
    }
    assert s[..k] == s;
    forall x, m | x in data
      ensures Get(data[x], m) == (if x in s[..0] then OutDegree(tbl, s, x, m) else 0) + InDegree(tbl, s[..0], x, m)
    {
      assert s[..0] == [];
    }
    var i := 0;
    while i < |s|
      invariant 0 <= i <= |s|
      invariant data.Keys == set x | x in s
      invariant Positive(data) && Tallied(tbl, s, s[..i], data)
    {
      ghost var prev := data;
      data := TallyRow(tbl, data, s, s[i]);
      TalliedStep(tbl, s, i, prev, data);
      i := i + 1;
    }
    assert s[..i] == s;
    TalliedRecords(tbl, s, data);
  }

  /** One member of the outer loop. */
  lemma TalliedStep(tbl: map<Name, Node>, s: seq<Name>, i: nat, prev: map<Name, Record>, d: map<Name, Record>)
    requires NoDup(s) && i < |s| && Tallied(tbl, s, s[..i], prev)
    requires forall x :: x in prev ==> x in s
    requires RowTallied(tbl, prev, d, s, s[i])
    ensures Tallied(tbl, s, s[..i + 1], d)
  {
    assert s[..i + 1] == s[..i] + [s[i]];
    assert s[i] !in s[..i];
    forall x, m | x in d
      ensures Get(d[x], m) == (if x in s[..i + 1] then OutDegree(tbl, s, x, m) else 0) + InDegree(tbl, s[..i + 1], x, m)
    {
      InDegreeStep(tbl, s, i, x, m);
    }
  }

  /** Once every member is tallied, each counter map is the member's record. */
  lemma TalliedRecords(tbl: map<Name, Node>, s: seq<Name>, data: map<Name, Record>)
    requires Positive(data) && Tallied(tbl, s, s, data)
    requires forall x :: x in data ==> x in s
    ensures forall x :: x in data ==> data[x] == RecordOf(tbl, s, x)
  {
    forall x | x in data ensures data[x] == RecordOf(tbl, s, x) {
      forall m ensures Get(data[x], m) == Degree(tbl, s, x, m) {
      }
      RecordFromCounters(tbl, s, x, data[x]);
    }
  }

  /** `Graphlet.__hash__` up to the builtin hash: the set of member records. */
  method ComputeSignature(tbl: map<Name, Node>, s: seq<Name>) returns (sig: Sig)
    requires Members(tbl, s)
    ensures sig == SignatureOf(tbl, s)
  {
    var data := NodeData(tbl, s);
    sig := data.Values;
    forall r | r in SignatureOf(tbl, s) ensures r in sig {
      var x :| x in s && r == RecordOf(tbl, s, x);
      assert data[x] == r;
    }
  }

  /** A positive sum has a positive term. */
  lemma {:induction false} SumPositive(s: seq<Name>, f: Name -> nat)
    requires Sum(s, f) > 0
    ensures exists x :: x in s && f(x) > 0
  {
    if f(s[0]) == 0 {
      SumPositive(s[1..], f);
      var x :| x in s[1..] && f(x) > 0;
      assert x in s;
    }
  }

  /** A mode with a nonzero counter is a mode of some member's directed map. */
  lemma DegreeMode(tbl: map<Name, Node>, s: seq<Name>, x: Name, m: Mode)
    requires x in s && Degree(tbl, s, x, m) > 0
    ensures m in ModesIn(tbl, s)
  {
    if OutDegree(tbl, s, x, m) > 0 {
      SumPositive(s, OutTerm(tbl, x, m));
      var t :| t in s && OutTerm(tbl, x, m)(t) > 0;
      assert x in tbl && HasEdge(tbl[x], m, t);
    } else {
      SumPositive(s, InTerm(tbl, x, m));
      var f :| f in s && InTerm(tbl, x, m)(f) > 0;
      assert f in tbl && m in tbl[f].edges;
    }
  }

  /** Counters that read as the degrees and are all positive form the record. */
  lemma RecordFromCounters(tbl: map<Name, Node>, s: seq<Name>, x: Name, r: Record)
    requires x in s
    requires forall m :: m in r ==> r[m] > 0
    requires forall m :: Get(r, m) == Degree(tbl, s, x, m)
    ensures r == RecordOf(tbl, s, x)
  {
    var want := RecordOf(tbl, s, x);
    forall m | m in r ensures m in want {
      assert Get(r, m) > 0;
      DegreeMode(tbl, s, x, m);
    }
    forall m | m in want ensures m in r {
      assert Get(r, m) > 0;
    }
  }

  /** A member's record reads, for every mode, as its degree in that mode. */
  lemma RecordCounts(tbl: map<Name, Node>, s: seq<Name>, x: Name, m: Mode)
    requires x in s
    ensures Get(RecordOf(tbl, s, x), m) == Degree(tbl, s, x, m)
  {
    if Degree(tbl, s, x, m) > 0 {
      DegreeMode(tbl, s, x, m);
    }
  }

  function OutDegrees(tbl: map<Name, Node>, s: seq<Name>, m: Mode): Name -> nat {
    x => OutDegree(tbl, s, x, m)
  }

  function InDegrees(tbl: map<Name, Node>, s: seq<Name>, m: Mode): Name -> nat {
    x => InDegree(tbl, s, x, m)
  }

  /** The counter of mode `m` in each member's record. */
  function Counters(tbl: map<Name, Node>, s: seq<Name>, m: Mode): Name -> nat {
    x => Get(RecordOf(tbl, s, x), m)
  }

  /** Number of ordered member pairs (f, t) with an `m` edge f -> t: the
      induced directed edges of mode `m`. */
  function InducedEdges(tbl: map<Name, Node>, s: seq<Name>, m: Mode): nat {
    Sum(s, OutDegrees(tbl, s, m))
  }

  /** Summed over the members, the counters of a mode are twice the number of
      induced edges of that mode: each edge adds one at each end. */
  lemma DegreeSum(tbl: map<Name, Node>, s: seq<Name>, m: Mode)
    ensures Sum(s, Counters(tbl, s, m)) == 2 * InducedEdges(tbl, s, m)
  {
    var g: Name -> Name -> nat := f => OutTerm(tbl, f, m);
    forall x | x in s ensures Counters(tbl, s, m)(x) == OutDegrees(tbl, s, m)(x) + InDegrees(tbl, s, m)(x) {
      RecordCounts(tbl, s, x, m);
    }
    SumAdd(s, OutDegrees(tbl, s, m), InDegrees(tbl, s, m), Counters(tbl, s, m));
    forall y | y in s ensures InDegrees(tbl, s, m)(y) == Sum(s, Column(g, y)) {
      SumExt(s, InTerm(tbl, y, m), Column(g, y));
    }
    SumSwap(s, s, g, OutDegrees(tbl, s, m), InDegrees(tbl, s, m));
  }

  /** Only which names are members matters to a record. */
  lemma RecordPermutation(tbl: map<Name, Node>, s: seq<Name>, t: seq<Name>, x: Name)
    requires multiset(s) == multiset(t)
    ensures RecordOf(tbl, s, x) == RecordOf(tbl, t, x)
  {
    forall f ensures f in s <==> f in t {
      assert f in s <==> f in multiset(s);
      assert f in t <==> f in multiset(t);
    }
    forall mm ensures mm in ModesIn(tbl, s) <==> mm in ModesIn(tbl, t) {
    }
    forall mm ensures Degree(tbl, s, x, mm) == Degree(tbl, t, x, mm) {
      SumPermutation(s, t, OutTerm(tbl, x, mm));
      SumPermutation(s, t, InTerm(tbl, x, mm));
    }
  }

  /** The signature depends on the members only, not on their order. */
  lemma SignaturePermutation(tbl: map<Name, Node>, s: seq<Name>, t: seq<Name>)
    requires multiset(s) == multiset(t)
    ensures SignatureOf(tbl, s) == SignatureOf(tbl, t)
  {
    forall x ensures x in s <==> x in t {
      assert x in s <==> x in multiset(s);
      assert x in t <==> x in multiset(t);
    }
    forall x ensures RecordOf(tbl, s, x) == RecordOf(tbl, t, x) {
      RecordPermutation(tbl, s, t, x);
    }
  }

  /** `s'` in `tbl'` is a relabelling of `s` in `tbl`: the i-th members
      correspond, and every ordered pair of members has the same edges of
      every mode on both sides. */
  ghost predicate Isomorphic(tbl: map<Name, Node>, s: seq<Name>, tbl': map<Name, Node>, s': seq<Name>) {
    && |s| == |s'|
    && forall i, j, m :: 0 <= i < |s| && 0 <= j < |s| ==> Edge(tbl', s'[i], s'[j], m) == Edge(tbl, s[i], s[j], m)
  }

  /** Corresponding members have the same degree in every mode. */
  lemma IsomorphicDegree(tbl: map<Name, Node>, s: seq<Name>, tbl': map<Name, Node>, s': seq<Name>, i: nat, m: Mode)
    requires Isomorphic(tbl, s, tbl', s') && i < |s|
    ensures Degree(tbl', s', s'[i], m) == Degree(tbl, s, s[i], m)
  {
    forall j | 0 <= j < |s'| ensures OutTerm(tbl', s'[i], m)(s'[j]) == OutTerm(tbl, s[i], m)(s[j]) {
      assert Edge(tbl', s'[i], s'[j], m) == Edge(tbl, s[i], s[j], m);
    }
    SumMatched(s', s, OutTerm(tbl', s'[i], m), OutTerm(tbl, s[i], m));
    forall j | 0 <= j < |s'| ensures InTerm(tbl', s'[i], m)(s'[j]) == InTerm(tbl, s[i], m)(s[j]) {
      assert Edge(tbl', s'[j], s'[i], m) == Edge(tbl, s[j], s[i], m);
    }
    SumMatched(s', s, InTerm(tbl', s'[i], m), InTerm(tbl, s[i], m));
  }

  /** Corresponding members have the same record. */
  lemma IsomorphicRecord(tbl: map<Name, Node>, s: seq<Name>, tbl': map<Name, Node>, s': seq<Name>, i: nat)
    requires Isomorphic(tbl, s, tbl', s') && i < |s|
    ensures RecordOf(tbl', s', s'[i]) == RecordOf(tbl, s, s[i])
  {
    var r := RecordOf(tbl, s, s[i]);
    forall m ensures Get(r, m) == Degree(tbl', s', s'[i], m) {
      RecordCounts(tbl, s, s[i], m);
      IsomorphicDegree(tbl, s, tbl', s', i, m);
    }
    RecordFromCounters(tbl', s', s'[i], r);
  }

  /** Isomorphic graphlets share a signature: relabelling the members, in
      the same graph or another, leaves the signature unchanged. */
  lemma IsomorphicSignature(tbl: map<Name, Node>, s: seq<Name>, tbl': map<Name, Node>, s': seq<Name>)
    requires Isomorphic(tbl, s, tbl', s')
    ensures SignatureOf(tbl', s') == SignatureOf(tbl, s)
  {
    forall r | r in SignatureOf(tbl', s') ensures r in SignatureOf(tbl, s) {
      var x :| x in s' && r == RecordOf(tbl', s', x);
      var i :| 0 <= i < |s'| && s'[i] == x;
      IsomorphicRecord(tbl, s, tbl', s', i);
    }
    forall r | r in SignatureOf(tbl, s) ensures r in SignatureOf(tbl', s') {
      var x :| x in s && r == RecordOf(tbl, s, x);
      var i :| 0 <= i < |s| && s[i] == x;
      IsomorphicRecord(tbl, s, tbl', s', i);
    }
  }

  /** A one-member graphlet with a self-loop: its counter is 2. */
  lemma SelfLoopCountsTwice()
    ensures SignatureOf(map["a" := Node("a", map["x" := ["a"]], ["a"])], ["a"]) == {map["x" := 2]}
  {
    var tbl := map["a" := Node("a", map["x" := ["a"]], ["a"])];
    assert Edge(tbl, "a", "a", "x") == 1;
    assert Degree(tbl, ["a"], "a", "x") == 2;
    assert ModesIn(tbl, ["a"]) == {"x"};
    assert RecordOf(tbl, ["a"], "a") == map["x" := 2];
  }

  /** The signature is a set: two members with equal records count once, so
      a two-member graphlet can have a one-record signature. */
  lemma EqualRecordsCollapse()
    ensures SignatureOf(PairTable(), ["a", "b"]) == {map["x" := 1]}
  {
    PairRecords();
  }

  lemma PairModes()
    ensures ModesIn(PairTable(), ["a", "b"]) == {"x"}
  {
    var tbl, s := PairTable(), ["a", "b"];
    forall mm | mm in ModesIn(tbl, s) ensures mm == "x" {
      var f :| f in s && f in tbl && mm in tbl[f].edges;
    }
    assert "a" in s && "x" in tbl["a"].edges;
  }

  lemma PairDegrees()
    ensures Degree(PairTable(), ["a", "b"], "a", "x") == 1
    ensures Degree(PairTable(), ["a", "b"], "b", "x") == 1
  {
    var tbl, s := PairTable(), ["a", "b"];
    assert Edge(tbl, "a", "a", "x") == 0 && Edge(tbl, "a", "b", "x") == 1;
    assert Edge(tbl, "b", "a", "x") == 0 && Edge(tbl, "b", "b", "x") == 0;
    assert s[1..] == ["b"] && s[1..][1..] == [];
  }

  lemma PairRecords()
    ensures RecordOf(PairTable(), ["a", "b"], "a") == map["x" := 1]
    ensures RecordOf(PairTable(), ["a", "b"], "b") == map["x" := 1]
  {
    PairDegrees();
    PairModes();
    SingleModeRecord(PairTable(), ["a", "b"], "a", "x");
    SingleModeRecord(PairTable(), ["a", "b"], "b", "x");
  }

  /** Members of a graphlet with a single mode have one-counter records. */
  lemma SingleModeRecord(tbl: map<Name, Node>, s: seq<Name>, x: Name, mode: Mode)
    requires ModesIn(tbl, s) == {mode} && Degree(tbl, s, x, mode) > 0
    ensures RecordOf(tbl, s, x) == map[mode := Degree(tbl, s, x, mode)]
  {
    assert RecordOf(tbl, s, x).Keys == {mode};
  }

  /** Two members with edges a -> b and b -> a of mode "x". */
  function SwapTable(): map<Name, Node> {
    map["a" := Node("a", map["x" := ["b"]], ["b"]), "b" := Node("b", map["x" := ["a"]], ["a"])]
  }

  /** Two members, each with a self-loop of mode "x". */
  function LoopTable(): map<Name, Node> {
    map["a" := Node("a", map["x" := ["a"]], ["a"]), "b" := Node("b", map["x" := ["b"]], ["b"])]
  }

  /** The degree of `x` in the two-member graphlet a, b. */
  lemma TwoMemberDegree(tbl: map<Name, Node>, x: Name, m: Mode)
    ensures Degree(tbl, ["a", "b"], x, m)
      == Edge(tbl, x, "a", m) + Edge(tbl, x, "b", m) + Edge(tbl, "a", x, m) + Edge(tbl, "b", x, m)
  {
    var s: seq<Name> := ["a", "b"];
    assert s[1..] == ["b"] && s[1..][1..] == [];
  }

  /** Two members whose directed maps both have the single mode "x", each
      with counter 2, have the signature {{x: 2}}. */
  lemma TwoMemberSignature(tbl: map<Name, Node>)
    requires "a" in tbl && "b" in tbl && tbl["a"].edges.Keys == {"x"} && tbl["b"].edges.Keys == {"x"}
    requires Degree(tbl, ["a", "b"], "a", "x") == 2 && Degree(tbl, ["a", "b"], "b", "x") == 2
    ensures SignatureOf(tbl, ["a", "b"]) == {map["x" := 2]}
  {
    var s: seq<Name> := ["a", "b"];
    forall mm | mm in ModesIn(tbl, s) ensures mm == "x" {
      var f :| f in s && f in tbl && mm in tbl[f].edges;
    }
    assert "x" in tbl["a"].edges;
    SingleModeRecord(tbl, s, "a", "x");
    SingleModeRecord(tbl, s, "b", "x");
  }

  lemma SwapDegrees()
    ensures Degree(SwapTable(), ["a", "b"], "a", "x") == 2 && Degree(SwapTable(), ["a", "b"], "b", "x") == 2
  {
    var tbl := SwapTable();
    assert Edge(tbl, "a", "a", "x") == 0 && Edge(tbl, "a", "b", "x") == 1;
    assert Edge(tbl, "b", "a", "x") == 1 && Edge(tbl, "b", "b", "x") == 0;
    TwoMemberDegree(tbl, "a", "x");
    TwoMemberDegree(tbl, "b", "x");
  }

  lemma SwapRecords()
    ensures SignatureOf(SwapTable(), ["a", "b"]) == {map["x" := 2]}
  {
    SwapDegrees();
    TwoMemberSignature(SwapTable());
  }

  lemma LoopDegrees()
    ensures Degree(LoopTable(), ["a", "b"], "a", "x") == 2 && Degree(LoopTable(), ["a", "b"], "b", "x") == 2
  {
    var tbl := LoopTable();
    assert Edge(tbl, "a", "a", "x") == 1 && Edge(tbl, "a", "b", "x") == 0;
    assert Edge(tbl, "b", "a", "x") == 0 && Edge(tbl, "b", "b", "x") == 1;
    TwoMemberDegree(tbl, "a", "x");
    TwoMemberDegree(tbl, "b", "x");
  }

  lemma LoopRecords()
    ensures SignatureOf(LoopTable(), ["a", "b"]) == {map["x" := 2]}
  {
    LoopDegrees();
    TwoMemberSignature(LoopTable());
  }

  /** The converse of `IsomorphicSignature` fails: a 2-cycle and two
      self-loops share a signature, yet no ordering of the self-loop
      members matches the 2-cycle, whose members have no self-loop. */
  lemma SignatureCollision()
    ensures SignatureOf(SwapTable(), ["a", "b"]) == SignatureOf(LoopTable(), ["a", "b"])
    ensures forall s' :: |s'| == 2 && s'[0] in {"a", "b"} ==> !Isomorphic(SwapTable(), ["a", "b"], LoopTable(), s')
  {
    SwapRecords();
    LoopRecords();
    forall s' | |s'| == 2 && s'[0] in {"a", "b"} ensures !Isomorphic(SwapTable(), ["a", "b"], LoopTable(), s') {
      LoopNotSwap(s');
    }
  }

  /** Whichever member comes first, it has a self-loop, and "a" in the
      2-cycle has none. */
  lemma LoopNotSwap(s': seq<Name>)
    requires |s'| == 2 && s'[0] in {"a", "b"}
    ensures !Isomorphic(SwapTable(), ["a", "b"], LoopTable(), s')
  {
    assert Edge(LoopTable(), s'[0], s'[0], "x") == 1;
    assert Edge(SwapTable(), "a", "a", "x") == 0;
  }

  /** Two members and one edge a -> b of mode "x". */
  function PairTable(): map<Name, Node> {
    map["a" := Node("a", map["x" := ["b"]], ["b"]), "b" := Node("b", map[], ["a"])]
  }
}
