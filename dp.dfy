/** `DPGraphletCounter` (algorithm/dp_graphlet_counter.py): groups of names
    grown one size at a time, from one singleton per name in sorted order,
    by attaching an undirected neighbour of a member whose name sorts after
    the group's last name; the groups of the final size are saved. */
module DpCounter {
  import opened Util
  import opened GraphStore
  import opened Signature
  import opened Counts
  import opened Exhaustive

  /** `x` placed before the first name of `s` it sorts before. */
  function InsertName(s: seq<Name>, x: Name): seq<Name> {
    if s == [] then [x]
    else if StrLess(s[0], x) then [s[0]] + InsertName(s[1..], x)
    else [x] + s
  }

  /** Python's `sorted` on a list of names: the names inserted one by one. */
  function SortNames(s: seq<Name>): seq<Name>
    decreases |s|
  {
    if s == [] then [] else InsertName(SortNames(s[..|s| - 1]), s[|s| - 1])
  }

  /** Every name sorts strictly before every later one. */
  predicate Increasing(g: seq<Name>) {
    forall i, j :: 0 <= i < j < |g| ==> StrLess(g[i], g[j])
  }

  lemma {:induction false} InsertNamePermutation(s: seq<Name>, x: Name)
    ensures multiset(InsertName(s, x)) == multiset(s) + multiset{x}
  {
    if s != [] && StrLess(s[0], x) {
      InsertNamePermutation(s[1..], x);
      assert s == [s[0]] + s[1..];
    }
  }

  lemma {:induction false} InsertNameIncreasing(s: seq<Name>, x: Name)
    requires Increasing(s) && x !in s
    ensures Increasing(InsertName(s, x))
  {
    if s != [] && StrLess(s[0], x) {
      InsertNameIncreasing(s[1..], x);
      InsertNamePermutation(s[1..], x);
      InsertAfterHead(s, x);
    } else if s != [] {
      InsertBeforeHead(s, x);
    }
  }

  /** `x` goes after the first name: the first name stays before all the rest. */
  lemma InsertAfterHead(s: seq<Name>, x: Name)
    requires Increasing(s) && s != [] && StrLess(s[0], x)
    requires Increasing(InsertName(s[1..], x))
    requires multiset(InsertName(s[1..], x)) == multiset(s[1..]) + multiset{x}
    ensures Increasing(InsertName(s, x))
  {
    var tail := InsertName(s[1..], x);
    forall j | 0 <= j < |tail| ensures StrLess(s[0], tail[j]) {
      assert tail[j] in multiset(tail);
      if tail[j] != x {
        assert tail[j] in multiset(s[1..]);
        var k :| 0 <= k < |s[1..]| && s[1..][k] == tail[j];
        assert s[k + 1] == tail[j];
      }
    }
    assert InsertName(s, x) == [s[0]] + tail;
  }

  /** `x` goes first: it sorts before every name of `s`. */
  lemma InsertBeforeHead(s: seq<Name>, x: Name)
    requires Increasing(s) && x !in s && s != [] && !StrLess(s[0], x)
    ensures Increasing(InsertName(s, x))
  {
    StrLessTotal(x, s[0]);
    forall j | 0 <= j < |s| ensures StrLess(x, s[j]) {
      if j > 0 {
        StrLessTransitive(x, s[0], s[j]);
      }
    }
    assert InsertName(s, x) == [x] + s;
  }

  /** The sorted names are the same names. */
  lemma {:induction false} SortNamesPermutation(s: seq<Name>)
    ensures multiset(SortNames(s)) == multiset(s)
    decreases |s|
  {
    if s != [] {
      SortNamesPermutation(s[..|s| - 1]);
      InsertNamePermutation(SortNames(s[..|s| - 1]), s[|s| - 1]);
      assert s == s[..|s| - 1] + [s[|s| - 1]];
    }
  }

  /** Distinct names come out strictly increasing. */
  lemma {:induction false} SortNamesIncreasing(s: seq<Name>)
    requires NoDup(s)
    ensures Increasing(SortNames(s))
    decreases |s|
  {
    if s != [] {
      var init := s[..|s| - 1];
      SortNamesIncreasing(init);
      SortNamesPermutation(init);
      assert s[|s| - 1] !in init;
      assert s[|s| - 1] !in multiset(SortNames(init));
      InsertNameIncreasing(SortNames(init), s[|s| - 1]);
    }
  }

  /** A strictly increasing list repeats no name. */
  lemma IncreasingNoDup(g: seq<Name>)
    requires Increasing(g)
    ensures NoDup(g)
  {
    forall i, j | 0 <= i < j < |g| ensures g[i] != g[j] {
      StrLessIrreflexive(g[i]);
    }
  }

  /** The names the inner loops visit for a group whose members are `xs`:
      the undirected neighbours of each member in turn. */
  function Candidates(tbl: map<Name, Node>, xs: seq<Name>): seq<Name>
    decreases |xs|
  {
    if xs == [] then [] else Candidates(tbl, xs[..|xs| - 1]) + Neighbors(tbl, xs[|xs| - 1])
  }

  /** `n` may extend `group` once `taken` are taken: it is not in the group,
      not taken, and sorts after the group's last name. */
  predicate Admits(group: seq<Name>, taken: seq<Name>, n: Name) {
    n !in group && n !in taken && group != [] && StrLess(group[|group| - 1], n)
  }

  /** The names that extend `group` when `cands` are visited in order. */
  function Picks(group: seq<Name>, cands: seq<Name>): seq<Name>
    decreases |cands|
  {
    if cands == [] then []
    else
      var taken := Picks(group, cands[..|cands| - 1]);
      if Admits(group, taken, cands[|cands| - 1]) then taken + [cands[|cands| - 1]] else taken
  }

  /** `group` extended by each of `ps`. */
  function Extend(group: seq<Name>, ps: seq<Name>): seq<seq<Name>> {
    seq(|ps|, i requires 0 <= i < |ps| => group + [ps[i]])
  }

  /** The groups one larger that `group` yields. */
  function Children(tbl: map<Name, Node>, group: seq<Name>): seq<seq<Name>> {
    Extend(group, Picks(group, Candidates(tbl, group)))
  }

  /** `get_node_groups_of_size_n`: the children of every group, parent by
      parent. */
  function NextLevel(tbl: map<Name, Node>, groups: seq<seq<Name>>): seq<seq<Name>>
    decreases |groups|
  {
    if groups == [] then []
    else NextLevel(tbl, groups[..|groups| - 1]) + Children(tbl, groups[|groups| - 1])
  }

  /** `groups` grown `steps` times. */
  function Expanded(tbl: map<Name, Node>, groups: seq<seq<Name>>, steps: nat): seq<seq<Name>> {
    if steps == 0 then groups else NextLevel(tbl, Expanded(tbl, groups, steps - 1))
  }

  /** Number of growth steps for `graphlet_size`: one per size from 2 up. */
  function Steps(size: int): nat {
    if size >= 2 then size - 1 else 0
  }

  /** The groups `count_graphlets` saves for names `order`. */
  function Ladder(tbl: map<Name, Node>, order: seq<Name>, size: int): seq<seq<Name>> {
    Expanded(tbl, Singletons(SortNames(order)), Steps(size))
  }

  /** One more candidate visited. */
  lemma PicksSnoc(group: seq<Name>, cands: seq<Name>, n: Name)
    ensures Picks(group, cands + [n]) ==
      if Admits(group, Picks(group, cands), n) then Picks(group, cands) + [n] else Picks(group, cands)
  {
    assert (cands + [n])[..|cands|] == cands;
  }

  /** One more member's neighbours visited. */
  lemma CandidatesSnoc(tbl: map<Name, Node>, group: seq<Name>, t: nat)
    requires t < |group|
    ensures Candidates(tbl, group[..t + 1]) == Candidates(tbl, group[..t]) + Neighbors(tbl, group[t])
  {
    assert group[..t + 1][..t] == group[..t];
  }

  /** One more neighbour of the current member visited. */
  lemma VisitNext(seen: seq<Name>, neighbors: seq<Name>, k: nat)
    requires k < |neighbors|
    ensures seen + neighbors[..k + 1] == (seen + neighbors[..k]) + [neighbors[k]]
  {
    assert neighbors[..k + 1] == neighbors[..k] + [neighbors[k]];
  }

  lemma ExtendSnoc(group: seq<Name>, ps: seq<Name>, n: Name)
    ensures Extend(group, ps + [n]) == Extend(group, ps) + [group + [n]]
  {
  }

  /** The picks: distinct candidates, none in the group, each after the
      group's last name. */
  lemma {:induction false} PicksSound(group: seq<Name>, cands: seq<Name>)
    ensures NoDup(Picks(group, cands))
    ensures forall n :: n in Picks(group, cands) ==> n in cands && n !in group && group != [] && StrLess(group[|group| - 1], n)
    decreases |cands|
  {
    if cands != [] {
      var init := cands[..|cands| - 1];
      PicksSound(group, init);
      forall n | n in init ensures n in cands {
        var k :| 0 <= k < |init| && init[k] == n;
        assert cands[k] == n;
      }
    }
  }

  /** Every candidate is an undirected neighbour of one of the members. */
  lemma {:induction false} CandidatesAdjacent(tbl: map<Name, Node>, xs: seq<Name>, n: Name)
    requires n in Candidates(tbl, xs)
    ensures exists i :: 0 <= i < |xs| && Adjacent(tbl, xs[i], n)
    decreases |xs|
  {
    var init := xs[..|xs| - 1];
    if n in Candidates(tbl, init) {
      CandidatesAdjacent(tbl, init, n);
      var i :| 0 <= i < |init| && Adjacent(tbl, init[i], n);
      assert xs[i] == init[i];
    } else {
      assert Adjacent(tbl, xs[|xs| - 1], n);
    }
  }

  /** What a parent yields: one child per distinct picked name, the parent
      with that name appended; the name is an undirected neighbour of a
      member, is not in the parent, and sorts after its last name. */
  lemma ChildrenShape(tbl: map<Name, Node>, group: seq<Name>, j: nat)
    requires j < |Children(tbl, group)|
    ensures var ps := Picks(group, Candidates(tbl, group));
      && NoDup(ps) && |Children(tbl, group)| == |ps|
      && Children(tbl, group)[j] == group + [ps[j]]
      && ps[j] !in group && StrLess(group[|group| - 1], ps[j])
      && exists i :: 0 <= i < |group| && Adjacent(tbl, group[i], ps[j])
  {
    var ps := Picks(group, Candidates(tbl, group));
    PicksSound(group, Candidates(tbl, group));
    assert ps[j] in ps;
    CandidatesAdjacent(tbl, group, ps[j]);
  }

  /** Every member after the first is adjacent to an earlier member: the
      group induces a connected subgraph. */
  ghost predicate Connected(tbl: map<Name, Node>, g: seq<Name>) {
    forall j :: 1 <= j < |g| ==> AttachedAt(tbl, g, j)
  }

  /** The member at position `j` is adjacent to an earlier member. */
  ghost predicate AttachedAt(tbl: map<Name, Node>, g: seq<Name>, j: nat)
    requires j < |g|
  {
    exists i :: 0 <= i < j && Adjacent(tbl, g[i], g[j])
  }

  /** The shape of every group at level `k`: `k` registered names, strictly
      increasing, connected. */
  ghost predicate Shaped(tbl: map<Name, Node>, g: seq<Name>, k: nat) {
    && |g| == k && Increasing(g) && Connected(tbl, g)
    && forall x :: x in g ==> x in tbl
  }

  /** Appending a name that sorts after the last keeps a list increasing. */
  lemma AppendIncreasing(g: seq<Name>, n: Name)
    requires Increasing(g) && g != [] && StrLess(g[|g| - 1], n)
    ensures Increasing(g + [n])
  {
    var c := g + [n];
    forall a, b | 0 <= a < b < |c| ensures StrLess(c[a], c[b]) {
      if b == |g| && a < |g| - 1 {
        StrLessTransitive(c[a], g[|g| - 1], n);
      }
    }
  }

  /** Appending a neighbour of a member keeps a group connected. */
  lemma AppendConnected(tbl: map<Name, Node>, g: seq<Name>, n: Name, i: nat)
    requires Connected(tbl, g) && i < |g| && Adjacent(tbl, g[i], n)
    ensures Connected(tbl, g + [n])
  {
    var c := g + [n];
    forall b | 1 <= b < |c| ensures AttachedAt(tbl, c, b) {
      if b == |g| {
        assert c[i] == g[i] && c[b] == n;
      } else {
        assert AttachedAt(tbl, g, b);
        var a :| 0 <= a < b && Adjacent(tbl, g[a], g[b]);
        assert c[a] == g[a] && c[b] == g[b];
      }
    }
  }

  /** A picked name is registered. */
  lemma PickRegistered(tbl: map<Name, Node>, group: seq<Name>, n: Name)
    requires WellFormed(tbl) && n in Picks(group, Candidates(tbl, group))
    ensures n in tbl
  {
    PicksSound(group, Candidates(tbl, group));
    CandidatesAdjacent(tbl, group, n);
  }

  /** A child of a shaped group is shaped one size up. */
  lemma ChildShaped(tbl: map<Name, Node>, group: seq<Name>, k: nat, n: Name)
    requires Shaped(tbl, group, k) && n in tbl && n in Picks(group, Candidates(tbl, group))
    ensures Shaped(tbl, group + [n], k + 1)
  {
    PicksSound(group, Candidates(tbl, group));
    CandidatesAdjacent(tbl, group, n);
    var i :| 0 <= i < |group| && Adjacent(tbl, group[i], n);
    AppendIncreasing(group, n);
    AppendConnected(tbl, group, n, i);
  }

  /** A child of `group` is `group` with one name appended. */
  lemma ChildParent(tbl: map<Name, Node>, group: seq<Name>, c: seq<Name>)
    ensures c in Children(tbl, group) ==> c != [] && c[..|c| - 1] == group
  {
    if c in Children(tbl, group) {
      var j :| 0 <= j < |Children(tbl, group)| && Children(tbl, group)[j] == c;
      assert c == group + [Picks(group, Candidates(tbl, group))[j]];
    }
  }

  /** Every group of a level is one of its parents with one name appended. */
  lemma {:induction false} NextLevelParents(tbl: map<Name, Node>, groups: seq<seq<Name>>, c: seq<Name>)
    requires c in NextLevel(tbl, groups)
    ensures c != [] && c[..|c| - 1] in groups
    decreases |groups|
  {
    var init := groups[..|groups| - 1];
    var last := groups[|groups| - 1];
    if c in NextLevel(tbl, init) {
      NextLevelParents(tbl, init, c);
      var k :| 0 <= k < |init| && init[k] == c[..|c| - 1];
      assert groups[k] == init[k];
    } else {
      var j :| 0 <= j < |Children(tbl, last)| && Children(tbl, last)[j] == c;
      ChildrenShape(tbl, last, j);
      assert c[..|c| - 1] == last;
    }
  }

  /** Growing shaped groups of size `k` gives shaped groups of size `k + 1`. */
  lemma {:induction false} NextLevelShaped(tbl: map<Name, Node>, groups: seq<seq<Name>>, k: nat)
    requires WellFormed(tbl) && forall g :: g in groups ==> Shaped(tbl, g, k)
    ensures forall c :: c in NextLevel(tbl, groups) ==> Shaped(tbl, c, k + 1)
    decreases |groups|
  {
    if groups != [] {
      var init := groups[..|groups| - 1];
      var last := groups[|groups| - 1];
      NextLevelShaped(tbl, init, k);
      forall c | c in Children(tbl, last) ensures Shaped(tbl, c, k + 1) {
        var ps := Picks(last, Candidates(tbl, last));
        var j :| 0 <= j < |ps| && Children(tbl, last)[j] == c;
        assert c == last + [ps[j]] && ps[j] in ps;
        PickRegistered(tbl, last, ps[j]);
        ChildShaped(tbl, last, k, ps[j]);
      }
    }
  }

  /** No group appears twice in a level grown from distinct groups. */
  lemma {:induction false} NextLevelNoDup(tbl: map<Name, Node>, groups: seq<seq<Name>>)
    requires NoDup(groups)
    ensures NoDup(NextLevel(tbl, groups))
    decreases |groups|
  {
    if groups != [] {
      var init := groups[..|groups| - 1];
      var last := groups[|groups| - 1];
      var kids := Children(tbl, last);
      NextLevelNoDup(tbl, init);
      forall a, b | 0 <= a < b < |kids| ensures kids[a] != kids[b] {
        ChildrenShape(tbl, last, a);
        ChildrenShape(tbl, last, b);
        var ps := Picks(group := last, cands := Candidates(tbl, last));
        assert kids[a][|last|] == ps[a] && kids[b][|last|] == ps[b];
      }
      assert last !in init;
      forall c | c in NextLevel(tbl, init) ensures c !in kids {
        NextLevelParents(tbl, init, c);
        ChildParent(tbl, last, c);
      }
      NoDupConcat(NextLevel(tbl, init), kids);
    }
  }

  /** The level reached after `steps` growth steps from the singletons of
      the sorted names: no group twice, and every group `steps + 1`
      registered names, strictly increasing and connected. */
  lemma {:induction false} LevelShape(tbl: map<Name, Node>, order: seq<Name>, steps: nat)
    requires WellFormed(tbl) && NoDup(order) && forall x :: x in order ==> x in tbl
    ensures NoDup(Expanded(tbl, Singletons(SortNames(order)), steps))
    ensures forall g :: g in Expanded(tbl, Singletons(SortNames(order)), steps) ==> Shaped(tbl, g, steps + 1)
    decreases steps
  {
    var names := SortNames(order);
    if steps == 0 {
      SortNamesIncreasing(order);
      SortNamesPermutation(order);
      IncreasingNoDup(names);
      forall g | g in Singletons(names) ensures Shaped(tbl, g, 1) {
        var i :| 0 <= i < |names| && Singletons(names)[i] == g;
        assert names[i] in multiset(order);
      }
      forall a, b | 0 <= a < b < |names| ensures Singletons(names)[a] != Singletons(names)[b] {
        assert Singletons(names)[a][0] == names[a];
      }
    } else {
      LevelShape(tbl, order, steps - 1);
      NextLevelShaped(tbl, Expanded(tbl, Singletons(names), steps - 1), steps);
      NextLevelNoDup(tbl, Expanded(tbl, Singletons(names), steps - 1));
    }
  }

  /** What `count_graphlets` saves: no group twice, and every group
      `graphlet_size` registered names (a single name when that is below
      2), strictly increasing and connected. */
  lemma LadderShape(tbl: map<Name, Node>, order: seq<Name>, size: int)
    requires WellFormed(tbl) && NoDup(order) && forall x :: x in order ==> x in tbl
    ensures NoDup(Ladder(tbl, order, size))
    ensures forall g :: g in Ladder(tbl, order, size) ==> Shaped(tbl, g, if size >= 2 then size else 1)
  {
    LevelShape(tbl, order, Steps(size));
  }

  /** Every name of every group is registered. */
  ghost predicate AllRegistered(tbl: map<Name, Node>, groups: seq<seq<Name>>) {
    forall g, x :: g in groups && x in g ==> x in tbl
  }

  /** Every name of every group of a level is registered. */
  lemma LevelRegistered(tbl: map<Name, Node>, order: seq<Name>, steps: nat)
    requires WellFormed(tbl) && NoDup(order) && forall x :: x in order ==> x in tbl
    ensures AllRegistered(tbl, Expanded(tbl, Singletons(SortNames(order)), steps))
  {
    LevelShape(tbl, order, steps);
  }

  /** Every group of a level is a duplicate-free list of registered names. */
  lemma LevelAllMembers(tbl: map<Name, Node>, order: seq<Name>, steps: nat)
    requires WellFormed(tbl) && NoDup(order) && forall x :: x in order ==> x in tbl
    ensures forall g :: g in Expanded(tbl, Singletons(SortNames(order)), steps) ==> Members(tbl, g)
  {
    LevelShape(tbl, order, steps);
    forall g | g in Expanded(tbl, Singletons(SortNames(order)), steps) ensures Members(tbl, g) {
      IncreasingNoDup(g);
    }
  }

  /** The path a - c - b: edges a -> c and c -> b of mode "x". */
  function PathTable(): map<Name, Node> {
    map["a" := Node("a", map["x" := ["c"]], ["c"]),
        "c" := Node("c", map["x" := ["b"]], ["a", "b"]),
        "b" := Node("b", map[], ["c"])]
  }

  lemma PathSorted()
    ensures SortNames(["a", "c", "b"]) == ["a", "b", "c"]
  {
    assert StrLess("a", "b") && StrLess("b", "c") && StrLess("a", "c");
    assert ["a", "c", "b"][..2] == ["a", "c"] && ["a", "c"][..1] == ["a"] && ["a"][..0] == [];
    assert SortNames(["a"]) == ["a"];
    assert InsertName(["c"], "b") == ["b", "c"];
    assert InsertName(["a", "c"], "b") == ["a", "b", "c"];
  }

  /** A one-member group whose only neighbour sorts after it. */
  lemma PathChildrenUp(g: Name)
    requires g == "a" || g == "b"
    ensures Children(PathTable(), [g]) == [[g, "c"]]
  {
    var tbl := PathTable();
    assert [g][..0] == [] && ["c"][..0] == [];
    assert Candidates(tbl, [g]) == ["c"];
    assert StrLess(g, "c");
    assert Picks([g], ["c"]) == ["c"];
    assert Extend([g], ["c"])[0] == [g, "c"];
  }

  lemma PathChildrenTop()
    ensures Children(PathTable(), ["c"]) == []
  {
    var tbl := PathTable();
    assert ["c"][..0] == [] && ["a", "b"][..1] == ["a"] && ["a"][..0] == [];
    assert Candidates(tbl, ["c"]) == ["a", "b"];
    assert !StrLess("c", "a") && !StrLess("c", "b");
    assert Picks(["c"], ["a"]) == [];
  }

  /** No candidate extends a two-member group ending in c: each is in the
      group or sorts before c. */
  lemma PathPicksPair(g: Name)
    requires g == "a" || g == "b"
    ensures Picks([g, "c"], ["c", "a", "b"]) == []
  {
    var cs := ["c", "a", "b"];
    assert !StrLess("c", "a") && !StrLess("c", "b");
    assert cs[..2] == ["c", "a"] && cs[..2][..1] == ["c"] && ["c"][..0] == [];
    assert Picks([g, "c"], ["c"]) == [];
    assert Picks([g, "c"], ["c", "a"]) == [];
  }

  lemma PathChildrenPair(g: Name)
    requires g == "a" || g == "b"
    ensures Children(PathTable(), [g, "c"]) == []
  {
    var tbl := PathTable();
    assert [g][..0] == [] && [g, "c"][..1] == [g];
    assert Candidates(tbl, [g]) == ["c"];
    assert Candidates(tbl, [g, "c"]) == ["c", "a", "b"];
    PathPicksPair(g);
  }

  lemma PathLevel2()
    ensures NextLevel(PathTable(), [["a"], ["b"], ["c"]]) == [["a", "c"], ["b", "c"]]
  {
    var level1 := [["a"], ["b"], ["c"]];
    PathChildrenUp("a");
    PathChildrenUp("b");
    PathChildrenTop();
    assert [["a"]][..0] == [] && NextLevel(PathTable(), [["a"]]) == [["a", "c"]];
    assert [["a"], ["b"]][..1] == [["a"]];
    assert NextLevel(PathTable(), [["a"], ["b"]]) == [["a", "c"], ["b", "c"]];
    assert level1[..2] == [["a"], ["b"]];
  }

  lemma PathLevel3()
    ensures NextLevel(PathTable(), [["a", "c"], ["b", "c"]]) == []
  {
    var level2 := [["a", "c"], ["b", "c"]];
    PathChildrenPair("a");
    PathChildrenPair("b");
    assert level2[..1] == [["a", "c"]] && [["a", "c"]][..0] == [];
  }

  /** The names a, c, b in path order induce a connected subgraph. */
  lemma PathConnected()
    ensures Connected(PathTable(), ["a", "c", "b"])
  {
    var tbl := PathTable();
    var g := ["a", "c", "b"];
    assert tbl["a"].undirected == ["c"] && tbl["c"].undirected == ["a", "b"];
    assert Adjacent(tbl, g[0], g[1]) && Adjacent(tbl, g[1], g[2]);
    assert AttachedAt(tbl, g, 1) && AttachedAt(tbl, g, 2);
  }

  /** A group grows only by a name that sorts after its last one, so a
      connected group whose middle name sorts last is never built: on the
      path a - c - b the names a, b, c induce a connected subgraph, yet no
      group of size 3 is saved. */
  lemma LadderMissesPath()
    ensures Connected(PathTable(), ["a", "c", "b"])
    ensures Ladder(PathTable(), ["a", "c", "b"], 3) == []
  {
    var tbl := PathTable();
    PathConnected();
    PathSorted();
    var level1 := Singletons(["a", "b", "c"]);
    assert level1 == [["a"], ["b"], ["c"]];
    PathLevel2();
    PathLevel3();
    assert Expanded(tbl, level1, 1) == NextLevel(tbl, level1);
    assert Ladder(tbl, ["a", "c", "b"], 3) == NextLevel(tbl, Expanded(tbl, level1, 1));
  }

  class DPGraphletCounter {
    const graph: Graph
    /** `_graphlet_count_map`. */
    var countMap: CountMap

    ghost predicate Valid()
      reads this, graph
    {
      graph.Valid() && WellKeyed(graph.nodes, countMap)
    }

    constructor (g: Graph)
      requires g.Valid()
      ensures Valid()
      ensures graph == g && countMap == map[]
    {
      graph := g;
      countMap := map[];
    }

    /** `_create_and_save_graphlet`: the graphlet on the group's names,
        appended under its signature. */
    method SaveGraphlet(group: seq<Name>)
      requires Valid() && Members(graph.nodes, group)
      modifies this
      ensures Valid()
      ensures countMap == Saved(old(countMap), graph.nodes, group)
    {
      var sig := ComputeSignature(graph.nodes, group);
      SavedWellKeyed(countMap, graph.nodes, group);
      countMap := countMap[sig := Listed(countMap, sig) + [Graphlet(group)]];
    }

    /** The body of the loop of `get_node_groups_of_size_n` for one group:
        its neighbours member by member, each taken at most once. */
    method GroupChildren(group: seq<Name>) returns (children: seq<seq<Name>>)
      requires graph.Valid() && forall x :: x in group ==> x in graph.nodes
      ensures children == Children(graph.nodes, group)
    {
      ghost var tbl := graph.nodes;
      var nodeSet := set x | x in group;
      var included: set<Name> := {};
      children := [];
      ghost var picks: seq<Name> := [];
      for t := 0 to |group|
        invariant picks == Picks(group, Candidates(tbl, group[..t]))
        invariant forall x :: x in included <==> x in picks
        invariant children == Extend(group, picks)
      {
        var node := graph.GetNode(group[t]);
        var neighbors := node.value.undirected;
        ghost var seen := Candidates(tbl, group[..t]);
        assert seen + neighbors[..0] == seen;
        for k := 0 to |neighbors|
          invariant picks == Picks(group, seen + neighbors[..k])
          invariant forall x :: x in included <==> x in picks
          invariant children == Extend(group, picks)
        {
          var n := neighbors[k];
          VisitNext(seen, neighbors, k);
          PicksSnoc(group, seen + neighbors[..k], n);
          if n !in nodeSet && n !in included {
            if StrLess(group[|group| - 1], n) {
              ExtendSnoc(group, picks, n);
              children := children + [group + [n]];
              picks := picks + [n];
              included := included + {n};
            }
          }
        }
        assert neighbors[..|neighbors|] == neighbors;
        CandidatesSnoc(tbl, group, t);
      }
      assert group[..|group|] == group;
    }

    /** `get_node_groups_of_size_n`: the children of every group, parent by
        parent. */
    method NodeGroupsOfSize(groups: seq<seq<Name>>) returns (next: seq<seq<Name>>)
      requires graph.Valid()
      requires AllRegistered(graph.nodes, groups)
      ensures next == NextLevel(graph.nodes, groups)
    {
      next := [];
      for i := 0 to |groups|
        invariant next == NextLevel(graph.nodes, groups[..i])
      {
        var children := GroupChildren(groups[i]);
        assert groups[..i + 1][..i] == groups[..i];
        next := next + children;
      }
      assert groups[..|groups|] == groups;
    }

    /** The closing loop of `count_graphlets`: one graphlet saved per
        group, in order. */
    method SaveGroups(groups: seq<seq<Name>>)
      requires Valid() && forall g :: g in groups ==> Members(graph.nodes, g)
      modifies this
      ensures Valid()
      ensures countMap == SaveAll(old(countMap), graph.nodes, groups)
    {
      ghost var tbl := graph.nodes;
      ghost var cm0 := countMap;
      for j := 0 to |groups|
        invariant Valid() && graph.nodes == tbl
        invariant countMap == SaveAll(cm0, tbl, groups[..j])
      {
        SaveAllSnoc(cm0, tbl, groups[..j], groups[j]);
        assert groups[..j + 1] == groups[..j] + [groups[j]];
        SaveGraphlet(groups[j]);
      }
      assert groups[..|groups|] == groups;
    }

    /** The loop `for size in range(2, graphlet_size + 1)` of
        `count_graphlets`: the singletons of the sorted names grown one
        level per size. */
    method GrowGroups(size: int) returns (groups: seq<seq<Name>>)
      requires graph.Valid()
      ensures groups == Ladder(graph.nodes, graph.order, size)
    {
      ghost var tbl := graph.nodes;
      var names := SortNames(graph.order);
      groups := Singletons(names);
      for s := 2 to if size + 1 > 2 then size + 1 else 2
        invariant groups == Expanded(tbl, Singletons(names), s - 2)
      {
        LevelRegistered(tbl, graph.order, s - 2);
        groups := NodeGroupsOfSize(groups);
      }
    }

    /** `count_graphlets`: the singletons of the sorted names grown up to
        `graphlet_size`, and one graphlet saved per final group. */
    method CountGraphlets(size: int) returns (result: CountMap)
      requires Valid()
      modifies this
      ensures Valid() && result == countMap
      ensures countMap == SaveAll(old(countMap), graph.nodes, Ladder(graph.nodes, graph.order, size))
      ensures Total(countMap) == Total(old(countMap)) + |Ladder(graph.nodes, graph.order, size)|
    {
      var groups := GrowGroups(size);
      LevelAllMembers(graph.nodes, graph.order, Steps(size));
      SaveGroups(groups);
      SaveAllTotal(old(countMap), graph.nodes, groups);
      result := countMap;
    }
  }
}
