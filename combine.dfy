/** Pairing the paths of one search into graphlets, shared by
    `_perform_path_combination` (algorithm/bfs_graphlet_counter.py) and the
    second half of `bfs_search` (brute_force_graphlet_counter.py). The
    functions below list the pairs in the order the nested loops visit
    them; the methods that save them live with their callers. */
module Combination {
  import opened Util
  import opened GraphStore
  import opened Signature
  import opened Counts
  import opened PathGrowth

  type Pair = (Path, Path)

  /** `p` against each of `qs` in turn, keeping the pairs whose combined
      length is the target. */
  function Row(p: Path, qs: seq<Path>, target: int): seq<Pair>
    decreases |qs|
  {
    if qs == [] then []
    else
      var q := qs[|qs| - 1];
      Row(p, qs[..|qs| - 1], target) + (if Combined(p, q) == target then [(p, q)] else [])
  }

  /** One more partner for `p`. */
  lemma RowSnoc(p: Path, qs: seq<Path>, j: nat, target: int)
    requires j < |qs|
    ensures Row(p, qs[..j + 1], target)
      == Row(p, qs[..j], target) + (if Combined(p, qs[j]) == target then [(p, qs[j])] else [])
  {
    assert qs[..j + 1][..j] == qs[..j];
  }

  /** The pairs `index1 < index2` of one level, for the first `i` values of
      `index1`. */
  function Within(ps: seq<Path>, i: nat, target: int): seq<Pair>
    requires i <= |ps|
  {
    if i == 0 then [] else Within(ps, i - 1, target) + Row(ps[i - 1], ps[i..], target)
  }

  /** The first `i` paths of `ps` against every path of `qs`. */
  function Across(ps: seq<Path>, qs: seq<Path>, i: nat, target: int): seq<Pair>
    requires i <= |ps|
  {
    if i == 0 then [] else Across(ps, qs, i - 1, target) + Row(ps[i - 1], qs, target)
  }

  /** What the level `nc` contributes for one partner level `m`. */
  function Partner(levels: Levels, nc: nat, m: nat, target: int): seq<Pair>
    requires nc in levels
  {
    if m in levels && |levels[m]| > 0 then
      if m == nc then Within(levels[nc], |levels[nc]|, target)
      else Across(levels[nc], levels[m], |levels[nc]|, target)
    else []
  }

  /** The partner levels `nc .. i - 1` of level `nc`. */
  function Partners(levels: Levels, nc: nat, i: int, target: int): seq<Pair>
    requires nc in levels
    decreases i - nc
  {
    if i <= nc then [] else Partners(levels, nc, i - 1, target) + Partner(levels, nc, i - 1, target)
  }

  /** What one entry of the map contributes: nothing for key 1, the target
      key or an empty list, else its partners below the target. */
  function Entry(levels: Levels, nc: nat, target: int): seq<Pair>
    requires nc in levels
  {
    if nc != target && nc != 1 && |levels[nc]| > 0 then Partners(levels, nc, target, target) else []
  }

  /** The first `k` entries in key order. */
  function Entries(levels: Levels, keys: seq<nat>, k: nat, target: int): seq<Pair>
    requires k <= |keys| && forall j :: 0 <= j < |keys| ==> keys[j] in levels
  {
    if k == 0 then [] else Entries(levels, keys, k - 1, target) + Entry(levels, keys[k - 1], target)
  }

  /** The first `i` paths of the target level, each paired with itself. */
  function Diagonal(ps: seq<Path>, i: nat): seq<Pair>
    requires i <= |ps|
  {
    if i == 0 then [] else Diagonal(ps, i - 1) + [(ps[i - 1], ps[i - 1])]
  }

  /** Every pair the combination step saves a graphlet for, in order. */
  function Emitted(levels: Levels, keys: seq<nat>, target: int): seq<Pair>
    requires forall j :: 0 <= j < |keys| ==> keys[j] in levels
  {
    Entries(levels, keys, |keys|, target)
      + (if target in levels then Diagonal(levels[target], |levels[target]|) else [])
  }

  /** The member lists of the graphlets the pairs make. */
  function Unions(pairs: seq<Pair>): seq<seq<Name>>
    decreases |pairs|
  {
    if pairs == [] then [] else Unions(pairs[..|pairs| - 1]) + [Union(pairs[|pairs| - 1].0, pairs[|pairs| - 1].1)]
  }

  lemma {:induction false} UnionsAppend(a: seq<Pair>, b: seq<Pair>)
    ensures Unions(a + b) == Unions(a) + Unions(b)
    decreases |b|
  {
    if b == [] {
      assert a + b == a;
    } else {
      var b' := b[..|b| - 1];
      assert (a + b)[..|a + b| - 1] == a + b';
      UnionsAppend(a, b');
    }
  }

  lemma UnionsLength(pairs: seq<Pair>)
    ensures |Unions(pairs)| == |pairs|
  {
  }

  // ---------------------------------------------------------------------
  // Soundness: what is paired

  /** `p` sits in the level of its own length. */
  ghost predicate InLevels(levels: Levels, p: Path) {
    |p| in levels && p in levels[|p|]
  }

  /** Every path is filed under its own length. */
  ghost predicate Sized(levels: Levels) {
    forall k, p :: k in levels && p in levels[k] ==> |p| == k
  }

  /** A saved pair: two filed paths, no longer than each other in the
      order given and shorter than the target, whose combined length is the
      target; or a target-length path with itself. */
  ghost predicate Accepted(levels: Levels, target: int, pr: Pair) {
    && InLevels(levels, pr.0) && InLevels(levels, pr.1)
    && ((Combined(pr.0, pr.1) == target && 2 <= |pr.0| <= |pr.1| < target)
        || (pr.0 == pr.1 && |pr.0| == target))
  }

  lemma {:induction false} RowSound(p: Path, qs: seq<Path>, target: int)
    ensures forall pr :: pr in Row(p, qs, target) ==> pr.0 == p && pr.1 in qs && Combined(pr.0, pr.1) == target
    decreases |qs|
  {
    if qs != [] {
      RowSound(p, qs[..|qs| - 1], target);
    }
  }

  lemma {:induction false} WithinSound(ps: seq<Path>, i: nat, target: int)
    requires i <= |ps|
    ensures forall pr :: pr in Within(ps, i, target) ==> pr.0 in ps && pr.1 in ps && Combined(pr.0, pr.1) == target
  {
    if i > 0 {
      var before := Within(ps, i - 1, target);
      var part := Row(ps[i - 1], ps[i..], target);
      assert Within(ps, i, target) == before + part;
      WithinSound(ps, i - 1, target);
      RowSound(ps[i - 1], ps[i..], target);
      forall pr | pr in part ensures pr.1 in ps {
        var j :| 0 <= j < |ps[i..]| && ps[i..][j] == pr.1;
        assert ps[i + j] == pr.1;
      }
    }
  }

  lemma {:induction false} AcrossSound(ps: seq<Path>, qs: seq<Path>, i: nat, target: int)
    requires i <= |ps|
    ensures forall pr :: pr in Across(ps, qs, i, target) ==> pr.0 in ps && pr.1 in qs && Combined(pr.0, pr.1) == target
  {
    if i > 0 {
      var before := Across(ps, qs, i - 1, target);
      var part := Row(ps[i - 1], qs, target);
      assert Across(ps, qs, i, target) == before + part;
      AcrossSound(ps, qs, i - 1, target);
      RowSound(ps[i - 1], qs, target);
    }
  }

  /** A pair of the partner loop of level `nc`, from a partner level below
      `i`. */
  ghost predicate Partnered(levels: Levels, nc: nat, i: int, target: int, pr: Pair)
    requires nc in levels
  {
    && |pr.0| == nc && pr.0 in levels[nc] && InLevels(levels, pr.1)
    && nc <= |pr.1| < i && Combined(pr.0, pr.1) == target
  }

  lemma PartnerSound(levels: Levels, nc: nat, m: nat, target: int)
    requires Sized(levels) && nc in levels && nc <= m
    ensures forall pr :: pr in Partner(levels, nc, m, target) ==>
      Partnered(levels, nc, m + 1, target, pr) && |pr.1| == m
  {
    if m in levels && |levels[m]| > 0 {
      if m == nc {
        WithinSound(levels[nc], |levels[nc]|, target);
      } else {
        AcrossSound(levels[nc], levels[m], |levels[nc]|, target);
      }
    }
  }

  lemma {:induction false} PartnersSound(levels: Levels, nc: nat, i: int, target: int)
    requires Sized(levels) && nc in levels
    ensures forall pr :: pr in Partners(levels, nc, i, target) ==> Partnered(levels, nc, i, target, pr)
    decreases i - nc
  {
    if i > nc {
      var before := Partners(levels, nc, i - 1, target);
      var part := Partner(levels, nc, i - 1, target);
      assert Partners(levels, nc, i, target) == before + part;
      PartnersSound(levels, nc, i - 1, target);
      PartnerSound(levels, nc, i - 1, target);
      forall pr | pr in before + part ensures Partnered(levels, nc, i, target, pr) {
        if pr in before {
          assert Partnered(levels, nc, i - 1, target, pr);
        } else {
          assert Partnered(levels, nc, i, target, pr);
        }
      }
    }
  }

  /** Every pair of `prs` is accepted. */
  ghost predicate AllAccepted(levels: Levels, target: int, prs: seq<Pair>) {
    forall pr :: pr in prs ==> Accepted(levels, target, pr)
  }

  lemma AllAcceptedAppend(levels: Levels, target: int, a: seq<Pair>, b: seq<Pair>)
    requires AllAccepted(levels, target, a) && AllAccepted(levels, target, b)
    ensures AllAccepted(levels, target, a + b)
  {
  }

  /** What one key contributes is accepted. */
  lemma EntrySound(levels: Levels, nc: nat, target: int)
    requires Sized(levels) && nc in levels
    ensures AllAccepted(levels, target, Entry(levels, nc, target))
  {
    if nc != target && nc != 1 && |levels[nc]| > 0 {
      PartnersSound(levels, nc, target, target);
      forall pr | pr in Partners(levels, nc, target, target) ensures Accepted(levels, target, pr) {
        assert Partnered(levels, nc, target, target, pr);
        assert pr.0 in levels[nc];
      }
    }
  }

  lemma {:induction false} EntriesSound(levels: Levels, keys: seq<nat>, k: nat, target: int)
    requires Sized(levels) && k <= |keys| && forall j :: 0 <= j < |keys| ==> keys[j] in levels
    ensures AllAccepted(levels, target, Entries(levels, keys, k, target))
  {
    if k > 0 {
      var before := Entries(levels, keys, k - 1, target);
      var part := Entry(levels, keys[k - 1], target);
      assert Entries(levels, keys, k, target) == before + part;
      EntriesSound(levels, keys, k - 1, target);
      EntrySound(levels, keys[k - 1], target);
      AllAcceptedAppend(levels, target, before, part);
    }
  }

  lemma {:induction false} DiagonalSound(ps: seq<Path>, i: nat)
    requires i <= |ps|
    ensures forall pr :: pr in Diagonal(ps, i) ==> pr.0 == pr.1 && pr.0 in ps
  {
    if i > 0 {
      DiagonalSound(ps, i - 1);
    }
  }

  /** Every saved pair is accepted: paired paths combine to the target
      length, and a target-length path is paired only with itself. Key 1
      (the lone start) never pairs. */
  lemma EmittedSound(levels: Levels, keys: seq<nat>, target: int)
    requires Sized(levels) && forall j :: 0 <= j < |keys| ==> keys[j] in levels
    ensures forall pr :: pr in Emitted(levels, keys, target) ==> Accepted(levels, target, pr)
  {
    var tail := if target in levels then Diagonal(levels[target], |levels[target]|) else [];
    EntriesSound(levels, keys, |keys|, target);
    if target in levels {
      DiagonalSound(levels[target], |levels[target]|);
    }
    assert AllAccepted(levels, target, tail);
    AllAcceptedAppend(levels, target, Entries(levels, keys, |keys|, target), tail);
  }

  // ---------------------------------------------------------------------
  // Completeness: what must be paired

  lemma {:induction false} RowComplete(p: Path, qs: seq<Path>, b: nat, target: int)
    requires b < |qs| && Combined(p, qs[b]) == target
    ensures (p, qs[b]) in Row(p, qs, target)
    decreases |qs|
  {
    if b < |qs| - 1 {
      assert qs[..|qs| - 1][b] == qs[b];
      RowComplete(p, qs[..|qs| - 1], b, target);
    }
  }

  /** The row of the `a`-th path is part of the first `i` rows within a level. */
  lemma {:induction false} WithinContains(ps: seq<Path>, i: nat, a: nat, target: int)
    requires a < i <= |ps|
    ensures Included(Row(ps[a], ps[a + 1..], target), Within(ps, i, target))
  {
    var before := Within(ps, i - 1, target);
    var part := Row(ps[i - 1], ps[i..], target);
    assert Within(ps, i, target) == before + part;
    if a < i - 1 {
      WithinContains(ps, i - 1, a, target);
    }
    IncludedAppend(Row(ps[a], ps[a + 1..], target), before, part);
  }

  lemma WithinComplete(ps: seq<Path>, i: nat, a: nat, b: nat, target: int)
    requires a < i <= |ps| && a < b < |ps| && Combined(ps[a], ps[b]) == target
    ensures (ps[a], ps[b]) in Within(ps, i, target)
  {
    assert ps[a + 1..][b - a - 1] == ps[b];
    RowComplete(ps[a], ps[a + 1..], b - a - 1, target);
    WithinContains(ps, i, a, target);
  }

  /** The row of the `a`-th path is part of the first `i` rows across levels. */
  lemma {:induction false} AcrossContains(ps: seq<Path>, qs: seq<Path>, i: nat, a: nat, target: int)
    requires a < i <= |ps|
    ensures Included(Row(ps[a], qs, target), Across(ps, qs, i, target))
  {
    var before := Across(ps, qs, i - 1, target);
    var part := Row(ps[i - 1], qs, target);
    assert Across(ps, qs, i, target) == before + part;
    if a < i - 1 {
      AcrossContains(ps, qs, i - 1, a, target);
    }
    IncludedAppend(Row(ps[a], qs, target), before, part);
  }

  lemma AcrossComplete(ps: seq<Path>, qs: seq<Path>, i: nat, a: nat, b: nat, target: int)
    requires a < i <= |ps| && b < |qs| && Combined(ps[a], qs[b]) == target
    ensures (ps[a], qs[b]) in Across(ps, qs, i, target)
  {
    RowComplete(ps[a], qs, b, target);
    AcrossContains(ps, qs, i, a, target);
  }

  lemma PartnerComplete(levels: Levels, nc: nat, m: nat, a: nat, b: nat, target: int)
    requires nc in levels && m in levels && nc <= m
    requires a < |levels[nc]| && b < |levels[m]| && (m == nc ==> a < b)
    requires Combined(levels[nc][a], levels[m][b]) == target
    ensures (levels[nc][a], levels[m][b]) in Partner(levels, nc, m, target)
  {
    if m == nc {
      WithinComplete(levels[nc], |levels[nc]|, a, b, target);
    } else {
      AcrossComplete(levels[nc], levels[m], |levels[nc]|, a, b, target);
    }
  }

  /** The pass for partner level `m` is part of the passes below `i`. */
  lemma {:induction false} PartnersContains(levels: Levels, nc: nat, m: nat, i: int, target: int)
    requires nc in levels && nc <= m < i
    ensures Included(Partner(levels, nc, m, target), Partners(levels, nc, i, target))
    decreases i - nc
  {
    var before := Partners(levels, nc, i - 1, target);
    var part := Partner(levels, nc, i - 1, target);
    assert Partners(levels, nc, i, target) == before + part;
    if m < i - 1 {
      PartnersContains(levels, nc, m, i - 1, target);
    }
    IncludedAppend(Partner(levels, nc, m, target), before, part);
  }

  lemma PartnersComplete(levels: Levels, nc: nat, m: nat, i: int, a: nat, b: nat, target: int)
    requires nc in levels && m in levels && nc <= m < i
    requires a < |levels[nc]| && b < |levels[m]| && (m == nc ==> a < b)
    requires Combined(levels[nc][a], levels[m][b]) == target
    ensures (levels[nc][a], levels[m][b]) in Partners(levels, nc, i, target)
  {
    PartnerComplete(levels, nc, m, a, b, target);
    PartnersContains(levels, nc, m, i, target);
  }

  /** What the `t`-th key contributes is part of the entries of the first
      `k` keys. */
  lemma {:induction false} EntriesContains(levels: Levels, keys: seq<nat>, k: nat, t: nat, target: int)
    requires k <= |keys| && forall j :: 0 <= j < |keys| ==> keys[j] in levels
    requires t < k
    ensures Included(Entry(levels, keys[t], target), Entries(levels, keys, k, target))
  {
    var before := Entries(levels, keys, k - 1, target);
    var part := Entry(levels, keys[k - 1], target);
    assert Entries(levels, keys, k, target) == before + part;
    if t < k - 1 {
      EntriesContains(levels, keys, k - 1, t, target);
    }
    IncludedAppend(Entry(levels, keys[t], target), before, part);
  }

  lemma EntriesComplete(levels: Levels, keys: seq<nat>, k: nat, t: nat, m: nat, a: nat, b: nat, target: int)
    requires k <= |keys| && forall j :: 0 <= j < |keys| ==> keys[j] in levels
    requires t < k && keys[t] != 1 && m in levels && keys[t] <= m < target
    requires a < |levels[keys[t]]| && b < |levels[m]| && (m == keys[t] ==> a < b)
    requires Combined(levels[keys[t]][a], levels[m][b]) == target
    ensures (levels[keys[t]][a], levels[m][b]) in Entries(levels, keys, k, target)
  {
    var nc := keys[t];
    PartnersComplete(levels, nc, m, target, a, b, target);
    assert Entry(levels, nc, target) == Partners(levels, nc, target, target);
    EntriesContains(levels, keys, k, t, target);
  }

  lemma {:induction false} DiagonalComplete(ps: seq<Path>, i: nat, a: nat)
    requires a < i <= |ps|
    ensures (ps[a], ps[a]) in Diagonal(ps, i)
  {
    if a < i - 1 {
      DiagonalComplete(ps, i - 1, a);
    }
  }

  /** Conversely every pair the loops are meant to find is saved: two paths
      of a level other than key 1, the earlier first, or a path of such a
      level and a longer one below the target, whenever their combined
      length is the target; and every target-length path with itself. */
  lemma EmittedComplete(levels: Levels, keys: seq<nat>, target: int)
    requires forall j :: 0 <= j < |keys| ==> keys[j] in levels
    ensures forall t, m, a, b ::
      && 0 <= t < |keys| && keys[t] != 1 && m in levels && keys[t] <= m < target
      && 0 <= a < |levels[keys[t]]| && 0 <= b < |levels[m]| && (m == keys[t] ==> a < b)
      && Combined(levels[keys[t]][a], levels[m][b]) == target
      ==> (levels[keys[t]][a], levels[m][b]) in Emitted(levels, keys, target)
    ensures target in levels ==>
      forall a :: 0 <= a < |levels[target]| ==> (levels[target][a], levels[target][a]) in Emitted(levels, keys, target)
  {
    forall t, m, a, b |
      && 0 <= t < |keys| && keys[t] != 1 && m in levels && keys[t] <= m < target
      && 0 <= a < |levels[keys[t]]| && 0 <= b < |levels[m]| && (m == keys[t] ==> a < b)
      && Combined(levels[keys[t]][a], levels[m][b]) == target
      ensures (levels[keys[t]][a], levels[m][b]) in Emitted(levels, keys, target)
    {
      EntriesComplete(levels, keys, |keys|, t, m, a, b, target);
    }
    if target in levels {
      forall a | 0 <= a < |levels[target]| ensures (levels[target][a], levels[target][a]) in Emitted(levels, keys, target) {
        DiagonalComplete(levels[target], |levels[target]|, a);
      }
    }
  }

  /** A graphlet found by the search from `start`: between 1 and `target`
      registered names, none twice, `start` first, and no other name
      processed. */
  ghost predicate Found(tbl: map<Name, Node>, processed: set<Name>, start: Name, target: int, g: seq<Name>) {
    && 1 <= |g| <= target && NoDup(g) && g[0] == start
    && (forall i :: 0 <= i < |g| ==> g[i] in tbl)
    && (forall i :: 1 <= i < |g| ==> g[i] !in processed)
  }

  /** The union of two grown paths keeps the start first, registered names
      only and no processed name after the start. */
  lemma GrownUnion(tbl: map<Name, Node>, processed: set<Name>, start: Name, p1: Path, p2: Path)
    requires Grown(tbl, processed, start, p1) && Grown(tbl, processed, start, p2)
    ensures var g := Union(p1, p2);
      && NoDup(g) && |g| >= 1 && g[0] == start
      && (forall i :: 0 <= i < |g| ==> g[i] in tbl)
      && (forall i :: 1 <= i < |g| ==> g[i] !in processed)
  {
    var g := Union(p1, p2);
    UnionElements(p1, p2);
    forall i | 0 <= i < |g| ensures g[i] in tbl && (i >= 1 ==> g[i] !in processed) {
      var x := g[i];
      assert x in g;
      var p := if x in p1 then p1 else p2;
      var k :| 0 <= k < |p| && p[k] == x;
      if i >= 1 {
        assert g[0] == start && g[i] != g[0];
      }
    }
  }

  /** Every graphlet the combination step saves is found from the start. */
  lemma UnionsFound(levels: Levels, keys: seq<nat>, target: int, tbl: map<Name, Node>, processed: set<Name>, start: Name)
    requires Filed(tbl, processed, start, target, levels)
    requires forall j :: 0 <= j < |keys| ==> keys[j] in levels
    ensures forall g :: g in Unions(Emitted(levels, keys, target)) ==> Found(tbl, processed, start, target, g)
  {
    var pairs := Emitted(levels, keys, target);
    EmittedSound(levels, keys, target);
    UnionsMembers(pairs);
    forall g | g in Unions(pairs) ensures Found(tbl, processed, start, target, g) {
      var pr :| pr in pairs && g == Union(pr.0, pr.1);
      assert Accepted(levels, target, pr);
      assert Grown(tbl, processed, start, pr.0) && Grown(tbl, processed, start, pr.1);
      GrownUnion(tbl, processed, start, pr.0, pr.1);
      if pr.0 == pr.1 {
        UnionSelf(pr.0);
      } else {
        UnionBound(pr.0, pr.1);
      }
    }
  }

  lemma {:induction false} UnionsMembers(pairs: seq<Pair>)
    ensures forall g :: g in Unions(pairs) ==> exists pr :: pr in pairs && g == Union(pr.0, pr.1)
    decreases |pairs|
  {
    if pairs != [] {
      var init := pairs[..|pairs| - 1];
      UnionsMembers(init);
      forall g | g in Unions(pairs) ensures exists pr :: pr in pairs && g == Union(pr.0, pr.1) {
        if g in Unions(init) {
          var pr :| pr in init && g == Union(pr.0, pr.1);
          assert pr in pairs;
        } else {
          assert pairs[|pairs| - 1] in pairs;
        }
      }
    }
  }
}
