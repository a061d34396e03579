/** The `_graphlet_count_map` every counting strategy fills: signature ->
    the graphlets saved under it, in the order they were saved. The builtin
    `hash` that the source applies to the signature is not modelled, so the
    key is the signature itself. */
module Counts {
  import opened Util
  import opened GraphStore
  import opened Signature

  type CountMap = map<Sig, seq<Graphlet>>

  /** The list under `k`, or the empty list `setdefault` would create. */
  function Listed(cm: CountMap, k: Sig): seq<Graphlet> {
    if k in cm then cm[k] else []
  }

  /** `setdefault(hash(g), []).append(g)` for the graphlet with `members`. */
  function Saved(cm: CountMap, tbl: map<Name, Node>, members: seq<Name>): CountMap {
    var k := SignatureOf(tbl, members);
    cm[k := Listed(cm, k) + [Graphlet(members)]]
  }

  /** Saving the groups one after another, first to last. */
  function SaveAll(cm: CountMap, tbl: map<Name, Node>, groups: seq<seq<Name>>): CountMap
    decreases |groups|
  {
    if groups == [] then cm else SaveAll(Saved(cm, tbl, groups[0]), tbl, groups[1..])
  }

  /** Total length of all lists: the number of graphlets saved. */
  ghost function Total(cm: CountMap): nat
    decreases |cm.Keys|
  {
    if cm == map[] then 0
    else
      var k :| k in cm;
      assert (cm - {k}).Keys < cm.Keys;
      |cm[k]| + Total(cm - {k})
  }

  /** Every graphlet sits under its own signature. */
  ghost predicate WellKeyed(tbl: map<Name, Node>, cm: CountMap) {
    forall k, i :: k in cm && 0 <= i < |cm[k]| ==> SignatureOf(tbl, cm[k][i].members) == k
  }

  /** `cm2` holds every list of `cm` as a prefix: saving only appends. */
  ghost predicate Grows(cm: CountMap, cm2: CountMap) {
    forall k :: k in cm ==> k in cm2 && cm[k] <= cm2[k]
  }

  /** Total does not depend on which key it takes first. */
  lemma {:induction false} TotalRemove(cm: CountMap, k: Sig)
    requires k in cm
    ensures Total(cm) == |cm[k]| + Total(cm - {k})
    decreases |cm.Keys|
  {
    var j :| j in cm && Total(cm) == |cm[j]| + Total(cm - {j});
    if j != k {
      assert (cm - {j}).Keys < cm.Keys;
      assert (cm - {k}).Keys < cm.Keys;
      TotalRemove(cm - {j}, k);
      TotalRemove(cm - {k}, j);
      assert cm - {j} - {k} == cm - {k} - {j};
    }
  }

  /** One save adds exactly one graphlet. */
  lemma SavedTotal(cm: CountMap, tbl: map<Name, Node>, members: seq<Name>)
    ensures Total(Saved(cm, tbl, members)) == Total(cm) + 1
  {
    var k := SignatureOf(tbl, members);
    var cm2: CountMap := Saved(cm, tbl, members);
    TotalRemove(cm2, k);
    if k in cm {
      TotalRemove(cm, k);
      assert cm2 - {k} == cm - {k};
    } else {
      assert cm2 - {k} == cm;
    }
  }

  /** Saving `n` groups adds exactly `n` graphlets. */
  lemma {:induction false} SaveAllTotal(cm: CountMap, tbl: map<Name, Node>, groups: seq<seq<Name>>)
    ensures Total(SaveAll(cm, tbl, groups)) == Total(cm) + |groups|
    decreases |groups|
  {
    if groups != [] {
      SavedTotal(cm, tbl, groups[0]);
      SaveAllTotal(Saved(cm, tbl, groups[0]), tbl, groups[1..]);
    }
  }

  /** Saving never removes or reorders what was saved before, and the new
      graphlet lands at the end of the list for its own signature. */
  lemma SavedGrows(cm: CountMap, tbl: map<Name, Node>, members: seq<Name>)
    ensures Grows(cm, Saved(cm, tbl, members))
    ensures var k := SignatureOf(tbl, members);
      k in Saved(cm, tbl, members) && Saved(cm, tbl, members)[k] == Listed(cm, k) + [Graphlet(members)]
  {
  }

  lemma {:induction false} SaveAllGrows(cm: CountMap, tbl: map<Name, Node>, groups: seq<seq<Name>>)
    ensures Grows(cm, SaveAll(cm, tbl, groups))
    decreases |groups|
  {
    if groups != [] {
      var cm1 := Saved(cm, tbl, groups[0]);
      SavedGrows(cm, tbl, groups[0]);
      SaveAllGrows(cm1, tbl, groups[1..]);
      forall k | k in cm ensures k in SaveAll(cm, tbl, groups) && cm[k] <= SaveAll(cm, tbl, groups)[k] {
        assert cm[k] <= cm1[k];
      }
    }
  }

  /** Every saved group can be found under its signature afterwards. */
  lemma {:induction false} SaveAllContains(cm: CountMap, tbl: map<Name, Node>, groups: seq<seq<Name>>, i: nat)
    requires i < |groups|
    ensures var k := SignatureOf(tbl, groups[i]);
      k in SaveAll(cm, tbl, groups) && Graphlet(groups[i]) in SaveAll(cm, tbl, groups)[k]
    decreases |groups|
  {
    var cm1 := Saved(cm, tbl, groups[0]);
    if i == 0 {
      var k := SignatureOf(tbl, groups[0]);
      SavedGrows(cm, tbl, groups[0]);
      SaveAllGrows(cm1, tbl, groups[1..]);
      assert cm1[k] <= SaveAll(cm1, tbl, groups[1..])[k];
      assert cm1[k][|cm1[k]| - 1] == Graphlet(groups[0]);
    } else {
      SaveAllContains(cm1, tbl, groups[1..], i - 1);
      assert groups[1..][i - 1] == groups[i];
    }
  }

  /** Saving keeps every graphlet under its own signature. */
  lemma SavedWellKeyed(cm: CountMap, tbl: map<Name, Node>, members: seq<Name>)
    requires WellKeyed(tbl, cm)
    ensures WellKeyed(tbl, Saved(cm, tbl, members))
  {
    var k := SignatureOf(tbl, members);
    var cm2: CountMap := Saved(cm, tbl, members);
    forall k2: Sig, i: int | k2 in cm2 && 0 <= i < |cm2[k2]| ensures SignatureOf(tbl, cm2[k2][i].members) == k2 {
      if k2 == k && i == |cm2[k2]| - 1 {
        assert cm2[k2][i] == Graphlet(members);
      } else if k2 == k {
        assert cm2[k2][i] == cm[k2][i];
      }
    }
  }

  lemma {:induction false} SaveAllWellKeyed(cm: CountMap, tbl: map<Name, Node>, groups: seq<seq<Name>>)
    requires WellKeyed(tbl, cm)
    ensures WellKeyed(tbl, SaveAll(cm, tbl, groups))
    decreases |groups|
  {
    if groups != [] {
      SavedWellKeyed(cm, tbl, groups[0]);
      SaveAllWellKeyed(Saved(cm, tbl, groups[0]), tbl, groups[1..]);
    }
  }

  /** Saving one more group after a run of saves is saving the longer run. */
  lemma {:induction false} SaveAllSnoc(cm: CountMap, tbl: map<Name, Node>, groups: seq<seq<Name>>, g: seq<Name>)
    ensures SaveAll(cm, tbl, groups + [g]) == Saved(SaveAll(cm, tbl, groups), tbl, g)
    decreases |groups|
  {
    if groups == [] {
      assert groups + [g] == [g];
    } else {
      assert (groups + [g])[1..] == groups[1..] + [g];
      SaveAllSnoc(Saved(cm, tbl, groups[0]), tbl, groups[1..], g);
    }
  }

  /** Two runs of saves, one after the other. */
  lemma {:induction false} SaveAllAppend(cm: CountMap, tbl: map<Name, Node>, a: seq<seq<Name>>, b: seq<seq<Name>>)
    ensures SaveAll(cm, tbl, a + b) == SaveAll(SaveAll(cm, tbl, a), tbl, b)
    decreases |a|
  {
    if a == [] {
      assert a + b == b;
    } else {
      assert (a + b)[1..] == a[1..] + b;
      SaveAllAppend(Saved(cm, tbl, a[0]), tbl, a[1..], b);
    }
  }

  /** Every graphlet `cm2` holds beyond the lists of `cm` is one of `groups`. */
  ghost predicate AddedFrom(cm: CountMap, cm2: CountMap, groups: seq<seq<Name>>) {
    forall k, i :: k in cm2 && |Listed(cm, k)| <= i < |cm2[k]| ==> cm2[k][i].members in groups
  }

  /** A run of saves adds the saved groups and nothing else. */
  lemma {:induction false} SaveAllAdded(cm: CountMap, tbl: map<Name, Node>, groups: seq<seq<Name>>)
    ensures AddedFrom(cm, SaveAll(cm, tbl, groups), groups)
    decreases |groups|
  {
    if groups != [] {
      var cm1: CountMap := Saved(cm, tbl, groups[0]);
      var cm2: CountMap := SaveAll(cm1, tbl, groups[1..]);
      SaveAllAdded(cm1, tbl, groups[1..]);
      SaveAllGrows(cm1, tbl, groups[1..]);
      forall k, i | k in cm2 && |Listed(cm, k)| <= i < |cm2[k]| ensures cm2[k][i].members in groups {
        if i < |Listed(cm1, k)| {
          assert cm1[k] <= cm2[k];
          assert cm1[k][i] == Graphlet(groups[0]);
        } else {
          assert cm2[k][i].members in groups[1..];
        }
      }
    }
  }
}
