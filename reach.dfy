/** Reachability through parent edges, and what it means for a list of node
    indices to be a topological order of part of the graph. */
module Reachability {
  import opened Variables

  /** The nodes reachable from `v` through parent edges, `v` included. */
  function Reach(nodes: seq<Variable>, v: nat): set<nat>
    requires WellFormed(nodes) && v < |nodes|
    decreases v, 1
  {
    {v} + ReachParents(nodes, v, |nodes[v].parents|)
  }

  /** The nodes reachable from the first `k` parents of `v`. */
  function ReachParents(nodes: seq<Variable>, v: nat, k: nat): set<nat>
    requires WellFormed(nodes) && v < |nodes| && k <= |nodes[v].parents|
    decreases v, 0, k
  {
    if k == 0 then {}
    else ReachParents(nodes, v, k - 1) + Reach(nodes, nodes[v].parents[k - 1])
  }

  /** Nothing reachable from `v` comes after `v` in the arena. */
  lemma {:induction false} ReachBelow(nodes: seq<Variable>, v: nat)
    requires WellFormed(nodes) && v < |nodes|
    ensures forall w :: w in Reach(nodes, v) ==> w <= v
    decreases v, 1
  {
    ReachParentsBelow(nodes, v, |nodes[v].parents|);
  }

  lemma {:induction false} ReachParentsBelow(nodes: seq<Variable>, v: nat, k: nat)
    requires WellFormed(nodes) && v < |nodes| && k <= |nodes[v].parents|
    ensures forall w :: w in ReachParents(nodes, v, k) ==> w < v
    decreases v, 0, k
  {
    if k > 0 {
      ReachParentsBelow(nodes, v, k - 1);
      ReachBelow(nodes, nodes[v].parents[k - 1]);
    }
  }

  /** Each of the first `k` parents of `v`, and all it reaches, is reached. */
  lemma {:induction false} ParentInReachParents(nodes: seq<Variable>, v: nat, j: nat, k: nat)
    requires WellFormed(nodes) && v < |nodes| && j < k <= |nodes[v].parents|
    ensures nodes[v].parents[j] in ReachParents(nodes, v, k)
    ensures Reach(nodes, nodes[v].parents[j]) <= ReachParents(nodes, v, k)
  {
    if j < k - 1 {
      ParentInReachParents(nodes, v, j, k - 1);
    }
  }

  function Elems(s: seq<nat>): set<nat>
  {
    set x | x in s
  }

  predicate Distinct(s: seq<nat>)
  {
    forall i, j :: 0 <= i < j < |s| ==> s[i] != s[j]
  }

  /** `S` holds the parents of each of its nodes. */
  predicate ParentsIn(nodes: seq<Variable>, S: set<nat>)
  {
    forall w, k :: w in S && w < |nodes| && 0 <= k < |nodes[w].parents| ==> nodes[w].parents[k] in S
  }

  /** A set closed under parent edges holds, with each node, everything
      that node reaches. */
  lemma {:induction false} ReachClosed(nodes: seq<Variable>, S: set<nat>, v: nat)
    requires WellFormed(nodes) && ParentsIn(nodes, S) && v in S && v < |nodes|
    ensures Reach(nodes, v) <= S
    decreases v, 1
  {
    ReachParentsClosed(nodes, S, v, |nodes[v].parents|);
  }

  lemma {:induction false} ReachParentsClosed(nodes: seq<Variable>, S: set<nat>, v: nat, k: nat)
    requires WellFormed(nodes) && ParentsIn(nodes, S) && v in S && v < |nodes|
    requires k <= |nodes[v].parents|
    ensures ReachParents(nodes, v, k) <= S
    decreases v, 0, k
  {
    if k > 0 {
      ReachParentsClosed(nodes, S, v, k - 1);
      ReachClosed(nodes, S, nodes[v].parents[k - 1]);
    }
  }

  /** `topo` is built by appending, one at a time, nodes of the arena that
      are not listed yet and whose parents all are. */
  predicate IsTopoPrefix(nodes: seq<Variable>, topo: seq<nat>)
    decreases |topo|
  {
    topo == [] ||
    (var init, v := topo[..|topo| - 1], topo[|topo| - 1];
     IsTopoPrefix(nodes, init) && v < |nodes| && v !in init &&
     forall k :: 0 <= k < |nodes[v].parents| ==> nodes[v].parents[k] in init)
  }

  /** Such a list names arena nodes only, and each of them once. */
  lemma {:induction false} TopoDistinct(nodes: seq<Variable>, topo: seq<nat>)
    requires IsTopoPrefix(nodes, topo)
    ensures forall i :: 0 <= i < |topo| ==> topo[i] < |nodes|
    ensures Distinct(topo)
    decreases |topo|
  {
    if topo != [] {
      var init := topo[..|topo| - 1];
      TopoDistinct(nodes, init);
      assert forall i :: 0 <= i < |init| ==> topo[i] == init[i];
    }
  }

  /** In such a list every parent of a node sits at an earlier position. */
  lemma {:induction false} ParentsEarlier(nodes: seq<Variable>, topo: seq<nat>, i: nat, k: nat)
    requires IsTopoPrefix(nodes, topo) && i < |topo| && topo[i] < |nodes|
    requires k < |nodes[topo[i]].parents|
    ensures exists j :: 0 <= j < i && topo[j] == nodes[topo[i]].parents[k]
    decreases |topo|
  {
    var init := topo[..|topo| - 1];
    if i < |topo| - 1 {
      assert init[i] == topo[i];
      ParentsEarlier(nodes, init, i, k);
      var j :| 0 <= j < i && init[j] == nodes[topo[i]].parents[k];
      assert topo[j] == init[j];
    } else {
      var p := nodes[topo[i]].parents[k];
      assert p in init;
      var j :| 0 <= j < |init| && init[j] == p;
      assert topo[j] == init[j];
    }
  }

  /** Splitting such a list at position `i`: the node there is listed once,
      and none of the nodes after it is one of its parents. */
  lemma LaterNotParent(nodes: seq<Variable>, topo: seq<nat>, i: nat)
    requires IsTopoPrefix(nodes, topo) && i < |topo| && topo[i] < |nodes|
    ensures topo[i] !in Elems(topo[i + 1..])
    ensures Elems(topo[i..]) == Elems(topo[i + 1..]) + {topo[i]}
    ensures forall k :: 0 <= k < |nodes[topo[i]].parents| ==>
      nodes[topo[i]].parents[k] !in Elems(topo[i + 1..])
  {
    TopoDistinct(nodes, topo);
    assert topo[i..] == [topo[i]] + topo[i + 1..];
    forall k | 0 <= k < |nodes[topo[i]].parents|
      ensures nodes[topo[i]].parents[k] !in Elems(topo[i + 1..])
    {
      ParentsEarlier(nodes, topo, i, k);
    }
  }

  /** The nodes of such a list are closed under parent edges. */
  lemma {:induction false} TopoParentsIn(nodes: seq<Variable>, topo: seq<nat>)
    requires IsTopoPrefix(nodes, topo)
    ensures ParentsIn(nodes, Elems(topo))
    decreases |topo|
  {
    if topo != [] {
      var init, v := topo[..|topo| - 1], topo[|topo| - 1];
      TopoParentsIn(nodes, init);
      assert topo == init + [v];
      assert Elems(topo) == Elems(init) + {v};
    }
  }

  /** A listed node has everything it reaches listed too. */
  lemma ListedCovered(nodes: seq<Variable>, topo: seq<nat>, v: nat)
    requires WellFormed(nodes) && IsTopoPrefix(nodes, topo) && v in Elems(topo)
    ensures v < |nodes| && Reach(nodes, v) <= Elems(topo)
  {
    TopoDistinct(nodes, topo);
    TopoParentsIn(nodes, topo);
    ReachClosed(nodes, Elems(topo), v);
  }

  /** Listing `v` once all it reaches through its parents is listed keeps
      the list a topological order. */
  lemma AppendTopo(nodes: seq<Variable>, topo: seq<nat>, v: nat)
    requires WellFormed(nodes) && IsTopoPrefix(nodes, topo) && v < |nodes| && v !in Elems(topo)
    requires ReachParents(nodes, v, |nodes[v].parents|) <= Elems(topo)
    ensures IsTopoPrefix(nodes, topo + [v])
    ensures Elems(topo + [v]) == Elems(topo) + Reach(nodes, v)
  {
    var ps := nodes[v].parents;
    var t := topo + [v];
    forall j | 0 <= j < |ps|
      ensures ps[j] in topo
    {
      ParentInReachParents(nodes, v, j, |ps|);
      assert ps[j] in Elems(topo);
    }
    assert t[..|t| - 1] == topo;
    assert Elems(t) == Elems(topo) + {v};
  }
}
