/** The topological sequencer `buildTopo` (ad/ad.go:289-298). */
module Topo {
  import opened Variables
  import opened Reachability

  /** Depth-first post-order walk from `v`. The Go code threads the slice
      `topo` through the calls and marks nodes in the map `visited`, which
      all calls share; here the map is a set passed in and handed back.
      The requires describe every state the walk can be in: `topo` is a
      topological order closed under reachability, and the nodes marked but
      not yet listed (the ones on the current path) all lie above `v`. */
  method BuildTopo(nodes: seq<Variable>, v: nat, topo: seq<nat>, visited: set<nat>)
    returns (topo': seq<nat>, visited': set<nat>)
    requires WellFormed(nodes) && v < |nodes|
    requires IsTopoPrefix(nodes, topo)
    requires Elems(topo) <= visited
    requires forall w :: w in visited && w !in Elems(topo) ==> v < w
    ensures IsTopoPrefix(nodes, topo')
    ensures |topo| <= |topo'|
    ensures Elems(topo') == Elems(topo) + Reach(nodes, v)
    ensures visited' == visited + Reach(nodes, v)
    ensures v in visited ==> topo' == topo && visited' == visited
    ensures v !in visited ==> |topo| < |topo'| && topo'[|topo'| - 1] == v
    decreases v
  {
    if v in visited {
      ListedCovered(nodes, topo, v);
      return topo, visited;
    }
    visited' := visited + {v};
    topo' := topo;
    var ps := Parents(nodes, v);
    var k := 0;
    ghost var listed0 := Elems(topo);
    while k < |ps|
      invariant 0 <= k <= |ps|
      invariant IsTopoPrefix(nodes, topo')
      invariant |topo| <= |topo'|
      invariant Elems(topo') == listed0 + ReachParents(nodes, v, k)
      invariant visited' == visited + {v} + ReachParents(nodes, v, k)
    {
      PathAbove(visited, listed0, v, ReachParents(nodes, v, k), ps[k]);
      topo', visited' := BuildTopo(nodes, ps[k], topo', visited');
      ParentDone(nodes, v, k, visited, listed0, Elems(topo'), visited');
      k := k + 1;
    }
    ReachParentsBelow(nodes, v, |ps|);
    AppendTopo(nodes, topo', v);
    VisitDone(nodes, v, visited, listed0, Elems(topo'), visited');
    topo' := topo' + [v];
  }

  /** The sets the walk keeps once every parent of `v` is done. */
  lemma VisitDone(nodes: seq<Variable>, v: nat, visited: set<nat>, listed0: set<nat>,
                  listed: set<nat>, marked: set<nat>)
    requires WellFormed(nodes) && v < |nodes|
    requires listed == listed0 + ReachParents(nodes, v, |nodes[v].parents|)
    requires marked == visited + {v} + ReachParents(nodes, v, |nodes[v].parents|)
    ensures listed + Reach(nodes, v) == listed0 + Reach(nodes, v)
    ensures marked == visited + Reach(nodes, v)
  {
  }

  /** The sets the walk keeps after the `k`-th parent of `v` is done. */
  lemma ParentDone(nodes: seq<Variable>, v: nat, k: nat, visited: set<nat>, listed0: set<nat>,
                   listed: set<nat>, marked: set<nat>)
    requires WellFormed(nodes) && v < |nodes| && k < |nodes[v].parents|
    requires listed == listed0 + ReachParents(nodes, v, k) + Reach(nodes, nodes[v].parents[k])
    requires marked == visited + {v} + ReachParents(nodes, v, k) + Reach(nodes, nodes[v].parents[k])
    ensures listed == listed0 + ReachParents(nodes, v, k + 1)
    ensures marked == visited + {v} + ReachParents(nodes, v, k + 1)
  {
  }

  /** The nodes on the current path stay above each parent about to be
      visited. */
  lemma PathAbove(visited: set<nat>, listed: set<nat>, v: nat, reached: set<nat>, p: nat)
    requires listed <= visited
    requires forall w :: w in visited && w !in listed ==> v < w
    requires p < v
    ensures listed + reached <= visited + {v} + reached
    ensures forall w :: w in visited + {v} + reached && w !in listed + reached ==> p < w
  {
  }
}
