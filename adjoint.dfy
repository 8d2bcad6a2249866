/** What the backward pass computes: every node's gradient is its seed plus
    the sum, over the reachable nodes that consume it, of the local partial
    derivative times the consumer's own final gradient (the adjoint
    equation of reverse-mode differentiation). */
module Adjoints {
  import opened Variables
  import opened Reachability

  /** The gradient a node holds when the reverse sweep starts: 1 for the
      root, whatever was left from before for every other node. */
  function Seed(s: seq<Variable>, root: nat, w: nat): real
    requires w < |s|
  {
    if w == root then 1.0 else s[w].d
  }

  /** The sum, over the nodes c < n that belong to R, of what the rule of c
      adds to the gradient of w in state s. */
  function Adjoint(s: seq<Variable>, R: set<nat>, w: nat, n: nat): real
    requires WellFormed(s) && n <= |s|
  {
    if n == 0 then 0.0
    else Adjoint(s, R, w, n - 1) + (if n - 1 in R then Contribution(s, n - 1, w) else 0.0)
  }

  /** Adding one consumer to R adds its contribution to the sum. */
  lemma {:induction false} AdjointInsert(s: seq<Variable>, R: set<nat>, c: nat, w: nat, n: nat)
    requires WellFormed(s) && n <= |s| && c !in R
    ensures Adjoint(s, R + {c}, w, n) == Adjoint(s, R, w, n) + (if c < n then Contribution(s, c, w) else 0.0)
  {
    if n > 0 {
      AdjointInsert(s, R, c, w, n - 1);
    }
  }

  /** The sum over no consumers is 0. */
  lemma {:induction false} AdjointEmpty(s: seq<Variable>, w: nat, n: nat)
    requires WellFormed(s) && n <= |s|
    ensures Adjoint(s, {}, w, n) == 0.0
  {
    if n > 0 {
      AdjointEmpty(s, w, n - 1);
    }
  }

  /** The sum depends on the gradients of the consumers in R only. */
  lemma {:induction false} AdjointFrame(s: seq<Variable>, t: seq<Variable>, R: set<nat>, w: nat, n: nat)
    requires WellFormed(s) && SameShape(s, t) && n <= |s|
    requires forall c :: c in R && c < n ==> s[c].d == t[c].d
    ensures WellFormed(t) && Adjoint(s, R, w, n) == Adjoint(t, R, w, n)
  {
    SameShapeWellFormed(s, t);
    if n > 0 {
      AdjointFrame(s, t, R, w, n - 1);
      if n - 1 in R {
        ContributionFrame(s, t, n - 1, w);
      }
    }
  }

  /** A node that is no parent of any consumer in R receives nothing. */
  lemma {:induction false} AdjointNotParent(s: seq<Variable>, R: set<nat>, w: nat, n: nat)
    requires WellFormed(s) && n <= |s|
    requires forall c, k :: c in R && c < n && 0 <= k < |s[c].parents| ==> s[c].parents[k] != w
    ensures Adjoint(s, R, w, n) == 0.0
  {
    if n > 0 {
      AdjointNotParent(s, R, w, n - 1);
      if n - 1 in R {
        ContributionOnlyParents(s, n - 1, w);
      }
    }
  }

  /** Nodes without a rule hand nothing on: a prefix of leaves adds 0. */
  lemma {:induction false} AdjointLeaves(s: seq<Variable>, R: set<nat>, w: nat, n: nat)
    requires WellFormed(s) && n <= |s|
    requires forall c :: 0 <= c < n ==> s[c].rule == NoRule
    ensures Adjoint(s, R, w, n) == 0.0
  {
    if n > 0 {
      AdjointLeaves(s, R, w, n - 1);
    }
  }

  /** The root of a pass is a parent of nothing it reaches, so it keeps its
      seed of exactly 1. */
  lemma AdjointAtRoot(s0: seq<Variable>, s: seq<Variable>, v: nat)
    requires WellFormed(s0) && SameShape(s0, s) && v < |s0|
    ensures WellFormed(s) && Adjoint(s, Reach(s0, v), v, |s|) == 0.0
  {
    SameShapeWellFormed(s0, s);
    ReachBelow(s0, v);
    forall c, k | c in Reach(s0, v) && c < |s| && 0 <= k < |s[c].parents|
      ensures s[c].parents[k] != v
    {
      assert s[c].parents == s0[c].parents;
    }
    AdjointNotParent(s, Reach(s0, v), v, |s|);
  }

  /** A node outside a set closed under parent edges is nobody's parent
      there, so it receives nothing. */
  lemma AdjointOutside(s0: seq<Variable>, s: seq<Variable>, R: set<nat>, w: nat)
    requires WellFormed(s0) && SameShape(s0, s) && ParentsIn(s0, R) && w !in R
    ensures WellFormed(s) && Adjoint(s, R, w, |s|) == 0.0
  {
    SameShapeWellFormed(s0, s);
    forall c, k | c in R && c < |s| && 0 <= k < |s[c].parents|
      ensures s[c].parents[k] != w
    {
      assert s[c].parents == s0[c].parents;
    }
    AdjointNotParent(s, R, w, |s|);
  }

  /** The state of the reverse sweep once the rules of `topo[i..]` have
      fired, starting from the seeded state: each gradient is its seed plus
      what those consumers have handed it. */
  ghost predicate SweptFrom(s0: seq<Variable>, seeded: seq<Variable>, s: seq<Variable>, topo: seq<nat>, i: nat)
  {
    WellFormed(s0) && IsTopoPrefix(s0, topo) && i <= |topo| &&
    SameShape(s0, seeded) && SameShape(seeded, s) && WellFormed(s) &&
    forall w :: 0 <= w < |s| ==> s[w].d == seeded[w].d + Adjoint(s, Elems(topo[i..]), w, |s|)
  }

  /** Before any rule fires the sums are empty. */
  lemma SweepStart(s0: seq<Variable>, seeded: seq<Variable>, topo: seq<nat>)
    requires WellFormed(s0) && IsTopoPrefix(s0, topo) && SameShape(s0, seeded)
    ensures SweptFrom(s0, seeded, seeded, topo, |topo|)
  {
    SameShapeWellFormed(s0, seeded);
    assert Elems(topo[|topo|..]) == {};
    forall w | 0 <= w < |seeded|
      ensures seeded[w].d == seeded[w].d + Adjoint(seeded, Elems(topo[|topo|..]), w, |seeded|)
    {
      AdjointEmpty(seeded, w, |seeded|);
    }
  }

  /** One step of the reverse sweep: firing the rule of `topo[i]` turns the
      sum over the consumers `topo[i+1..]` into the sum over `topo[i..]`,
      because nothing fired later is a parent of `topo[i]` and `topo[i]` is
      not its own parent. */
  lemma SweepStep(s0: seq<Variable>, seeded: seq<Variable>, before: seq<Variable>, topo: seq<nat>, i: nat)
    requires SweptFrom(s0, seeded, before, topo, i + 1) && i < |topo|
    ensures topo[i] < |before|
    ensures SweptFrom(s0, seeded, ApplyRule(before, topo[i]), topo, i)
  {
    TopoDistinct(s0, topo);
    var after := ApplyRule(before, topo[i]);
    SameShapeWellFormed(before, after);
    PropagateStep(s0, topo, i, seeded, before, after);
  }

  /** When the sweep is over and `topo` lists exactly what the root `v`
      reaches, the gradients satisfy the adjoint equation, the root holds 1,
      and every node not reached holds its old gradient. */
  lemma SweepDone(s0: seq<Variable>, s: seq<Variable>, topo: seq<nat>, v: nat)
    requires v < |s0| && SweptFrom(s0, s0[v := s0[v].(d := 1.0)], s, topo, 0)
    requires Elems(topo) == Reach(s0, v)
    ensures SameShape(s0, s) && WellFormed(s)
    ensures forall w :: 0 <= w < |s| ==> s[w].d == Seed(s0, v, w) + Adjoint(s, Reach(s0, v), w, |s|)
    ensures s[v].d == 1.0
    ensures forall w :: 0 <= w < |s| && w !in Reach(s0, v) ==> s[w].d == s0[w].d
  {
    assert topo[0..] == topo;
    TopoParentsIn(s0, topo);
    AdjointAtRoot(s0, s, v);
    forall w | 0 <= w < |s| && w !in Reach(s0, v)
      ensures s[w].d == s0[w].d
    {
      AdjointOutside(s0, s, Reach(s0, v), w);
    }
  }

  /** The arithmetic of one sweep step. */
  lemma PropagateStep(s0: seq<Variable>, topo: seq<nat>, i: nat,
                      seeded: seq<Variable>, before: seq<Variable>, after: seq<Variable>)
    requires WellFormed(s0) && IsTopoPrefix(s0, topo) && i < |topo|
    requires SameShape(s0, seeded) && SameShape(seeded, before) && SameShape(seeded, after)
    requires forall w :: 0 <= w < |before| ==>
      before[w].d == seeded[w].d + Adjoint(before, Elems(topo[i + 1..]), w, |before|)
    requires WellFormed(before) && topo[i] < |before|
    requires forall w :: 0 <= w < |before| ==>
      after[w].d == before[w].d + Contribution(before, topo[i], w)
    ensures WellFormed(after)
    ensures forall w :: 0 <= w < |after| ==>
      after[w].d == seeded[w].d + Adjoint(after, Elems(topo[i..]), w, |after|)
  {
    var c := topo[i];
    var E := Elems(topo[i + 1..]);
    LaterNotParent(s0, topo, i);
    assert before[c].parents == s0[c].parents;
    forall x | x in E && x < |before|
      ensures before[x].d == after[x].d
    {
      ContributionOnlyParents(before, c, x);
    }
    ContributionOnlyParents(before, c, c);
    assert SameShape(before, after);
    forall w | 0 <= w < |after|
      ensures after[w].d == seeded[w].d + Adjoint(after, Elems(topo[i..]), w, |after|)
    {
      AdjointFrame(before, after, E, w, |before|);
      ContributionFrame(before, after, c, w);
      AdjointInsert(after, E, c, w, |after|);
    }
  }
}
