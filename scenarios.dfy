/** Small clients of the engine: each builds a graph on a fresh arena, runs
    the backward pass, and reads values and gradients back. The proofs read
    the gradients off the adjoint equation `Backward` guarantees. */
module Scenarios {
  import opened Variables
  import opened Reachability
  import opened Adjoints
  import opened AutoDiff

  /** `y = a + b` at a = 2, b = 3: y is 5 and both leaves receive 1. */
  method AddScenario() returns (y: real, da: real, db: real)
    ensures y == 5.0 && da == 1.0 && db == 1.0
  {
    var t := new Tape();
    var a := t.NewVariable(2.0, [], "a");
    var b := t.NewVariable(3.0, [], "b");
    var out := t.Add(a, b);
    ghost var s0 := t.nodes;
    t.Backward(out);
    assert out in Reach(s0, out);
    AdjointLeaves(t.nodes, Reach(s0, out), a, 2);
    AdjointLeaves(t.nodes, Reach(s0, out), b, 2);
    y, da, db := t.GetData(out), t.GetGrad(a), t.GetGrad(b);
  }

  /** Gradients are not reset between passes: running the backward pass of
      `a + b` twice leaves 2 in both leaves, while the root is re-seeded
      with 1. */
  method BackwardTwiceScenario() returns (da: real, db: real, dy: real)
    ensures da == 2.0 && db == 2.0 && dy == 1.0
  {
    var t := new Tape();
    var a := t.NewVariable(2.0, [], "a");
    var b := t.NewVariable(3.0, [], "b");
    var out := t.Add(a, b);
    ghost var s0 := t.nodes;
    t.Backward(out);
    assert out in Reach(s0, out);
    AdjointLeaves(t.nodes, Reach(s0, out), a, 2);
    AdjointLeaves(t.nodes, Reach(s0, out), b, 2);
    ghost var s1 := t.nodes;
    t.Backward(out);
    assert out in Reach(s1, out);
    AdjointLeaves(t.nodes, Reach(s1, out), a, 2);
    AdjointLeaves(t.nodes, Reach(s1, out), b, 2);
    da, db, dy := t.GetGrad(a), t.GetGrad(b), t.GetGrad(out);
  }

  /** `y = a - b` at a = 2, b = 3: y is -1, a receives 1 and b receives -1. */
  method SubScenario() returns (y: real, da: real, db: real)
    ensures y == -1.0 && da == 1.0 && db == -1.0
  {
    var t := new Tape();
    var a := t.NewVariable(2.0, [], "a");
    var b := t.NewVariable(3.0, [], "b");
    var out := t.Sub(a, b);
    ghost var s0 := t.nodes;
    t.Backward(out);
    assert out in Reach(s0, out);
    AdjointLeaves(t.nodes, Reach(s0, out), a, 2);
    AdjointLeaves(t.nodes, Reach(s0, out), b, 2);
    y, da, db := t.GetData(out), t.GetGrad(a), t.GetGrad(b);
  }

  /** `y = x * x` at x = 3: both operand slots hold x, so x receives both
      shares, 2x = 6. */
  method SquareScenario() returns (y: real, dx: real)
    ensures y == 9.0 && dx == 6.0
  {
    var t := new Tape();
    var x := t.NewVariable(3.0, [], "x");
    var out := t.Mul(x, x);
    ghost var s0 := t.nodes;
    t.Backward(out);
    assert out in Reach(s0, out);
    AdjointLeaves(t.nodes, Reach(s0, out), x, 1);
    y, dx := t.GetData(out), t.GetGrad(x);
  }

  /** `y = x ** 3` at x = 2: y is 8 and x receives 3x^2 = 12. */
  method PowScenario() returns (y: real, dx: real)
    ensures y == 8.0 && dx == 12.0
  {
    var t := new Tape();
    var x := t.NewVariable(2.0, [], "x");
    var out := t.Pow(x, 3);
    ghost var s0 := t.nodes;
    t.Backward(out);
    assert out in Reach(s0, out);
    AdjointLeaves(t.nodes, Reach(s0, out), x, 1);
    y, dx := t.GetData(out), t.GetGrad(x);
  }

  /** ReLU at the boundary x = 0: the value is 0 and, since x > 0 fails,
      x receives nothing. */
  method ReLUAtZeroScenario() returns (y: real, dx: real)
    ensures y == 0.0 && dx == 0.0
  {
    var t := new Tape();
    var x := t.NewVariable(0.0, [], "x");
    var out := t.ReLU(x);
    ghost var s0 := t.nodes;
    t.Backward(out);
    assert out in Reach(s0, out);
    AdjointLeaves(t.nodes, Reach(s0, out), x, 1);
    y, dx := t.GetData(out), t.GetGrad(x);
  }

  /** LeakyReLU with alpha = 0.5 at x = -2: the value is -1 and x receives
      alpha. */
  method LeakyReLUScenario() returns (y: real, dx: real)
    ensures y == -1.0 && dx == 0.5
  {
    var t := new Tape();
    var x := t.NewVariable(-2.0, [], "x");
    var out := t.LeakyReLU(x, 0.5);
    ghost var s0 := t.nodes;
    t.Backward(out);
    assert out in Reach(s0, out);
    AdjointLeaves(t.nodes, Reach(s0, out), x, 1);
    y, dx := t.GetData(out), t.GetGrad(x);
  }

  /** Fan-out across nodes: `q = x*x + x` at x = 2. x feeds both the product
      and the sum, and receives the sum of the two paths, 2x + 1 = 5. */
  method FanOutScenario() returns (y: real, dx: real)
    ensures y == 6.0 && dx == 5.0
  {
    var t := new Tape();
    var x := t.NewVariable(2.0, [], "x");
    var p := t.Mul(x, x);
    var out := t.Add(p, x);
    ghost var s0 := t.nodes;
    t.Backward(out);
    ghost var R := Reach(s0, out);
    assert out in R;
    ParentInReachParents(s0, out, 0, 2);
    AdjointLeaves(t.nodes, R, x, 1);
    AdjointLeaves(t.nodes, R, p, 1);
    assert p in R;
    assert Adjoint(t.nodes, R, p, 2) == 0.0;
    assert Contribution(t.nodes, out, p) == 1.0;
    assert t.nodes[p].d == 1.0;
    assert Contribution(t.nodes, p, x) == 4.0;
    assert Adjoint(t.nodes, R, x, 2) == 4.0;
    assert Contribution(t.nodes, out, x) == 1.0;
    y, dx := t.GetData(out), t.GetGrad(x);
  }

  /** `y = (x1 - x2) / (x1 * x2)` at x1 = 3, x2 = 4, with the quotient
      built as a product with a reciprocal: y is -1/12, x1 receives
      1/x1^2 = 1/9 and x2 receives -1/x2^2 = -1/16. */
  method QuotientScenario() returns (y: real, dx1: real, dx2: real)
    ensures y == -1.0 / 12.0 && dx1 == 1.0 / 9.0 && dx2 == -1.0 / 16.0
  {
    var t := new Tape();
    var x1 := t.NewVariable(3.0, [], "x1");
    var x2 := t.NewVariable(4.0, [], "x2");
    var diff := t.Sub(x1, x2);
    var prod := t.Mul(x1, x2);
    var out := t.Div(diff, prod);
    assert NatPower(12.0, 1) == 12.0;
    ghost var s0 := t.nodes;
    assert QuotientGraph(s0);
    t.Backward(out);
    QuotientGradients(s0, t.nodes);
    y, dx1, dx2 := t.GetData(out), t.GetGrad(x1), t.GetGrad(x2);
  }

  /** The arena the quotient scenario builds, all gradients still 0. */
  ghost predicate QuotientGraph(s: seq<Variable>)
  {
    |s| == 6 && WellFormed(s) &&
    s[0].d == 0.0 && s[1].d == 0.0 && s[2].d == 0.0 && s[3].d == 0.0 && s[4].d == 0.0 && s[5].d == 0.0 &&
    s[0].f == 3.0 && s[0].rule == NoRule &&
    s[1].f == 4.0 && s[1].rule == NoRule &&
    s[2].f == -1.0 && s[2].rule == SubRule && s[2].parents == [0, 1] &&
    s[3].f == 12.0 && s[3].rule == MulRule && s[3].parents == [0, 1] &&
    s[4].f == 1.0 / 12.0 && s[4].rule == PowRule(-1) && s[4].parents == [3] &&
    s[5].f == -1.0 / 12.0 && s[5].rule == MulRule && s[5].parents == [2, 4]
  }

  /** The gradients the adjoint equation forces on that arena. */
  lemma QuotientGradients(s0: seq<Variable>, s: seq<Variable>)
    requires QuotientGraph(s0) && SameShape(s0, s)
    requires forall w :: 0 <= w < |s| ==> s[w].d == Seed(s0, 5, w) + Adjoint(s, Reach(s0, 5), w, |s|)
    ensures s[0].d == 1.0 / 9.0 && s[1].d == -1.0 / 16.0
  {
    SameShapeWellFormed(s0, s);
    var R := Reach(s0, 5);
    assert 5 in R;
    ParentInReachParents(s0, 5, 0, 2);
    ParentInReachParents(s0, 5, 1, 2);
    ParentInReachParents(s0, 4, 0, 1);
    assert 2 in R && 4 in R && 3 in R;
    AdjointLeaves(s, R, 0, 2);
    AdjointLeaves(s, R, 1, 2);
    AdjointLeaves(s, R, 2, 2);
    AdjointLeaves(s, R, 3, 2);
    AdjointLeaves(s, R, 4, 2);
    AdjointNotParent(s, R, 5, 6);
    assert s[5].d == 1.0;
    AdjointNotParent(s, R, 4, 5);
    assert Contribution(s, 5, 4) == -1.0;
    assert s[4].d == -1.0;
    assert Power(12.0, -2) == 1.0 / 144.0 by {
      assert NatPower(12.0, 2) == 144.0;
    }
    AdjointNotParent(s, R, 3, 4);
    assert Contribution(s, 4, 3) == 1.0 / 144.0;
    assert Adjoint(s, R, 3, 5) == 1.0 / 144.0;
    assert Contribution(s, 5, 3) == 0.0;
    assert s[3].d == 1.0 / 144.0;
    AdjointNotParent(s, R, 2, 3);
    assert Adjoint(s, R, 2, 5) == 0.0;
    assert Contribution(s, 5, 2) == 1.0 / 12.0;
    assert s[2].d == 1.0 / 12.0;
    assert Adjoint(s, R, 0, 4) == 1.0 / 12.0 + 4.0 / 144.0;
    assert Adjoint(s, R, 1, 4) == -1.0 / 12.0 + 3.0 / 144.0;
    assert Adjoint(s, R, 0, 6) == 1.0 / 9.0;
    assert Adjoint(s, R, 1, 6) == -1.0 / 16.0;
  }
}
