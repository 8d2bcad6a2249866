/** The engine of ad/ad.go: node construction, the operation library, and
    the backward pass, over an arena of nodes.

    Each Go `*Variable` is an index into `nodes`. The process-wide counter
    `identifier` (ad/ad.go:12) is a field of the arena. A closure installed
    by an operation is the `Rule` tag of the node it built; `RunRule` runs
    it. */
module AutoDiff {
  import opened Variables
  import opened Reachability
  import opened Topo
  import opened Adjoints

  class Tape {
    var nodes: seq<Variable>
    var identifier: int

    /** The arena is well formed and every node was named after a distinct
        earlier value of the counter, in creation order. */
    ghost predicate Valid()
      reads this
    {
      WellFormed(nodes) && identifier >= 1 &&
      (forall i :: 0 <= i < |nodes| ==> nodes[i].name < identifier) &&
      (forall i, j :: 0 <= i < j < |nodes| ==> nodes[i].name < nodes[j].name)
    }

    constructor ()
      ensures Valid() && nodes == [] && identifier == 1
    {
      nodes := [];
      identifier := 1;
    }

    /** A new node with gradient 0, no backward rule, the given parents, and
        the counter's current value as its name; the counter moves on. */
    method NewVariable(f: real, parents: seq<nat>, op: string) returns (v: nat)
      requires Valid()
      requires forall k :: 0 <= k < |parents| ==> parents[k] < |nodes|
      modifies this
      ensures Valid() && identifier == old(identifier) + 1
      ensures v == |old(nodes)|
      ensures nodes == old(nodes) + [Variable(f, 0.0, op, NoRule, parents, old(identifier))]
      ensures forall i :: 0 <= i < v ==> nodes[i].name < nodes[v].name
    {
      v := |nodes|;
      nodes := nodes + [Variable(f, 0.0, op, NoRule, parents, identifier)];
      identifier := identifier + 1;
    }

    /** The current value of node `v`. */
    function GetData(v: nat): (r: real)
      reads this
      requires v < |nodes|
      ensures r == nodes[v].f
    {
      nodes[v].f
    }

    method SetData(v: nat, f: real)
      requires Valid() && v < |nodes|
      modifies this
      ensures Valid() && identifier == old(identifier)
      ensures nodes == old(nodes)[v := old(nodes)[v].(f := f)]
      ensures GetData(v) == f
    {
      nodes := nodes[v := nodes[v].(f := f)];
    }

    /** The current gradient of node `v`. */
    function GetGrad(v: nat): (r: real)
      reads this
      requires v < |nodes|
      ensures r == nodes[v].d
    {
      nodes[v].d
    }

    method SetGrad(v: nat, d: real)
      requires Valid() && v < |nodes|
      modifies this
      ensures Valid() && identifier == old(identifier)
      ensures nodes == old(nodes)[v := old(nodes)[v].(d := d)]
      ensures GetGrad(v) == d
    {
      nodes := nodes[v := nodes[v].(d := d)];
    }

    /** The current op label of node `v`. */
    function GetOp(v: nat): (r: string)
      reads this
      requires v < |nodes|
      ensures r == nodes[v].op
    {
      nodes[v].op
    }

    method SetOp(v: nat, op: string)
      requires Valid() && v < |nodes|
      modifies this
      ensures Valid() && identifier == old(identifier)
      ensures nodes == old(nodes)[v := old(nodes)[v].(op := op)]
      ensures GetOp(v) == op
    {
      nodes := nodes[v := nodes[v].(op := op)];
    }

    /** The parents of a node, all created before it. */
    function GetParents(v: nat): (ps: seq<nat>)
      reads this
      requires Valid() && v < |nodes|
      ensures forall k :: 0 <= k < |ps| ==> ps[k] < v
    {
      Parents(nodes, v)
    }

    /** `v.Add(other)`: value v.f + other.f, parents [v, other]. */
    method Add(v: nat, other: nat) returns (out: nat)
      requires Valid() && v < |nodes| && other < |nodes|
      modifies this
      ensures Valid() && identifier == old(identifier) + 1 && out == |old(nodes)|
      ensures nodes == old(nodes) +
        [Variable(old(nodes[v].f) + old(nodes[other].f), 0.0, "+", AddRule, [v, other], old(identifier))]
    {
      out := NewVariable(nodes[v].f + nodes[other].f, [v, other], "+");
      nodes := nodes[out := nodes[out].(rule := AddRule)];
    }

    /** `v.Sub(other)`: value v.f - other.f, parents [v, other]. */
    method Sub(v: nat, other: nat) returns (out: nat)
      requires Valid() && v < |nodes| && other < |nodes|
      modifies this
      ensures Valid() && identifier == old(identifier) + 1 && out == |old(nodes)|
      ensures nodes == old(nodes) +
        [Variable(old(nodes[v].f) - old(nodes[other].f), 0.0, "-", SubRule, [v, other], old(identifier))]
    {
      out := NewVariable(nodes[v].f - nodes[other].f, [v, other], "-");
      nodes := nodes[out := nodes[out].(rule := SubRule)];
    }

    /** `v.Mul(other)`: value v.f * other.f, parents [v, other]. */
    method Mul(v: nat, other: nat) returns (out: nat)
      requires Valid() && v < |nodes| && other < |nodes|
      modifies this
      ensures Valid() && identifier == old(identifier) + 1 && out == |old(nodes)|
      ensures nodes == old(nodes) +
        [Variable(old(nodes[v].f) * old(nodes[other].f), 0.0, "*", MulRule, [v, other], old(identifier))]
    {
      out := NewVariable(nodes[v].f * nodes[other].f, [v, other], "*");
      nodes := nodes[out := nodes[out].(rule := MulRule)];
    }

    /** `v.Pow(k)` for an integer exponent k: value v.f to the k, parent [v]. */
    method Pow(v: nat, k: int) returns (out: nat)
      requires Valid() && v < |nodes|
      modifies this
      ensures Valid() && identifier == old(identifier) + 1 && out == |old(nodes)|
      ensures nodes == old(nodes) +
        [Variable(Power(old(nodes[v].f), k), 0.0, "**", PowRule(k), [v], old(identifier))]
    {
      out := NewVariable(Power(nodes[v].f, k), [v], "**");
      nodes := nodes[out := nodes[out].(rule := PowRule(k))];
    }

    /** `v.Div(other)` is `v.Mul(other.Pow(-1))`: two new nodes, the
        reciprocal of `other` and the product, whose value is v.f / other.f
        when other.f is not 0. */
    method Div(v: nat, other: nat) returns (out: nat)
      requires Valid() && v < |nodes| && other < |nodes|
      modifies this
      ensures Valid() && identifier == old(identifier) + 2 && out == |old(nodes)| + 1
      ensures nodes == old(nodes) +
        [Variable(Power(old(nodes[other].f), -1), 0.0, "**", PowRule(-1), [other], old(identifier)),
         Variable(old(nodes[v].f) * Power(old(nodes[other].f), -1), 0.0, "*", MulRule, [v, out - 1], old(identifier) + 1)]
      ensures old(nodes[other].f) != 0.0 ==> nodes[out].f == old(nodes[v].f) / old(nodes[other].f)
    {
      var inverse := Pow(other, -1);
      ghost var mid := nodes;
      out := Mul(v, inverse);
      assert nodes == old(nodes) + [mid[inverse], nodes[out]];
      assert mid[inverse] == Variable(Power(old(nodes[other].f), -1), 0.0, "**", PowRule(-1), [other], old(identifier));
      assert nodes[out] == Variable(old(nodes[v].f) * Power(old(nodes[other].f), -1), 0.0, "*", MulRule, [v, out - 1], old(identifier) + 1);
      if old(nodes[other].f) != 0.0 {
        PowerMinusOne(old(nodes[other].f));
      }
    }

    /** `x.Identity()`: value x.f, parent [x]. */
    method Identity(x: nat) returns (out: nat)
      requires Valid() && x < |nodes|
      modifies this
      ensures Valid() && identifier == old(identifier) + 1 && out == |old(nodes)|
      ensures nodes == old(nodes) +
        [Variable(old(nodes[x].f), 0.0, "Identity", IdentityRule, [x], old(identifier))]
    {
      out := NewVariable(GetData(x), [x], "Identity");
      nodes := nodes[out := nodes[out].(rule := IdentityRule)];
    }

    /** `x.ReLU()`: value max(0, x.f), parent [x]. */
    method ReLU(x: nat) returns (out: nat)
      requires Valid() && x < |nodes|
      modifies this
      ensures Valid() && identifier == old(identifier) + 1 && out == |old(nodes)|
      ensures nodes == old(nodes) +
        [Variable(ReLUValue(old(nodes[x].f)), 0.0, "ReLU", ReLURule, [x], old(identifier))]
    {
      out := NewVariable(ReLUValue(GetData(x)), [x], "ReLU");
      nodes := nodes[out := nodes[out].(rule := ReLURule)];
    }

    /** `x.LeakyReLU(alpha)`: value max(0, x.f) + alpha*min(0, x.f), parent [x]. */
    method LeakyReLU(x: nat, alpha: real) returns (out: nat)
      requires Valid() && x < |nodes|
      modifies this
      ensures Valid() && identifier == old(identifier) + 1 && out == |old(nodes)|
      ensures nodes == old(nodes) +
        [Variable(LeakyReLUValue(old(nodes[x].f), alpha), 0.0, "LeakyReLU", LeakyReLURule(alpha), [x], old(identifier))]
    {
      out := NewVariable(LeakyReLUValue(GetData(x), alpha), [x], "LeakyReLU");
      nodes := nodes[out := nodes[out].(rule := LeakyReLURule(alpha))];
    }

    /** `p.d += amount`, the statement every closure is made of. */
    method AddGrad(p: nat, amount: real)
      requires Valid() && p < |nodes|
      modifies this
      ensures Valid() && identifier == old(identifier)
      ensures nodes == AddGradAt(old(nodes), p, amount)
    {
      nodes := nodes[p := nodes[p].(d := nodes[p].d + amount)];
      SameShapeWellFormed(old(nodes), nodes);
    }

    /** Runs the closure of node `c`, the one the operation that built `c`
        installed. Calling a nil closure would panic, so `c` must carry a
        rule. */
    method RunRule(c: nat)
      requires Valid() && c < |nodes| && nodes[c].rule != NoRule
      modifies this
      ensures Valid() && identifier == old(identifier)
      ensures nodes == ApplyRule(old(nodes), c)
    {
      match nodes[c].rule
      case AddRule => AddBackward(c);
      case SubRule => SubBackward(c);
      case MulRule => MulBackward(c);
      case PowRule(_) => PowBackward(c);
      case IdentityRule => IdentityBackward(c);
      case ReLURule => ReLUBackward(c);
      case LeakyReLURule(_) => LeakyReLUBackward(c);
    }

    /** The closure of `Add`: `v.d += out.d; other.d += out.d`. */
    method AddBackward(c: nat)
      requires Valid() && c < |nodes| && nodes[c].rule == AddRule
      modifies this
      ensures Valid() && identifier == old(identifier)
      ensures nodes == ApplyRule(old(nodes), c)
    {
      var g, ps := nodes[c].d, nodes[c].parents;
      assert ApplyRule(nodes, c) == AddGradAt(AddGradAt(nodes, ps[0], g), ps[1], g);
      AddGrad(ps[0], g);
      AddGrad(ps[1], g);
    }

    /** The closure of `Sub`: `v.d += out.d; other.d -= out.d`. */
    method SubBackward(c: nat)
      requires Valid() && c < |nodes| && nodes[c].rule == SubRule
      modifies this
      ensures Valid() && identifier == old(identifier)
      ensures nodes == ApplyRule(old(nodes), c)
    {
      var g, ps := nodes[c].d, nodes[c].parents;
      assert ApplyRule(nodes, c) == AddGradAt(AddGradAt(nodes, ps[0], g), ps[1], -g);
      AddGrad(ps[0], g);
      AddGrad(ps[1], -g);
    }

    /** The closure of `Mul`: `v.d += other.f * out.d; other.d += v.f * out.d`. */
    method MulBackward(c: nat)
      requires Valid() && c < |nodes| && nodes[c].rule == MulRule
      modifies this
      ensures Valid() && identifier == old(identifier)
      ensures nodes == ApplyRule(old(nodes), c)
    {
      var g, ps := nodes[c].d, nodes[c].parents;
      var vf, otherf := nodes[ps[0]].f, nodes[ps[1]].f;
      assert FirstAmount(nodes, c) == otherf * g && SecondAmount(nodes, c) == vf * g;
      assert ApplyRule(nodes, c) == AddGradAt(AddGradAt(nodes, ps[0], otherf * g), ps[1], vf * g);
      AddGrad(ps[0], otherf * g);
      AddGrad(ps[1], vf * g);
    }

    /** The closure of `Pow(k)`: `v.d += k * v.f^(k-1) * out.d`. */
    method PowBackward(c: nat)
      requires Valid() && c < |nodes| && nodes[c].rule.PowRule?
      modifies this
      ensures Valid() && identifier == old(identifier)
      ensures nodes == ApplyRule(old(nodes), c)
    {
      var g, ps, k := nodes[c].d, nodes[c].parents, nodes[c].rule.k;
      var amount := (k as real) * Power(nodes[ps[0]].f, k - 1) * g;
      assert FirstAmount(nodes, c) == amount;
      assert ApplyRule(nodes, c) == AddGradAt(nodes, ps[0], amount);
      AddGrad(ps[0], amount);
    }

    /** The closure of `Identity`: `x.d += out.d`. */
    method IdentityBackward(c: nat)
      requires Valid() && c < |nodes| && nodes[c].rule == IdentityRule
      modifies this
      ensures Valid() && identifier == old(identifier)
      ensures nodes == ApplyRule(old(nodes), c)
    {
      var g, ps := GetGrad(c), nodes[c].parents;
      assert ApplyRule(nodes, c) == AddGradAt(nodes, ps[0], g);
      AddGrad(ps[0], g);
    }

    /** The closure of `ReLU`: `x.d += out.d` when `x.f > 0`, nothing
        otherwise. */
    method ReLUBackward(c: nat)
      requires Valid() && c < |nodes| && nodes[c].rule == ReLURule
      modifies this
      ensures Valid() && identifier == old(identifier)
      ensures nodes == ApplyRule(old(nodes), c)
    {
      var g, ps := GetGrad(c), nodes[c].parents;
      if GetData(ps[0]) > 0.0 {
        assert ApplyRule(nodes, c) == AddGradAt(nodes, ps[0], g);
        AddGrad(ps[0], g);
      } else {
        assert ApplyRule(nodes, c) == AddGradAt(nodes, ps[0], 0.0);
        assert nodes == AddGradAt(nodes, ps[0], 0.0);
      }
    }

    /** The closure of `LeakyReLU(alpha)`: `x.d += out.d` when `x.f > 0`,
        `x.d += alpha * out.d` otherwise. */
    method LeakyReLUBackward(c: nat)
      requires Valid() && c < |nodes| && nodes[c].rule.LeakyReLURule?
      modifies this
      ensures Valid() && identifier == old(identifier)
      ensures nodes == ApplyRule(old(nodes), c)
    {
      var g, ps, alpha := GetGrad(c), nodes[c].parents, nodes[c].rule.alpha;
      if GetData(ps[0]) > 0.0 {
        assert ApplyRule(nodes, c) == AddGradAt(nodes, ps[0], g);
        AddGrad(ps[0], g);
      } else {
        assert FirstAmount(nodes, c) == alpha * g;
        assert ApplyRule(nodes, c) == AddGradAt(nodes, ps[0], alpha * g);
        AddGrad(ps[0], alpha * g);
      }
    }

    /** `v.Backward()`: orders what `v` reaches, seeds `v` with gradient 1
        (whatever it held), and runs the rules in reverse order, skipping
        nodes without one. Afterwards every node reached holds its old
        gradient (1 for `v`) plus, for every reached consumer, that
        consumer's local partial derivative times its final gradient: each
        consumer had its gradient complete before its rule fired. Nodes not
        reached keep their gradients, and gradients are not reset between
        passes. */
    method Backward(v: nat)
      requires Valid() && v < |nodes|
      modifies this
      ensures Valid() && identifier == old(identifier) && SameShape(old(nodes), nodes)
      ensures forall w :: 0 <= w < |nodes| ==>
        nodes[w].d == Seed(old(nodes), v, w) + Adjoint(nodes, Reach(old(nodes), v), w, |nodes|)
      ensures nodes[v].d == 1.0
      ensures forall w :: 0 <= w < |nodes| && w !in Reach(old(nodes), v) ==> nodes[w].d == old(nodes[w].d)
    {
      assert Elems([]) == {};
      var topo, visited := BuildTopo(nodes, v, [], {});
      assert Elems(topo) == Reach(old(nodes), v);
      SetGrad(v, 1.0);
      ghost var seeded := nodes;
      SweepStart(old(nodes), seeded, topo);
      var i := |topo|;
      while i > 0
        invariant 0 <= i && Valid() && identifier == old(identifier)
        invariant SweptFrom(old(nodes), seeded, nodes, topo, i)
      {
        i := i - 1;
        SweepStep(old(nodes), seeded, nodes, topo, i);
        if nodes[topo[i]].rule != NoRule {
          RunRule(topo[i]);
        }
      }
      SweepDone(old(nodes), nodes, topo, v);
    }
  }
}
