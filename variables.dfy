/** The node of the computation graph (ad/ad.go `Variable`) and the local
    chain rule each operation attaches to the node it creates.

    The graph is kept in an arena: a node refers to its parents by their
    index in the arena, and every parent index is smaller than the index of
    the node itself, which is how "parents exist before their child" (and so
    acyclicity) is expressed. Go's `float64` is modelled by `real`. */
module Variables {

  /** Which backward rule a node carries. `NoRule` is the nil `backwardfn`
      of a node made directly by `NewVariable`; every other tag stands for
      the closure one operation of the library installs. */
  datatype Rule =
    | NoRule
    | AddRule
    | SubRule
    | MulRule
    | PowRule(k: int)
    | IdentityRule
    | ReLURule
    | LeakyReLURule(alpha: real)

  /** A node: value `f`, gradient `d`, descriptive tag `op`, backward rule,
      parent indices and the counter value it was named after. */
  datatype Variable = Variable(f: real, d: real, op: string, rule: Rule, parents: seq<nat>, name: int)

  /** How many parents the closure of a rule refers to. */
  function Arity(r: Rule): nat
  {
    match r
    case NoRule => 0
    case AddRule => 2
    case SubRule => 2
    case MulRule => 2
    case _ => 1
  }

  /** Every parent index is below its child's index, and a node that carries
      a rule has exactly the parents its closure captured. */
  predicate WellFormed(s: seq<Variable>)
  {
    (forall c, k :: 0 <= c < |s| && 0 <= k < |s[c].parents| ==> s[c].parents[k] < c) &&
    (forall c :: 0 <= c < |s| && s[c].rule != NoRule ==> |s[c].parents| == Arity(s[c].rule))
  }

  /** The parents of node `v` as the walk reads them (`GetParents`), all
      created before `v`. */
  function Parents(s: seq<Variable>, v: nat): (ps: seq<nat>)
    requires WellFormed(s) && v < |s|
    ensures forall k :: 0 <= k < |ps| ==> ps[k] < v
  {
    s[v].parents
  }

  /** `t` differs from `s` at most in the gradients. */
  predicate SameShape(s: seq<Variable>, t: seq<Variable>)
  {
    |s| == |t| && forall j :: 0 <= j < |s| ==> t[j] == s[j].(d := t[j].d)
  }

  lemma SameShapeWellFormed(s: seq<Variable>, t: seq<Variable>)
    requires WellFormed(s) && SameShape(s, t)
    ensures WellFormed(t)
  {
  }

  /** x to the integer power n >= 0. */
  function NatPower(x: real, n: nat): (r: real)
    ensures x != 0.0 ==> r != 0.0
  {
    if n == 0 then 1.0 else x * NatPower(x, n - 1)
  }

  /** `math.Pow(x, k)` for an integer exponent k. Where Go yields an infinity
      (x == 0 and k < 0) the real numbers have no value; 0 stands in. */
  function Power(x: real, k: int): (r: real)
    ensures x != 0.0 ==> r != 0.0
    ensures x == 0.0 && k < 0 ==> r == 0.0
    ensures x == 0.0 && k > 0 ==> r == 0.0
  {
    if k >= 0 then NatPower(x, k)
    else if x == 0.0 then 0.0
    else 1.0 / NatPower(x, -k)
  }

  /** `Pow(-1)` is the reciprocal, which is what `Div` relies on. */
  lemma PowerMinusOne(x: real)
    requires x != 0.0
    ensures Power(x, -1) == 1.0 / x && x * Power(x, -1) == 1.0
  {
    assert NatPower(x, 1) == x * NatPower(x, 0);
  }

  /** One more factor of a nonzero base raises the exponent by one, for
      every integer exponent. This is the law that makes `k * x^(k-1)` the
      derivative the `Pow` closure uses. */
  lemma PowerStep(x: real, k: int)
    requires x != 0.0
    ensures Power(x, k) == x * Power(x, k - 1)
  {
    if k <= 0 {
      var n := NatPower(x, 1 - k);
      assert n == x * NatPower(x, -k);
      assert Power(x, k - 1) == 1.0 / n;
      assert x * (1.0 / n) == 1.0 / NatPower(x, -k);
    }
  }

  /** For a nonzero base, the powers k and -k are reciprocals. */
  lemma PowerInverse(x: real, k: int)
    requires x != 0.0
    ensures Power(x, k) * Power(x, -k) == 1.0
  {
    if k > 0 {
      assert Power(x, -k) == 1.0 / NatPower(x, k);
    } else if k < 0 {
      assert Power(x, k) == 1.0 / NatPower(x, -k);
    }
  }

  /** `math.Max(0, x)`, the value of a ReLU node. */
  function ReLUValue(x: real): (r: real)
    ensures r >= 0.0 && r >= x
    ensures r == 0.0 || r == x
  {
    if 0.0 >= x then 0.0 else x
  }

  /** `math.Min(0, x)`. */
  function NegPart(x: real): (r: real)
    ensures r <= 0.0 && r <= x
    ensures r == 0.0 || r == x
  {
    if 0.0 <= x then 0.0 else x
  }

  /** `max(0,x) + alpha*min(0,x)`, the value of a LeakyReLU node: x on the
      positive side, alpha*x elsewhere. */
  function LeakyReLUValue(x: real, alpha: real): (r: real)
    ensures x > 0.0 ==> r == x
    ensures x <= 0.0 ==> r == alpha * x
  {
    ReLUValue(x) + alpha * NegPart(x)
  }

  /** `amount` when the captured parent `p` is the node `w`, else nothing. */
  function Share(p: nat, w: nat, amount: real): real
  {
    if p == w then amount else 0.0
  }

  /** What the closure of node `c` adds to the gradient of its first
      captured parent: the local partial derivative with respect to that
      operand, times `c`'s gradient. */
  function FirstAmount(s: seq<Variable>, c: nat): real
    requires WellFormed(s) && c < |s| && s[c].rule != NoRule
  {
    var g, ps := s[c].d, s[c].parents;
    match s[c].rule
    case NoRule => 0.0
    case AddRule => g
    case SubRule => g
    case MulRule => s[ps[1]].f * g
    case PowRule(k) => (k as real) * Power(s[ps[0]].f, k - 1) * g
    case IdentityRule => g
    case ReLURule => if s[ps[0]].f > 0.0 then g else 0.0
    case LeakyReLURule(alpha) => if s[ps[0]].f > 0.0 then g else alpha * g
  }

  /** What the closure of a binary node `c` adds to the gradient of its
      second captured parent. */
  function SecondAmount(s: seq<Variable>, c: nat): real
    requires WellFormed(s) && c < |s| && Arity(s[c].rule) == 2
  {
    var g, ps := s[c].d, s[c].parents;
    match s[c].rule
    case SubRule => -g
    case MulRule => s[ps[0]].f * g
    case _ => g
  }

  /** The amount by which running the backward rule of node `c` in state `s`
      adds to the gradient of node `w`. A parent captured twice
      (`x.Mul(x)`) receives both shares. Every share is a multiple of
      `c`'s gradient, so a consumer whose gradient is 0 passes nothing on. */
  function Contribution(s: seq<Variable>, c: nat, w: nat): (r: real)
    requires WellFormed(s) && c < |s|
    ensures s[c].d == 0.0 ==> r == 0.0
  {
    var ps := s[c].parents;
    if s[c].rule == NoRule then 0.0
    else if Arity(s[c].rule) == 1 then Share(ps[0], w, FirstAmount(s, c))
    else Share(ps[0], w, FirstAmount(s, c)) + Share(ps[1], w, SecondAmount(s, c))
  }

  /** The state after `p.d += amount`: only the gradient of `p` moves. */
  function AddGradAt(s: seq<Variable>, p: nat, amount: real): (t: seq<Variable>)
    requires p < |s|
    ensures SameShape(s, t)
    ensures forall w :: 0 <= w < |t| ==> t[w].d == s[w].d + Share(p, w, amount)
  {
    s[p := s[p].(d := s[p].d + amount)]
  }

  /** The state after the closure of node `c` has run: its captured parents
      are updated one after the other. */
  function ApplyRule(s: seq<Variable>, c: nat): (t: seq<Variable>)
    requires WellFormed(s) && c < |s|
    ensures SameShape(s, t)
    ensures forall w :: 0 <= w < |t| ==> t[w].d == s[w].d + Contribution(s, c, w)
  {
    var ps := s[c].parents;
    if s[c].rule == NoRule then s
    else if Arity(s[c].rule) == 1 then AddGradAt(s, ps[0], FirstAmount(s, c))
    else AddGradAt(AddGradAt(s, ps[0], FirstAmount(s, c)), ps[1], SecondAmount(s, c))
  }

  /** A rule only ever writes into the parents it captured. */
  lemma ContributionOnlyParents(s: seq<Variable>, c: nat, w: nat)
    requires WellFormed(s) && c < |s|
    requires forall k :: 0 <= k < |s[c].parents| ==> s[c].parents[k] != w
    ensures Contribution(s, c, w) == 0.0
  {
  }

  /** A rule reads only its own gradient and the values in the graph, so it
      contributes the same in any state that agrees on those. */
  lemma ContributionFrame(s: seq<Variable>, t: seq<Variable>, c: nat, w: nat)
    requires WellFormed(s) && SameShape(s, t) && c < |s| && s[c].d == t[c].d
    ensures WellFormed(t) && Contribution(s, c, w) == Contribution(t, c, w)
  {
  }

  /** Local rules of the binary operations when the two operands are
      different nodes: each operand receives its own share. */
  lemma BinaryContributions(s: seq<Variable>, c: nat)
    requires WellFormed(s) && c < |s| && Arity(s[c].rule) == 2
    requires s[c].parents[0] != s[c].parents[1]
    ensures var ps, g := s[c].parents, s[c].d;
      s[c].rule == AddRule ==> Contribution(s, c, ps[0]) == g && Contribution(s, c, ps[1]) == g
    ensures var ps, g := s[c].parents, s[c].d;
      s[c].rule == SubRule ==> Contribution(s, c, ps[0]) == g && Contribution(s, c, ps[1]) == -g
    ensures var ps, g := s[c].parents, s[c].d;
      s[c].rule == MulRule ==>
        Contribution(s, c, ps[0]) == s[ps[1]].f * g && Contribution(s, c, ps[1]) == s[ps[0]].f * g
  {
  }

  /** Fan-out inside one node: `x.Mul(x)` hands `x` the sum of both shares,
      2*x*g, and `x.Add(x)` hands it 2*g. */
  lemma SelfOperandContributions(s: seq<Variable>, c: nat)
    requires WellFormed(s) && c < |s| && Arity(s[c].rule) == 2
    requires s[c].parents[0] == s[c].parents[1]
    ensures var x, g := s[c].parents[0], s[c].d;
      s[c].rule == MulRule ==> Contribution(s, c, x) == 2.0 * s[x].f * g
    ensures var x, g := s[c].parents[0], s[c].d;
      s[c].rule == AddRule ==> Contribution(s, c, x) == 2.0 * g
    ensures var x := s[c].parents[0];
      s[c].rule == SubRule ==> Contribution(s, c, x) == 0.0
  {
  }

  /** Local rules of the activations: Identity passes the gradient through,
      ReLU passes it only where the input is positive, LeakyReLU scales it
      by alpha elsewhere. With alpha = 0 LeakyReLU is ReLU. */
  lemma ActivationContributions(s: seq<Variable>, c: nat)
    requires WellFormed(s) && c < |s| && Arity(s[c].rule) == 1
    ensures var x, g := s[c].parents[0], s[c].d;
      s[c].rule == IdentityRule ==> Contribution(s, c, x) == g
    ensures var x, g := s[c].parents[0], s[c].d;
      s[c].rule == ReLURule ==> Contribution(s, c, x) == (if s[x].f > 0.0 then g else 0.0)
    ensures var x, g := s[c].parents[0], s[c].d;
      s[c].rule.LeakyReLURule? ==>
        Contribution(s, c, x) == (if s[x].f > 0.0 then g else s[c].rule.alpha * g)
    ensures var x := s[c].parents[0];
      s[c].rule == LeakyReLURule(0.0) ==> Contribution(s, c, x) == Contribution(s[c := s[c].(rule := ReLURule)], c, x)
  {
  }
}
