# Reverse-mode automatic differentiation engine of gonn, in Dafny

This project models the computation-graph engine of `ad/ad.go` in the Go
repository mrtkp9993/gonn and proves its properties with the Dafny verifier.
That engine is the `Variable` node, `NewVariable` and its accessors, the
arithmetic operations `Add`, `Sub`, `Mul`, `Pow` and `Div`, the activations
`Identity`, `ReLU` and `LeakyReLU`, the topological sequencer `buildTopo`, and
the backward pass `Backward`.

How the Go program is represented:

- **Nodes live in an arena.** The class `AutoDiff.Tape` holds the nodes as a
  sequence `nodes: seq<Variable>`. A `*Variable` of the Go program is an index
  into that sequence. Parent references are indices, and every parent index is
  smaller than the index of its child. That is how "parents are created before
  their child" is expressed, and the graph is acyclic because of it.
- **The identifier counter is a field.** The package-level counter
  `identifier` (ad/ad.go:12) is the field `Tape.identifier`. Like the Go
  counter, it starts at 1 and `NewVariable` increments it.
- **Closures become tags.** The closure an operation stores in `backwardfn` is
  a `Rule` tag on the node it built: `AddRule`, `SubRule`, `MulRule`,
  `PowRule(k)`, `IdentityRule`, `ReLURule` or `LeakyReLURule(alpha)`. A nil
  `backwardfn` is `NoRule`. Each closure is a method of `Tape`, such as
  `AddBackward` or `MulBackward`. It performs the same `+=` statements in the
  same order, and it reads values and gradients when it runs, not when it is
  built, exactly as the Go closures do.
- **Gradients are declared separately from the code that computes them.**
  - `Variables.Contribution(s, c, w)` is the amount by which the rule of node
    `c` adds to the gradient of node `w`: the local partial derivative times
    the gradient of `c`. A parent captured twice, as in `x.Mul(x)`, receives
    both shares.
  - `Variables.ApplyRule` is the state after one rule has fired. Each closure
    method is proved to produce exactly that state.
  - `Reachability.Reach` is the set of nodes reachable through parent edges.
  - `Adjoints.Adjoint` sums contributions over a set of consumers.
- **`buildTopo` is a recursive method.** `Topo.BuildTopo` performs the same
  depth-first post-order walk. The Go code shares one `visited` map across
  all calls; here it is a set that each call takes and returns.
- **What `Backward` is proved to compute.** `AutoDiff.Tape.Backward` is proved
  against the adjoint equation of reverse-mode differentiation. After the
  pass, every node's gradient equals its seed plus, for every reachable
  consumer, the consumer's local partial derivative times the consumer's
  final gradient. The seed is 1 for the root and the previous gradient for
  every other node.
- **Go `float64` is modelled as `real`.**

The module `Scenarios` holds client code. Each scenario builds a small graph on
a fresh arena, runs the backward pass and states the exact values and
gradients:

- a sum;
- two passes in a row, where the leaf gradients double;
- a difference;
- `x.Mul(x)`;
- a cube;
- ReLU at 0;
- LeakyReLU on the negative side;
- a fan-out graph;
- the quotient `(x1 - x2) / (x1 * x2)` at 3 and 4, which gives gradients
  1/9 and -1/16.

The accessors `GetData`, `GetGrad` and `GetOp` (ad/ad.go:38-56) are reads of
one field of the node, and each getter returns what its setter just stored.
The Identity, ReLU and LeakyReLU closures read `out.d` through `GetGrad` and
the operand's value through `GetData`, as the Go closures do. They write
through `AddGrad`, where Go writes `x.SetGrad(x.GetGrad() + ...)`; the two
update the gradient the same way. `GetParents` is `Variables.Parents`, which is also what `BuildTopo`
walks.

Two details of the code that a reader might not expect, both of which the
model keeps:

- **A node built by `NewVariable` may have parents but no rule.**
  `NewVariable` takes a parent list, so a node with parents and a nil closure
  can exist. `Backward` still walks through such a node to its parents
  (ad/ad.go:292) and skips its rule (ad/ad.go:306). The model allows this
  case, and the proofs cover it.
- **A leaf takes a parent list and an op label.** `NewVariable` takes both
  (ad/ad.go:23), not just a value.

## Model

| member | source | states |
|---|---|---|
| AutoDiff.Tape.constructor | ad/ad.go:12 | A fresh arena holds no node, and the identifier counter starts at 1. |
| AutoDiff.Tape.NewVariable | ad/ad.go:23-36 | Appends exactly one node with the given value, gradient 0, no backward rule and exactly the given parents. Its name is the counter's current value. The counter goes up by one, so the new name is larger than every earlier name. All existing nodes are unchanged. |
| AutoDiff.Tape.GetData | ad/ad.go:38-40 | Returns the node's current value. |
| AutoDiff.Tape.GetGrad | ad/ad.go:46-48 | Returns the node's current gradient. |
| AutoDiff.Tape.GetOp | ad/ad.go:54-56 | Returns the node's current op label. |
| AutoDiff.Tape.GetParents | ad/ad.go:74-76 | The accessor offered to callers; every parent of a node was created before it. No model code calls it: `BuildTopo` works on the node sequence and reads the same definition, `Variables.Parents`, directly. |
| Variables.Parents | ad/ad.go:292 | The parent list the walk reads; every entry is an earlier node. |
| AutoDiff.Tape.SetData | ad/ad.go:42-44 | Only the value of the given node changes, and `GetData` then returns the new value. |
| AutoDiff.Tape.SetGrad | ad/ad.go:50-52 | Only the gradient of the given node changes, and `GetGrad` then returns the new gradient. |
| AutoDiff.Tape.SetOp | ad/ad.go:58-60 | Only the op label of the given node changes, and `GetOp` then returns the new label. |
| AutoDiff.Tape.Add | ad/ad.go:82-89 | Appends one node with value `v.f + other.f`, parents `[v, other]` in that order, label "+" and the Add rule. Nothing else changes. |
| AutoDiff.Tape.Sub | ad/ad.go:91-98 | Appends one node with value `v.f - other.f`, parents `[v, other]`, label "-" and the Sub rule. Nothing else changes. |
| AutoDiff.Tape.Mul | ad/ad.go:100-107 | Appends one node with value `v.f * other.f`, parents `[v, other]`, label "*" and the Mul rule. Nothing else changes. |
| AutoDiff.Tape.Pow | ad/ad.go:109-115 | Appends one node with value `v.f` to the integer power k, parent `[v]` and the Pow(k) rule. |
| AutoDiff.Tape.Div | ad/ad.go:117-119 | Appends two nodes: the reciprocal `other.Pow(-1)`, then the product of `v` with it. When `other.f` is not 0, the result's value is `v.f / other.f`. |
| AutoDiff.Tape.Identity | ad/ad.go:314-324 | Appends one node with value `x.f`, parent `[x]` and the Identity rule. |
| AutoDiff.Tape.ReLU | ad/ad.go:338-350 | Appends one node with value `max(0, x.f)`, parent `[x]` and the ReLU rule. |
| AutoDiff.Tape.LeakyReLU | ad/ad.go:352-366 | Appends one node with value `max(0, x.f) + alpha*min(0, x.f)`, parent `[x]` and the LeakyReLU(alpha) rule. |
| AutoDiff.Tape.AddGrad | ad/ad.go:85 | `p.d += amount`: only the gradient of `p` moves, and by exactly `amount`. |
| AutoDiff.Tape.AddBackward | ad/ad.go:84-87 | Running the Add closure leaves exactly the state `ApplyRule` describes. |
| AutoDiff.Tape.SubBackward | ad/ad.go:93-96 | Running the Sub closure leaves exactly the state `ApplyRule` describes. |
| AutoDiff.Tape.MulBackward | ad/ad.go:102-105 | Running the Mul closure leaves exactly the state `ApplyRule` describes. The operand values are read when the closure runs. |
| AutoDiff.Tape.PowBackward | ad/ad.go:111-113 | Running the Pow closure leaves exactly the state `ApplyRule` describes. |
| AutoDiff.Tape.IdentityBackward | ad/ad.go:320-322 | Running the Identity closure leaves exactly the state `ApplyRule` describes. |
| AutoDiff.Tape.ReLUBackward | ad/ad.go:344-348 | Running the ReLU closure leaves exactly the state `ApplyRule` describes, including the branch where `x.f <= 0` and no statement runs. |
| AutoDiff.Tape.LeakyReLUBackward | ad/ad.go:358-364 | Running the LeakyReLU closure leaves exactly the state `ApplyRule` describes. |
| AutoDiff.Tape.RunRule | ad/ad.go:306-307 | Invoking a node's non-nil closure changes the arena exactly as `ApplyRule` says. |
| AutoDiff.Tape.Backward | ad/ad.go:300-310 | The root's gradient becomes exactly 1, whatever it held. Every gradient equals its seed plus the sum, over all reachable consumers, of each consumer's contribution computed from final gradients. Nodes the root does not reach keep their gradients. Values, labels, rules and parents do not change. |
| Variables.ReLUValue | ad/ad.go:340 | `max(0, x)` is nonnegative, at least `x`, and equal to 0 or to `x`. |
| Variables.LeakyReLUValue | ad/ad.go:354 | `max(0,x) + alpha*min(0,x)` is `x` when `x > 0` and `alpha*x` otherwise. |
| Variables.Power | ad/ad.go:110-112 | `math.Pow` for an integer exponent: a nonzero base gives a nonzero power, and a zero base with a positive exponent gives 0. For a zero base with a negative exponent Go gives ±Inf (-Inf for a negative-zero base and an odd negative exponent, +Inf otherwise); the model puts 0 in its place. |
| Variables.PowerStep | ad/ad.go:110-112 | For a nonzero base and every integer k, `x^k == x * x^(k-1)`: the law behind the derivative `k*x^(k-1)` of the Pow closure. |
| Variables.PowerInverse | ad/ad.go:110-112 | For a nonzero base, `x^k * x^(-k) == 1` for every integer k. |
| Variables.PowerMinusOne | ad/ad.go:117-119 | For a nonzero base, the power -1 is the reciprocal. |
| Variables.NegPart | ad/ad.go:354 | `math.Min(0, x)` is at most 0 and at most `x`, and equal to 0 or to `x`. |
| Variables.Contribution | ad/ad.go:84-113 | What one closure adds to one node's gradient: the reference definition that `ApplyRule` and `Backward` are stated against. It holds the arithmetic of the Add, Sub, Mul and Pow closures here and of the activation closures at ad/ad.go:320-364. Every share is a multiple of the consumer's gradient, so a consumer with gradient 0 adds nothing. |
| Variables.AddGradAt | ad/ad.go:85 | `p.d += amount` changes no field except the gradient of `p`. It adds `amount` there and nothing anywhere else. |
| Variables.ApplyRule | ad/ad.go:84-87 | Firing a rule changes only gradients. Every node's gradient grows by exactly the rule's contribution to it. |
| Variables.ContributionOnlyParents | ad/ad.go:84-87 | A rule adds nothing to a node it did not capture as a parent. |
| Variables.ContributionFrame | ad/ad.go:102-105 | What a rule adds depends only on its node's own gradient and on the graph's values. |
| Variables.BinaryContributions | ad/ad.go:84-105 | With distinct operands: Add gives `g` to both. Sub gives `g` and `-g`. Mul gives `other.f*g` to `v` and `v.f*g` to `other`. |
| Variables.SelfOperandContributions | ad/ad.go:84-105 | With both operands the same node `x`: `x.Mul(x)` gives `x` the amount `2*x.f*g`. `x.Add(x)` gives `2*g`. `x.Sub(x)` gives 0. |
| Variables.ActivationContributions | ad/ad.go:320-364 | Identity passes `g` through. ReLU passes `g` only when `x > 0`. LeakyReLU passes `g` when `x > 0` and `alpha*g` otherwise. LeakyReLU with alpha 0 acts as ReLU. |
| Reachability.ReachBelow | ad/ad.go:289-298 | Every node reachable from `v` was created no later than `v`. |
| Reachability.ReachClosed | ad/ad.go:292-294 | A set closed under parent edges contains everything reachable from each of its nodes. |
| Reachability.TopoDistinct | ad/ad.go:290-295 | Every node in a list built by the walk is in the arena and appears only once. |
| Reachability.ParentsEarlier | ad/ad.go:292-295 | In such a list, each parent of a node sits at an earlier position. |
| Reachability.LaterNotParent | ad/ad.go:305-307 | No node after position `i` in the list is a parent of the node at `i`. |
| Reachability.TopoParentsIn | ad/ad.go:292-295 | The nodes of the list are closed under parent edges. |
| Reachability.ListedCovered | ad/ad.go:290 | A node already listed has everything it reaches listed too. |
| Reachability.AppendTopo | ad/ad.go:295 | Appending a node after everything its parents reach keeps the list a topological order. The listed set grows by exactly what that node reaches. |
| Topo.BuildTopo | ad/ad.go:289-298 | The returned list is a topological order. It lists exactly the old list plus every node reachable from `v`, each once. The visited set grows by exactly that reach. An already-visited node leaves the list and the set unchanged. Otherwise `v` comes last. |
| Adjoints.AdjointInsert | ad/ad.go:305-309 | Adding one consumer to the set adds exactly its contribution to the sum. |
| Adjoints.AdjointEmpty | ad/ad.go:303 | The sum over no consumers is 0. |
| Adjoints.AdjointFrame | ad/ad.go:305-309 | The sum depends only on the gradients of the consumers in the set. |
| Adjoints.AdjointNotParent | ad/ad.go:305-309 | A node that no consumer in the set has as a parent receives nothing. |
| Adjoints.AdjointLeaves | ad/ad.go:306 | Nodes without a closure add nothing. |
| Adjoints.AdjointAtRoot | ad/ad.go:303 | The root is a parent of nothing it reaches, so it keeps its seed of 1. |
| Adjoints.AdjointOutside | ad/ad.go:305-309 | A node outside a parent-closed set receives nothing from that set. |
| Adjoints.SweepStart | ad/ad.go:301-303 | Before the reverse loop runs, every gradient equals its seed. |
| Adjoints.SweepStep | ad/ad.go:305-309 | Firing `topo[i]`'s rule extends the invariant from the consumers `topo[i+1..]` to `topo[i..]`. |
| Adjoints.PropagateStep | ad/ad.go:305-309 | This is the arithmetic of that step. Every later-fired consumer's gradient was already final when `topo[i]` fired. |
| Adjoints.SweepDone | ad/ad.go:300-310 | After the loop, the adjoint equation holds over everything the root reaches, the root holds 1, and nodes it does not reach are unchanged. |
| Scenarios.AddScenario | ad/ad.go:82-89 | For `y = a + b` at 2 and 3: y is 5, and after `Backward` both a and b hold gradient 1. |
| Scenarios.BackwardTwiceScenario | ad/ad.go:300-310 | A second `Backward` on `a + b` leaves 2 in both leaves and 1 in the root: gradients are not reset between passes. |
| Scenarios.SubScenario | ad/ad.go:91-98 | For `a - b` at 2 and 3: the value is -1, a gets 1 and b gets -1. |
| Scenarios.SquareScenario | ad/ad.go:100-107 | For `x.Mul(x)` at 3: the value is 9 and x gets 6. |
| Scenarios.PowScenario | ad/ad.go:109-115 | For `x.Pow(3)` at 2: the value is 8 and x gets 12. |
| Scenarios.ReLUAtZeroScenario | ad/ad.go:338-350 | For ReLU at 0: the value is 0 and x gets 0. |
| Scenarios.LeakyReLUScenario | ad/ad.go:352-366 | For LeakyReLU with alpha 0.5 at -2: the value is -1 and x gets 0.5. |
| Scenarios.FanOutScenario | ad/ad.go:289-310 | For `x*x + x` at 2: x receives the sum over both paths, 5. |
| Scenarios.QuotientScenario | ad/ad.go:117-119 | For `(x1 - x2) / (x1 * x2)` at 3 and 4: the value is -1/12, x1 gets 1/9 and x2 gets -1/16. |
| Scenarios.QuotientGradients | ad/ad.go:300-310 | On that graph, the adjoint equation forces exactly these gradients. |

## Left out

- `AutoDiff.Tape.Pow` takes an integer exponent. The Go method takes any
  `float64` exponent and labels the node `"**%f"`; the model's label is `"**"`.
- `Variables.Power`: for a zero base and a negative exponent the model gives
  0, where `math.Pow` gives ±Inf (-Inf for a negative-zero base and an odd
  negative exponent, +Inf otherwise); `real` has no infinity and no -0.
- `AutoDiff.Tape.Pow`: a zero base raised to a negative power gives the value
  0 in the model; Go yields ±Inf (-Inf for a negative-zero base, such as
  the product `0 * -2`, and an odd negative exponent). IEEE-754 infinities and NaN have no
  counterpart in `real`, and `Variables.Power` writes the 0 out explicitly.
- `AutoDiff.Tape.Div`: when `other.f` is 0, the reciprocal node holds 0 and
  the product node holds 0. Go stores ±Inf in the reciprocal (-Inf when
  `other.f` is -0, +Inf when it is +0), and ±Inf or NaN in the product:
  NaN when `v.f` is 0, otherwise an infinity whose sign is the product of
  the two signs.
- `AutoDiff.Tape.PowBackward`: at a zero base with an exponent k <= 0, Go
  adds `k * math.Pow(0, k-1) * g`. That is ±Inf, or NaN (when k = 0, or when
  `g == 0`, since 0 times an infinity is NaN). `Backward` then carries it to the
  ancestors that its consumers' rules reach; a ReLU whose input is not
  positive, for one, passes nothing on (ad/ad.go:345). The model adds 0 there. This includes `x.Pow(0)` at x = 0 and
  the reciprocal node of `Div` by zero.
- Values are real numbers, so rounding and overflow of `float64` are not
  modelled.
- The transcendental operations are left out: `Log`, `Logb`, `Exp`, `Root`,
  `Abs`, the trigonometric, inverse trigonometric and hyperbolic functions,
  the error functions and `Sigmoid` (ad/ad.go:121-287 and 326-336). They are
  floating-point library numerics with no exact meaning over the reals.
- `GetBackwardfn` and `SetBackwardfn` (ad/ad.go:62-68) are left out. A closure
  installed by a caller is arbitrary code that cannot be specified. Closures
  exist only as the rule tags of the operations above.
- `String` and `GetName` (ad/ad.go:70-80) are left out because they are
  formatting only. A node keeps the counter value it was named after, not
  the string `"v%d"`.
- The identifier counter is unbounded and belongs to one arena. In Go it is a
  process-wide `int64` that could in principle wrap around.
- `Topo.BuildTopo` does not state that the returned list extends the list it
  was given as a prefix. It only states that the returned list is at least as
  long, and what set it lists.
- Pointer identity and aliasing are represented by indices into one arena.
  Graphs whose nodes come from different arenas cannot be expressed. An index
  cannot be nil either: a nil operand, which panics in Go when `other.f` is
  read (ad/ad.go:83, 92, 101), and a nil entry in a parent list, which panics
  in `buildTopo` when `GetParents` runs on it (ad/ad.go:292, 75), have no
  counterpart in the model.
- Parent lists are immutable values here. Go's `NewVariable` stores the
  caller's slice (ad/ad.go:29) and `GetParents` hands the same slice back
  (ad/ad.go:75), so a caller can rewrite the edges `buildTopo` walks after
  the node is built, even making a node its own parent; `buildTopo` still
  ends because of its visited check. The closures keep the operands they
  captured (ad/ad.go:85-86), which then no longer match the parent list.
  The model identifies each closure's captured operands with the node's
  parents and keeps every parent below its child, so such rewritten graphs
  cannot be expressed.
- `ad/ad_test.go` and `cmd/testapp1/main.go` are not part of this model. Both
  build `x1.Log() + x1*x2 - x2.Sin()` at 2 and 5 and call `Backward` on it;
  the test then logs the result with `t.Log`, and the program prints
  nothing. `Log` and `Sin` are outside the model.
