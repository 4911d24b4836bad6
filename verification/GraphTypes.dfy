/**
 Nodes, edges and walks of a waypoint graph (code/gsc_graph.cpp, 21-34).

 The number type is a parameter: searches run on `real` costs, the save file
 holds 32-bit patterns.
 */
module GraphTypes {

  datatype Option<+T> = None | Some(value: T)

  datatype Vec<+Num> = Vec(x: Num, y: Num, z: Num)

  datatype Edge<+Num> = Edge(to: nat, ty: bv32, cost: Num)

  datatype Node<+Num> = Node(origin: Vec<Num>, ty: bv32, removed: bool, edges: seq<Edge<Num>>)

  /** Distance between two origins; its metric laws are stated where they are needed. */
  type Metric = (Vec<real>, Vec<real>) -> real

  /** Every edge leads to a node of the graph. */
  ghost predicate TargetsInRange<Num>(nodes: seq<Node<Num>>) {
    forall u, i :: 0 <= u < |nodes| && 0 <= i < |nodes[u].edges| ==> nodes[u].edges[i].to < |nodes|
  }

  /** Neither end of edge i of u is removed. */
  ghost predicate LiveEdge<Num>(nodes: seq<Node<Num>>, u: nat, i: nat)
    requires TargetsInRange(nodes) && u < |nodes| && i < |nodes[u].edges|
  {
    !nodes[u].removed && !nodes[nodes[u].edges[i].to].removed
  }

  /** No edge starts or ends at a removed node. */
  ghost predicate RemovedIsolated<Num>(nodes: seq<Node<Num>>)
    requires TargetsInRange(nodes)
  {
    forall u, i {:trigger LiveEdge(nodes, u, i)} :: 0 <= u < |nodes| && 0 <= i < |nodes[u].edges| ==>
        LiveEdge(nodes, u, i)
  }

  function EdgeTotal<Num>(nodes: seq<Node<Num>>): nat {
    if nodes == [] then 0 else EdgeTotal(nodes[..|nodes| - 1]) + |nodes[|nodes| - 1].edges|
  }

  /** A type is filtered when it shares a bit with a non-zero mask. */
  predicate Masked(ty: bv32, mask: bv32) {
    mask != 0 && ty & mask != 0
  }

  /** What one query may not use: node types, edge types and single nodes. */
  datatype Rules = Rules(nodeMask: bv32, edgeMask: bv32, skip: set<nat>)

  /** The i-th edge of u may be followed. */
  predicate Allowed(nodes: seq<Node<real>>, rules: Rules, u: nat, i: nat) {
    && u < |nodes| && i < |nodes[u].edges|
    && var e := nodes[u].edges[i];
    && !Masked(e.ty, rules.edgeMask)
    && e.to < |nodes|
    && !Masked(nodes[e.to].ty, rules.nodeMask)
    && e.to !in rules.skip
  }

  /** One hop: the edge at `index` of `from`. Parallel edges are different steps. */
  datatype Step = Step(from: nat, index: nat)

  function Target(nodes: seq<Node<real>>, s: Step): nat
    requires s.from < |nodes| && s.index < |nodes[s.from].edges|
  {
    nodes[s.from].edges[s.index].to
  }

  function StepCost(nodes: seq<Node<real>>, s: Step): real
    requires s.from < |nodes| && s.index < |nodes[s.from].edges|
  {
    nodes[s.from].edges[s.index].cost
  }

  /** The steps lead from a to b over allowed edges only; the first node is not filtered. */
  ghost predicate IsWalk(nodes: seq<Node<real>>, rules: Rules, a: nat, steps: seq<Step>, b: nat)
    decreases |steps|
  {
    if steps == [] then a == b && a < |nodes|
    else
      && steps[0].from == a
      && Allowed(nodes, rules, a, steps[0].index)
      && IsWalk(nodes, rules, Target(nodes, steps[0]), steps[1..], b)
  }

  ghost function WalkCost(nodes: seq<Node<real>>, rules: Rules, a: nat, steps: seq<Step>, b: nat): real
    requires IsWalk(nodes, rules, a, steps, b)
    decreases |steps|
  {
    if steps == [] then 0.0
    else StepCost(nodes, steps[0]) + WalkCost(nodes, rules, Target(nodes, steps[0]), steps[1..], b)
  }

  /** The node ids a walk visits, first and last included. */
  ghost function Visits(nodes: seq<Node<real>>, rules: Rules, a: nat, steps: seq<Step>, b: nat): (ids: seq<nat>)
    requires IsWalk(nodes, rules, a, steps, b)
    ensures |ids| == |steps| + 1 && ids[0] == a && ids[|steps|] == b
    decreases |steps|
  {
    if steps == [] then [a] else [a] + Visits(nodes, rules, Target(nodes, steps[0]), steps[1..], b)
  }

  /** The ids are the nodes the steps visit, in order. */
  ghost predicate Spells(nodes: seq<Node<real>>, rules: Rules, steps: seq<Step>, ids: seq<nat>) {
    && ids != []
    && IsWalk(nodes, rules, ids[0], steps, ids[|ids| - 1])
    && Visits(nodes, rules, ids[0], steps, ids[|ids| - 1]) == ids
  }

  ghost predicate Reachable(nodes: seq<Node<real>>, rules: Rules, a: nat, b: nat) {
    exists steps :: IsWalk(nodes, rules, a, steps, b)
  }

  ghost predicate Simple(ids: seq<nat>) {
    forall i, j :: 0 <= i < j < |ids| ==> ids[i] != ids[j]
  }

  ghost predicate NonNegativeCosts(nodes: seq<Node<real>>) {
    forall u, i :: 0 <= u < |nodes| && 0 <= i < |nodes[u].edges| ==> nodes[u].edges[i].cost >= 0.0
  }

  /** Appending an allowed edge to a walk. */
  lemma {:induction false} ExtendWalk(nodes: seq<Node<real>>, rules: Rules, a: nat, steps: seq<Step>, u: nat, i: nat)
    requires IsWalk(nodes, rules, a, steps, u) && Allowed(nodes, rules, u, i)
    ensures IsWalk(nodes, rules, a, steps + [Step(u, i)], nodes[u].edges[i].to)
    ensures WalkCost(nodes, rules, a, steps + [Step(u, i)], nodes[u].edges[i].to) ==
            WalkCost(nodes, rules, a, steps, u) + nodes[u].edges[i].cost
    ensures Visits(nodes, rules, a, steps + [Step(u, i)], nodes[u].edges[i].to) ==
            Visits(nodes, rules, a, steps, u) + [nodes[u].edges[i].to]
    decreases |steps|
  {
    var more := steps + [Step(u, i)];
    if steps == [] {
      assert more[1..] == [];
    } else {
      ExtendWalk(nodes, rules, Target(nodes, steps[0]), steps[1..], u, i);
      assert more[1..] == steps[1..] + [Step(u, i)];
    }
  }

  lemma {:induction false} NodesBelow(n: nat, s: set<nat>)
    requires forall v :: v in s ==> v < n
    ensures |s| <= n
  {
    if n > 0 {
      assert s <= (s - {n - 1}) + {n - 1};
      NodesBelow(n - 1, s - {n - 1});
    }
  }
}
