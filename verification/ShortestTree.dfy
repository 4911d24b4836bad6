/**
 The cached shortest-path tree of one goal: when it is exact, and what its next hops
 then spell (code/gsc_graph.cpp, 711-731).
 */
module ShortestTree {
  import opened GraphTypes

  /** The largest float: the cost of a node that has no walk to the goal. */
  const FLT_MAX: real := 340282346638528859811704183484516925440.0

  /** For every node the cost to the goal and the next hop toward it, -1 for none. */
  datatype Tree = Tree(cost: seq<real>, hop: seq<int>)

  // ---- the specification -------------------------------------------------------

  /** Nothing costs less than the tree says. */
  ghost predicate LowerBound(nodes: seq<Node<real>>, rules: Rules, goal: nat, cost: seq<real>, u: nat)
    requires u < |cost|
  {
    forall steps :: IsWalk(nodes, rules, u, steps, goal) ==> cost[u] <= WalkCost(nodes, rules, u, steps, goal)
  }

  /** v's hop is over an allowed edge, and v's cost is that edge's on top of the next node's. */
  ghost predicate HopPays(nodes: seq<Node<real>>, rules: Rules, t: Tree, v: nat) {
    && v < |t.cost| && v < |t.hop| && 0 <= t.hop[v] < |t.cost|
    && exists i: nat :: Allowed(nodes, rules, v, i) && nodes[v].edges[i].to == t.hop[v]
                        && t.cost[v] == t.cost[t.hop[v]] + nodes[v].edges[i].cost
  }

  /** v's hop is paid, and leads down the ranking to a node of known cost. */
  ghost predicate Descends(nodes: seq<Node<real>>, rules: Rules, t: Tree, rank: map<int, nat>, v: nat) {
    && HopPays(nodes, rules, t, v)
    && t.cost[t.hop[v]] < FLT_MAX
    && v in rank && t.hop[v] in rank && rank[t.hop[v]] < rank[v]
  }

  ghost predicate Shaped(nodes: seq<Node<real>>, goal: nat, t: Tree) {
    && |t.cost| == |t.hop| == |nodes| && goal < |nodes|
    && t.cost[goal] == 0.0 && t.hop[goal] == -1
    && forall v :: 0 <= v < |nodes| ==> 0.0 <= t.cost[v] <= FLT_MAX && -1 <= t.hop[v] < |nodes|
  }

  /** Every node of known cost has a paid hop, and the hops lead down a ranking to the goal. */
  ghost predicate Ranked(nodes: seq<Node<real>>, rules: Rules, goal: nat, t: Tree, rank: map<int, nat>)
    requires Shaped(nodes, goal, t)
  {
    && (forall v :: v in rank ==> rank[v] < |nodes|)
    && forall v {:trigger Descends(nodes, rules, t, rank, v)} ::
      0 <= v < |nodes| && v != goal && t.cost[v] < FLT_MAX ==> Descends(nodes, rules, t, rank, v)
  }

  /** The tree is exact: its costs are least, and its hops reach the goal at those costs. */
  ghost predicate Exact(nodes: seq<Node<real>>, rules: Rules, goal: nat, t: Tree) {
    && Shaped(nodes, goal, t)
    && (forall u :: 0 <= u < |nodes| ==> LowerBound(nodes, rules, goal, t.cost, u))
    && exists rank :: Ranked(nodes, rules, goal, t, rank)
  }

  /** The hops followed from `cur`, the goal included; `fuel` bounds the length. */
  function Follow(t: Tree, goal: nat, cur: nat, fuel: nat): seq<nat>
    requires cur < |t.hop| && forall v :: 0 <= v < |t.hop| ==> t.hop[v] < |t.hop|
    decreases fuel
  {
    if fuel == 0 then []
    else if cur == goal || t.hop[cur] < 0 then [cur]
    else [cur] + Follow(t, goal, t.hop[cur], fuel - 1)
  }

  // ---- what an exact tree answers ----------------------------------------------

  lemma {:induction false} FollowIsWalk(nodes: seq<Node<real>>, rules: Rules, goal: nat, t: Tree,
      rank: map<int, nat>, u: nat, fuel: nat)
    returns (steps: seq<Step>)
    requires Shaped(nodes, goal, t) && Ranked(nodes, rules, goal, t, rank)
    requires u < |nodes| && t.cost[u] < FLT_MAX
    requires fuel > (if u in rank then rank[u] else 0)
    ensures IsWalk(nodes, rules, u, steps, goal)
    ensures Visits(nodes, rules, u, steps, goal) == Follow(t, goal, u, fuel)
    ensures WalkCost(nodes, rules, u, steps, goal) == t.cost[u]
    ensures Simple(Follow(t, goal, u, fuel))
    ensures forall x :: x in Follow(t, goal, u, fuel) ==> x == u || (u in rank && x in rank && rank[x] < rank[u])
    decreases fuel
  {
    if u == goal {
      steps := [];
    } else {
      assert Descends(nodes, rules, t, rank, u);
      var v := t.hop[u];
      var i: nat :| Allowed(nodes, rules, u, i) && nodes[u].edges[i].to == v
                    && t.cost[u] == t.cost[v] + nodes[u].edges[i].cost;
      var rest := FollowIsWalk(nodes, rules, goal, t, rank, v, fuel - 1);
      steps := [Step(u, i)] + rest;
      assert steps[1..] == rest;
    }
  }
}
