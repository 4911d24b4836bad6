/**
 What removing a node means to the paths (code/gsc_graph.cpp, 1888-1949): the
 walks that are left are exactly the walks that avoid the node, at their old
 costs, so removing a node and skipping it in every query are the same.
 */
module NodeRemoval {
  import opened GraphTypes
  import opened GraphEdits

  function Avoiding(rules: Rules, id: nat): Rules {
    rules.(skip := rules.skip + {id})
  }

  /** Two walks that visit the same nodes at the same cost. */
  ghost predicate SameTrip(was: seq<Node<real>>, wasRules: Rules, now: seq<Node<real>>, nowRules: Rules,
                           a: nat, s: seq<Step>, t: seq<Step>, b: nat) {
    && IsWalk(was, wasRules, a, s, b) && IsWalk(now, nowRules, a, t, b)
    && WalkCost(was, wasRules, a, s, b) == WalkCost(now, nowRules, a, t, b)
    && Visits(was, wasRules, a, s, b) == Visits(now, nowRules, a, t, b)
  }

  /** An edge of the purged graph is an old edge that avoids the node. */
  lemma EdgeWasThere(nodes: seq<Node<real>>, rules: Rules, id: nat, u: nat, i: nat) returns (k: nat)
    requires TargetsInRange(nodes) && id < |nodes| && u != id && Allowed(Purge(nodes, id), rules, u, i)
    ensures Allowed(nodes, Avoiding(rules, id), u, k) && nodes[u].edges[k] == Purge(nodes, id)[u].edges[i]
  {
    assert Purge(nodes, id)[u].edges[i] in Without(nodes[u].edges, id);
    k :| 0 <= k < |nodes[u].edges| && nodes[u].edges[k] == Purge(nodes, id)[u].edges[i];
  }

  /** An old edge that avoids the node is still there. */
  lemma EdgeIsThere(nodes: seq<Node<real>>, rules: Rules, id: nat, u: nat, k: nat) returns (i: nat)
    requires TargetsInRange(nodes) && id < |nodes| && u != id && Allowed(nodes, Avoiding(rules, id), u, k)
    ensures Allowed(Purge(nodes, id), rules, u, i) && nodes[u].edges[k] == Purge(nodes, id)[u].edges[i]
  {
    assert nodes[u].edges[k] in Without(nodes[u].edges, id);
    i :| 0 <= i < |Without(nodes[u].edges, id)| && Without(nodes[u].edges, id)[i] == nodes[u].edges[k];
  }

  lemma {:induction false} PurgedWalkAvoids(nodes: seq<Node<real>>, rules: Rules, id: nat, a: nat, steps: seq<Step>,
      b: nat)
    returns (mine: seq<Step>)
    requires TargetsInRange(nodes) && id < |nodes| && a != id
    requires IsWalk(Purge(nodes, id), rules, a, steps, b)
    ensures SameTrip(Purge(nodes, id), rules, nodes, Avoiding(rules, id), a, steps, mine, b)
    decreases |steps|
  {
    if steps == [] {
      mine := [];
    } else {
      var k := EdgeWasThere(nodes, rules, id, a, steps[0].index);
      var rest := PurgedWalkAvoids(nodes, rules, id, nodes[a].edges[k].to, steps[1..], b);
      mine := [Step(a, k)] + rest;
      assert mine[1..] == rest;
    }
  }

  lemma {:induction false} AvoidingWalkSurvives(nodes: seq<Node<real>>, rules: Rules, id: nat, a: nat,
      steps: seq<Step>, b: nat)
    returns (mine: seq<Step>)
    requires TargetsInRange(nodes) && id < |nodes| && a != id
    requires IsWalk(nodes, Avoiding(rules, id), a, steps, b)
    ensures SameTrip(nodes, Avoiding(rules, id), Purge(nodes, id), rules, a, steps, mine, b)
    decreases |steps|
  {
    if steps == [] {
      mine := [];
    } else {
      var i := EdgeIsThere(nodes, rules, id, a, steps[0].index);
      var rest := AvoidingWalkSurvives(nodes, rules, id, nodes[a].edges[steps[0].index].to, steps[1..], b);
      mine := [Step(a, i)] + rest;
      assert mine[1..] == rest;
    }
  }

  /** A removed node is a node every query skips. */
  lemma RemovingIsSkipping(nodes: seq<Node<real>>, rules: Rules, id: nat, a: nat, ids: seq<nat>, cost: real)
    requires TargetsInRange(nodes) && id < |nodes| && a != id && ids != [] && ids[0] == a
    ensures (exists s :: CostsExactly(Purge(nodes, id), rules, s, ids, cost)) <==>
            (exists s :: CostsExactly(nodes, Avoiding(rules, id), s, ids, cost))
  {
    if s :| CostsExactly(Purge(nodes, id), rules, s, ids, cost) {
      var mine := PurgedWalkAvoids(nodes, rules, id, a, s, ids[|ids| - 1]);
      assert CostsExactly(nodes, Avoiding(rules, id), mine, ids, cost);
    }
    if s :| CostsExactly(nodes, Avoiding(rules, id), s, ids, cost) {
      var mine := AvoidingWalkSurvives(nodes, rules, id, a, s, ids[|ids| - 1]);
      assert CostsExactly(Purge(nodes, id), rules, mine, ids, cost);
    }
  }

  /** The steps spell the ids at this cost. */
  ghost predicate CostsExactly(nodes: seq<Node<real>>, rules: Rules, steps: seq<Step>, ids: seq<nat>, cost: real) {
    Spells(nodes, rules, steps, ids) && WalkCost(nodes, rules, ids[0], steps, ids[|ids| - 1]) == cost
  }
}
