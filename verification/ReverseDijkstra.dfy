/**
 The loop that fills a shortest-path tree (code/gsc_graph.cpp, 2010-2069), and
 the invariants that make the tree exact when no edge cost is negative.
 */
module ReverseDijkstra {
  import opened EntryHeap
  import opened GraphTypes
  import opened ShortestTree

  /** The tree so far, the settled nodes numbered in the order they were settled, and the frontier. */
  datatype Growth = Growth(t: Tree, settled: map<int, nat>, count: nat, heap: seq<Entry>)

  ghost predicate Setting(nodes: seq<Node<real>>, rules: Rules, goal: nat) {
    TargetsInRange(nodes) && NonNegativeCosts(nodes) && rules.skip == {} && goal < |nodes|
  }

  // ---- invariants ------------------------------------------------------------------

  /** A settled node's cost is final. */
  ghost predicate Final(nodes: seq<Node<real>>, rules: Rules, goal: nat, d: Growth, u: int) {
    && 0 <= u < |nodes| && u < |d.t.cost| && d.t.cost[u] < FLT_MAX
    && LowerBound(nodes, rules, goal, d.t.cost, u)
    && u in d.settled && d.settled[u] < d.count
  }

  ghost predicate AllFinal(nodes: seq<Node<real>>, rules: Rules, goal: nat, d: Growth) {
    forall u {:trigger Final(nodes, rules, goal, d, u)} :: u in d.settled ==> Final(nodes, rules, goal, d, u)
  }

  /** v hangs below a node settled before it. */
  ghost predicate Hangs(nodes: seq<Node<real>>, rules: Rules, d: Growth, v: nat) {
    && HopPays(nodes, rules, d.t, v)
    && d.t.hop[v] in d.settled
    && (v in d.settled ==> d.settled[d.t.hop[v]] < d.settled[v])
  }

  ghost predicate AllHang(nodes: seq<Node<real>>, rules: Rules, goal: nat, d: Growth)
    requires |d.t.cost| == |nodes|
  {
    forall v {:trigger Hangs(nodes, rules, d, v)} ::
      0 <= v < |nodes| && v != goal && d.t.cost[v] < FLT_MAX ==> Hangs(nodes, rules, d, v)
  }

  /** Edge i of u does not offer u a cheaper way through a settled end. */
  ghost predicate Relaxed(nodes: seq<Node<real>>, rules: Rules, d: Growth, u: nat, i: nat)
    requires TargetsInRange(nodes) && |d.t.cost| == |nodes|
  {
    Allowed(nodes, rules, u, i) && nodes[u].edges[i].to in d.settled ==>
      d.t.cost[u] <= d.t.cost[nodes[u].edges[i].to] + nodes[u].edges[i].cost
  }

  /** All edges are relaxed, those into `cur` excepted. */
  ghost predicate RelaxedExcept(nodes: seq<Node<real>>, rules: Rules, d: Growth, cur: int)
    requires TargetsInRange(nodes) && |d.t.cost| == |nodes|
  {
    forall u: nat, i: nat {:trigger Relaxed(nodes, rules, d, u, i)} ::
      Allowed(nodes, rules, u, i) && nodes[u].edges[i].to != cur ==> Relaxed(nodes, rules, d, u, i)
  }

  /** No node still open is cheaper than a settled one. */
  ghost predicate Sorted(nodes: seq<Node<real>>, d: Growth)
    requires |d.t.cost| == |nodes|
  {
    forall u, v :: u in d.settled && 0 <= u < |nodes| && 0 <= v < |nodes| && v !in d.settled ==>
        d.t.cost[u] <= d.t.cost[v]
  }

  ghost predicate Queued(nodes: seq<Node<real>>, d: Growth)
    requires |d.t.cost| == |nodes|
  {
    && IsHeap(d.heap)
    && (forall e :: e in d.heap ==> e.node < |nodes| && e.f < FLT_MAX)
    && forall v :: 0 <= v < |nodes| && v !in d.settled && d.t.cost[v] < FLT_MAX ==> Entry(d.t.cost[v], v) in d.heap
  }

  /** The goal is settled before anything else. */
  ghost predicate GoalFirst(nodes: seq<Node<real>>, goal: nat, d: Growth)
    requires |d.t.cost| == |nodes|
  {
    goal in d.settled || (d.settled.Keys == {} && forall v :: 0 <= v < |nodes| && v != goal ==> d.t.cost[v] == FLT_MAX)
  }

  ghost predicate Numbered(nodes: seq<Node<real>>, d: Growth) {
    |d.settled.Keys| == d.count && forall v :: v in d.settled ==> 0 <= v < |nodes|
  }

  ghost predicate Sound(nodes: seq<Node<real>>, rules: Rules, goal: nat, d: Growth) {
    && Shaped(nodes, goal, d.t)
    && AllFinal(nodes, rules, goal, d)
    && AllHang(nodes, rules, goal, d)
    && Sorted(nodes, d)
    && GoalFirst(nodes, goal, d)
    && Numbered(nodes, d)
  }

  /** Between two turns of the loop. */
  ghost predicate Invariant(nodes: seq<Node<real>>, rules: Rules, goal: nat, d: Growth)
    requires TargetsInRange(nodes)
  {
    Sound(nodes, rules, goal, d) && Queued(nodes, d) && RelaxedExcept(nodes, rules, d, -1)
  }

  /** While the edges into the node settled last are being followed. */
  ghost predicate Relaxing(nodes: seq<Node<real>>, rules: Rules, goal: nat, d: Growth, cur: nat)
    requires TargetsInRange(nodes)
  {
    && Sound(nodes, rules, goal, d) && Queued(nodes, d) && RelaxedExcept(nodes, rules, d, cur)
    && cur in d.settled && goal in d.settled && cur < |nodes|
    && forall u :: u in d.settled && 0 <= u < |nodes| ==> d.t.cost[u] <= d.t.cost[cur]
  }

  // ---- settling a node -------------------------------------------------------------

  /**
   A walk to the goal from a node still open costs at least any bound on the open
   nodes' costs: it enters the settled nodes somewhere, over a relaxed edge.
   */
  lemma {:induction false} OpenWalksCost(nodes: seq<Node<real>>, rules: Rules, goal: nat, d: Growth, bound: real,
                                         u: nat, steps: seq<Step>)
    requires Setting(nodes, rules, goal)
    requires Sound(nodes, rules, goal, d) && RelaxedExcept(nodes, rules, d, -1) && goal in d.settled
    requires forall v :: 0 <= v < |nodes| && v !in d.settled ==> bound <= d.t.cost[v]
    requires IsWalk(nodes, rules, u, steps, goal) && u !in d.settled
    ensures bound <= WalkCost(nodes, rules, u, steps, goal)
    decreases |steps|
  {
    var v := Target(nodes, steps[0]);
    assert Relaxed(nodes, rules, d, u, steps[0].index);
    if v in d.settled {
      assert Final(nodes, rules, goal, d, v);
    } else {
      OpenWalksCost(nodes, rules, goal, d, bound, v, steps[1..]);
    }
  }

  function Settle(d: Growth, cur: nat): Growth
    requires d.heap != []
  {
    Growth(d.t, d.settled[cur := d.count], d.count + 1, Rest(d.heap))
  }

  /** The popped open node is final: nothing that reaches the goal from it is cheaper. */
  lemma PoppedIsFinal(nodes: seq<Node<real>>, rules: Rules, goal: nat, d: Growth)
    requires Setting(nodes, rules, goal) && Invariant(nodes, rules, goal, d) && d.heap != []
    requires d.heap[0].node !in d.settled && d.heap[0].node < |nodes| && d.heap[0].f == d.t.cost[d.heap[0].node]
    ensures LowerBound(nodes, rules, goal, d.t.cost, d.heap[0].node)
    ensures forall v :: 0 <= v < |nodes| && v !in d.settled ==> d.t.cost[d.heap[0].node] <= d.t.cost[v]
    ensures d.t.cost[d.heap[0].node] < FLT_MAX
    ensures goal !in d.settled ==> d.heap[0].node == goal
  {
    var cur := d.heap[0].node;
    PopIsExtractMin(d.heap);
    assert d.heap[0] in d.heap;
    forall v | 0 <= v < |nodes| && v !in d.settled ensures d.t.cost[cur] <= d.t.cost[v] {
      if d.t.cost[v] < FLT_MAX {
        assert Entry(d.t.cost[v], v) in d.heap;
      }
    }
    forall steps | IsWalk(nodes, rules, cur, steps, goal)
      ensures d.t.cost[cur] <= WalkCost(nodes, rules, cur, steps, goal)
    {
      if goal in d.settled {
        OpenWalksCost(nodes, rules, goal, d, d.t.cost[cur], cur, steps);
      } else {
        WalkCostNonNegative(nodes, rules, cur, steps, goal);
      }
    }
  }

  lemma {:induction false} WalkCostNonNegative(nodes: seq<Node<real>>, rules: Rules, a: nat, steps: seq<Step>, b: nat)
    requires NonNegativeCosts(nodes) && IsWalk(nodes, rules, a, steps, b)
    ensures WalkCost(nodes, rules, a, steps, b) >= 0.0
    decreases |steps|
  {
    if steps != [] {
      WalkCostNonNegative(nodes, rules, Target(nodes, steps[0]), steps[1..], b);
    }
  }

  lemma RestKeepsQueued(nodes: seq<Node<real>>, d: Growth)
    requires |d.t.cost| == |nodes| && Queued(nodes, d) && d.heap != []
    ensures IsHeap(Rest(d.heap)) && forall e :: e in Rest(d.heap) ==> e.node < |nodes| && e.f < FLT_MAX
    ensures forall v ::
      0 <= v < |nodes| && v !in d.settled && d.t.cost[v] < FLT_MAX && Entry(d.t.cost[v], v) != d.heap[0] ==>
        Entry(d.t.cost[v], v) in Rest(d.heap)
  {
    PopIsExtractMin(d.heap);
    RestDropsRoot(d.heap);
    RestMembers(d.heap);
    forall v | 0 <= v < |nodes| && v !in d.settled && d.t.cost[v] < FLT_MAX && Entry(d.t.cost[v], v) != d.heap[0]
      ensures Entry(d.t.cost[v], v) in Rest(d.heap)
    {
      assert Entry(d.t.cost[v], v) in multiset(d.heap) - multiset{d.heap[0]};
    }
  }

  /** Dropping an entry of a settled node, or one its node has outgrown, loses nothing. */
  lemma DropKeeps(nodes: seq<Node<real>>, rules: Rules, goal: nat, d: Growth)
    requires Setting(nodes, rules, goal) && Invariant(nodes, rules, goal, d) && d.heap != []
    requires d.heap[0].node < |nodes|
    requires d.heap[0].node in d.settled || d.heap[0].f != d.t.cost[d.heap[0].node]
    ensures Invariant(nodes, rules, goal, d.(heap := Rest(d.heap)))
  {
    var r := d.(heap := Rest(d.heap));
    RestKeepsQueued(nodes, d);
    hide Rest;
    forall u {:trigger Final(nodes, rules, goal, r, u)} | u in r.settled ensures Final(nodes, rules, goal, r, u) {
      assert Final(nodes, rules, goal, d, u);
    }
    forall v {:trigger Hangs(nodes, rules, r, v)} | 0 <= v < |nodes| && v != goal && r.t.cost[v] < FLT_MAX
      ensures Hangs(nodes, rules, r, v)
    {
      assert Hangs(nodes, rules, d, v);
    }
    forall u: nat, i: nat {:trigger Relaxed(nodes, rules, r, u, i)} |
      Allowed(nodes, rules, u, i) && nodes[u].edges[i].to != -1
      ensures Relaxed(nodes, rules, r, u, i)
    {
      assert Relaxed(nodes, rules, d, u, i);
    }
  }

  /** Settling the popped node: it is final, and only edges into it are left to follow. */
  lemma SettleKeeps(nodes: seq<Node<real>>, rules: Rules, goal: nat, d: Growth)
    requires Setting(nodes, rules, goal) && Invariant(nodes, rules, goal, d) && d.heap != []
    requires d.heap[0].node !in d.settled && d.heap[0].node < |nodes| && d.heap[0].f == d.t.cost[d.heap[0].node]
    ensures Relaxing(nodes, rules, goal, Settle(d, d.heap[0].node), d.heap[0].node)
  {
    var cur := d.heap[0].node;
    var r := Settle(d, cur);
    PoppedIsFinal(nodes, rules, goal, d);
    RestKeepsQueued(nodes, d);
    hide Rest;
    assert r.settled.Keys == d.settled.Keys + {cur};
    forall u {:trigger Final(nodes, rules, goal, r, u)} | u in r.settled ensures Final(nodes, rules, goal, r, u) {
      assert u != cur ==> Final(nodes, rules, goal, d, u);
    }
    forall v {:trigger Hangs(nodes, rules, r, v)} | 0 <= v < |nodes| && v != goal && r.t.cost[v] < FLT_MAX
      ensures Hangs(nodes, rules, r, v)
    {
      assert Hangs(nodes, rules, d, v);
      assert Final(nodes, rules, goal, d, d.t.hop[v]);
    }
    assert Sorted(nodes, r);
    assert GoalFirst(nodes, goal, r);
    forall u: nat, i: nat {:trigger Relaxed(nodes, rules, r, u, i)} |
      Allowed(nodes, rules, u, i) && nodes[u].edges[i].to != cur
      ensures Relaxed(nodes, rules, r, u, i)
    {
      assert Relaxed(nodes, rules, d, u, i);
    }
  }

  /** A cheaper way to u through the node settled last. */
  function Lower(d: Growth, cur: nat, u: nat, tentative: real): Growth
    requires u < |d.t.cost| && u < |d.t.hop|
  {
    Growth(Tree(d.t.cost[u := tentative], d.t.hop[u := cur]), d.settled, d.count, Push(d.heap, Entry(tentative, u)))
  }

  /** Lowering a node touches no settled node and not the goal. */
  lemma LoweredIsOpen(nodes: seq<Node<real>>, rules: Rules, goal: nat, d: Growth, cur: nat, u: nat, tentative: real)
    requires Setting(nodes, rules, goal) && Relaxing(nodes, rules, goal, d, cur)
    requires u < |nodes| && d.t.cost[cur] <= tentative < d.t.cost[u]
    ensures u !in d.settled && u != goal && 0.0 <= tentative
  {
  }

  lemma LowerKeepsSound(nodes: seq<Node<real>>, rules: Rules, goal: nat, d: Growth, cur: nat, u: nat, i: nat)
    requires Setting(nodes, rules, goal) && Relaxing(nodes, rules, goal, d, cur)
    requires Allowed(nodes, rules, u, i) && nodes[u].edges[i].to == cur
    requires d.t.cost[cur] + nodes[u].edges[i].cost < d.t.cost[u]
    ensures Sound(nodes, rules, goal, Lower(d, cur, u, d.t.cost[cur] + nodes[u].edges[i].cost))
  {
    hide Push;
    hide Queued;
    hide RelaxedExcept;
    var tentative := d.t.cost[cur] + nodes[u].edges[i].cost;
    var r := Lower(d, cur, u, tentative);
    LoweredIsOpen(nodes, rules, goal, d, cur, u, tentative);
    forall x {:trigger Final(nodes, rules, goal, r, x)} | x in r.settled ensures Final(nodes, rules, goal, r, x) {
      assert Final(nodes, rules, goal, d, x);
    }
    forall v {:trigger Hangs(nodes, rules, r, v)} | 0 <= v < |nodes| && v != goal && r.t.cost[v] < FLT_MAX
      ensures Hangs(nodes, rules, r, v)
    {
      assert v != u ==> Hangs(nodes, rules, d, v);
    }
  }

  lemma LowerKeepsQueued(nodes: seq<Node<real>>, d: Growth, cur: nat, u: nat, tentative: real)
    requires |d.t.cost| == |d.t.hop| == |nodes| && u < |nodes| && Queued(nodes, d) && tentative < FLT_MAX
    ensures Queued(nodes, Lower(d, cur, u, tentative))
  {
    PushIsInsertion(d.heap, Entry(tentative, u));
    PushMembers(d.heap, Entry(tentative, u));
    hide Push;
  }

  lemma LowerKeeps(nodes: seq<Node<real>>, rules: Rules, goal: nat, d: Growth, cur: nat, u: nat, i: nat)
    requires Setting(nodes, rules, goal) && Relaxing(nodes, rules, goal, d, cur)
    requires Allowed(nodes, rules, u, i) && nodes[u].edges[i].to == cur
    requires d.t.cost[cur] + nodes[u].edges[i].cost < d.t.cost[u]
    ensures Relaxing(nodes, rules, goal, Lower(d, cur, u, d.t.cost[cur] + nodes[u].edges[i].cost), cur)
  {
    hide Push;
    hide AllHang;
    hide AllFinal;
    hide Queued;
    var tentative := d.t.cost[cur] + nodes[u].edges[i].cost;
    var r := Lower(d, cur, u, tentative);
    LowerKeepsSound(nodes, rules, goal, d, cur, u, i);
    LoweredIsOpen(nodes, rules, goal, d, cur, u, tentative);
    LowerKeepsQueued(nodes, d, cur, u, tentative);
    forall x: nat, k: nat {:trigger Relaxed(nodes, rules, r, x, k)} |
      Allowed(nodes, rules, x, k) && nodes[x].edges[k].to != cur
      ensures Relaxed(nodes, rules, r, x, k)
    {
      assert Relaxed(nodes, rules, d, x, k);
    }
  }

  /** All edges into the node settled last are followed: the loop may turn again. */
  lemma AllEdgesFollowed(nodes: seq<Node<real>>, rules: Rules, goal: nat, d: Growth, cur: nat)
    requires Setting(nodes, rules, goal) && Relaxing(nodes, rules, goal, d, cur)
    requires forall u: nat, i: nat {:trigger Relaxed(nodes, rules, d, u, i)} ::
      Allowed(nodes, rules, u, i) && nodes[u].edges[i].to == cur ==> Relaxed(nodes, rules, d, u, i)
    ensures Invariant(nodes, rules, goal, d)
  {
  }

  lemma BeginInvariant(nodes: seq<Node<real>>, rules: Rules, goal: nat, d: Growth)
    requires Setting(nodes, rules, goal)
    requires d.settled == map[] && d.count == 0 && d.heap == Push([], Entry(0.0, goal))
    requires d.t.cost == seq(|nodes|, v => if v == goal then 0.0 else FLT_MAX)
    requires d.t.hop == seq(|nodes|, _ => -1)
    ensures Invariant(nodes, rules, goal, d)
  {
    PushIsInsertion([], Entry(0.0, goal));
    PushMembers([], Entry(0.0, goal));
    hide Push;
    assert d.settled.Keys == {};
  }

  /** An empty frontier leaves an exact tree. */
  lemma EmptyFrontierIsExact(nodes: seq<Node<real>>, rules: Rules, goal: nat, d: Growth)
    requires Setting(nodes, rules, goal) && Invariant(nodes, rules, goal, d) && d.heap == []
    ensures Exact(nodes, rules, goal, d.t)
  {
    forall u | 0 <= u < |nodes| ensures LowerBound(nodes, rules, goal, d.t.cost, u) {
      OpenOrFinal(nodes, rules, goal, d, u);
    }
    NodesBelow(|nodes|, d.settled.Keys);
    forall v | v in d.settled ensures d.settled[v] < |nodes| {
      assert Final(nodes, rules, goal, d, v);
    }
    forall v {:trigger Descends(nodes, rules, d.t, d.settled, v)} | 0 <= v < |nodes| && v != goal
        && d.t.cost[v] < FLT_MAX
      ensures Descends(nodes, rules, d.t, d.settled, v)
    {
      assert Hangs(nodes, rules, d, v);
      assert Final(nodes, rules, goal, d, d.t.hop[v]);
    }
    assert Ranked(nodes, rules, goal, d.t, d.settled);
  }

  lemma OpenOrFinal(nodes: seq<Node<real>>, rules: Rules, goal: nat, d: Growth, u: nat)
    requires Setting(nodes, rules, goal) && Invariant(nodes, rules, goal, d) && d.heap == [] && u < |nodes|
    ensures LowerBound(nodes, rules, goal, d.t.cost, u)
  {
    if u in d.settled {
      assert Final(nodes, rules, goal, d, u);
    } else {
      forall steps | IsWalk(nodes, rules, u, steps, goal)
        ensures d.t.cost[u] <= WalkCost(nodes, rules, u, steps, goal) {
        OpenWalksCost(nodes, rules, goal, d, FLT_MAX, u, steps);
      }
    }
  }

  // ---- the loop ----------------------------------------------------------------------

  /** The entry stands for an edge into v that the mask lets through. */
  ghost predicate EdgeInto(nodes: seq<Node<real>>, edgeMask: bv32, v: nat, e: Entry) {
    && e.node < |nodes|
    && exists i: nat :: i < |nodes[e.node].edges| && nodes[e.node].edges[i].to == v
                        && !Masked(nodes[e.node].edges[i].ty, edgeMask) && nodes[e.node].edges[i].cost == e.f
  }

  /** Every listed entry is an edge into its node. */
  ghost predicate OnlyEdges(nodes: seq<Node<real>>, edgeMask: bv32, incoming: seq<seq<Entry>>) {
    forall v, e {:trigger EdgeInto(nodes, edgeMask, v, e)} ::
      0 <= v < |incoming| && e in incoming[v] ==> EdgeInto(nodes, edgeMask, v, e)
  }

  /** The first i edges of u are listed, those the mask hides excepted. */
  ghost predicate ListedUpTo(nodes: seq<Node<real>>, edgeMask: bv32, incoming: seq<seq<Entry>>, u: nat, i: nat)
    requires TargetsInRange(nodes) && |incoming| == |nodes| && u < |nodes|
  {
    forall k :: 0 <= k < i && k < |nodes[u].edges| && !Masked(nodes[u].edges[k].ty, edgeMask) ==>
      Entry(nodes[u].edges[k].cost, u) in incoming[nodes[u].edges[k].to]
  }

  /** Listing one more edge keeps every listed one. */
  lemma ListOne(nodes: seq<Node<real>>, edgeMask: bv32, incoming: seq<seq<Entry>>, u: nat, i: nat)
    requires TargetsInRange(nodes) && |incoming| == |nodes| && u < |nodes| && i < |nodes[u].edges|
    requires OnlyEdges(nodes, edgeMask, incoming) && !Masked(nodes[u].edges[i].ty, edgeMask)
    ensures var e := nodes[u].edges[i];
            var more := incoming[e.to := incoming[e.to] + [Entry(e.cost, u)]];
            && OnlyEdges(nodes, edgeMask, more)
            && (forall x, k :: 0 <= x < |nodes| && ListedUpTo(nodes, edgeMask, incoming, x, k) ==>
                ListedUpTo(nodes, edgeMask, more, x, k))
            && (ListedUpTo(nodes, edgeMask, incoming, u, i) ==> ListedUpTo(nodes, edgeMask, more, u, i + 1))
  {
    var e := nodes[u].edges[i];
    var more := incoming[e.to := incoming[e.to] + [Entry(e.cost, u)]];
    forall v, x {:trigger EdgeInto(nodes, edgeMask, v, x)} | 0 <= v < |more| && x in more[v]
      ensures EdgeInto(nodes, edgeMask, v, x)
    {
      if x !in incoming[v] {
        assert x == Entry(e.cost, u) && v == e.to;
      }
    }
    assert forall v :: 0 <= v < |more| ==> forall x :: x in incoming[v] ==> x in more[v];
  }

  /** The reverse adjacency: for each node the (cost, predecessor) of every edge into it. */
  method BuildIncoming(nodes: seq<Node<real>>, edgeMask: bv32) returns (incoming: seq<seq<Entry>>)
    requires TargetsInRange(nodes) && RemovedIsolated(nodes)
    ensures |incoming| == |nodes| && OnlyEdges(nodes, edgeMask, incoming)
    ensures forall u :: 0 <= u < |nodes| ==> ListedUpTo(nodes, edgeMask, incoming, u, |nodes[u].edges|)
  {
    incoming := seq(|nodes|, _ => []);
    for i := 0 to |nodes|
      invariant |incoming| == |nodes| && OnlyEdges(nodes, edgeMask, incoming)
      invariant forall u :: 0 <= u < i ==> ListedUpTo(nodes, edgeMask, incoming, u, |nodes[u].edges|)
    {
      if nodes[i].removed {
        assert nodes[i].edges != [] ==> LiveEdge(nodes, i, 0);
        continue;
      }
      for e := 0 to |nodes[i].edges|
        invariant |incoming| == |nodes| && OnlyEdges(nodes, edgeMask, incoming)
        invariant forall u :: 0 <= u < i ==> ListedUpTo(nodes, edgeMask, incoming, u, |nodes[u].edges|)
        invariant ListedUpTo(nodes, edgeMask, incoming, i, e)
      {
        if Masked(nodes[i].edges[e].ty, edgeMask) {
          continue;
        }
        var to := nodes[i].edges[e].to;
        ghost var was := incoming;
        incoming := incoming[to := incoming[to] + [Entry(nodes[i].edges[e].cost, i)]];
        ListOne(nodes, edgeMask, was, i, e);
      }
    }
  }

  /** Enough to walk the tree whatever the costs: its arrays are of the graph's size and hops stay inside. */
  ghost predicate Usable(t: Tree, n: nat) {
    |t.cost| == |t.hop| == n && forall v :: 0 <= v < n ==> -1 <= t.hop[v] < n
  }

  /** What the loop's arrays and the ghost growth have in common. */
  ghost predicate Shadows(nodes: seq<Node<real>>, d: Growth, settled: seq<bool>, entries: seq<Entry>) {
    && Usable(d.t, |nodes|) && d.heap == entries && |settled| == |nodes|
    && (forall e :: e in entries ==> e.node < |nodes|)
    && forall v :: 0 <= v < |nodes| ==> (settled[v] <==> v in d.settled)
  }

  ghost function Unsettled(n: nat, d: Growth): set<int> {
    set v | 0 <= v < n && v !in d.settled
  }

  /** One listed edge into the node settled last: lower its origin if that is cheaper. */
  method FollowInto(
    nodes: seq<Node<real>>, ghost rules: Rules, ghost goal: nat, ghost d: Growth, cost: seq<real>, hop: seq<int>,
    heap: Heap, cur: nat, e: Entry)
    returns (newCost: seq<real>, newHop: seq<int>, ghost r: Growth)
    requires TargetsInRange(nodes) && rules.skip == {} && goal < |nodes| && cur < |nodes|
    requires Usable(d.t, |nodes|) && d.t == Tree(cost, hop) && d.heap == heap.entries
    requires forall x :: x in heap.entries ==> x.node < |nodes|
    requires EdgeInto(nodes, rules.edgeMask, cur, e) && !Masked(nodes[cur].ty, rules.nodeMask)
    requires NonNegativeCosts(nodes) ==> Relaxing(nodes, rules, goal, d, cur)
    modifies heap
    ensures Usable(r.t, |nodes|) && r.t == Tree(newCost, newHop) && r.heap == heap.entries
    ensures r.settled == d.settled && r.count == d.count
    ensures forall x :: x in heap.entries ==> x.node < |nodes|
    ensures NonNegativeCosts(nodes) ==> Relaxing(nodes, rules, goal, r, cur)
    ensures newCost[e.node] <= newCost[cur] + e.f || !NonNegativeCosts(nodes)
    ensures forall v :: 0 <= v < |nodes| ==> newCost[v] <= cost[v]
    ensures NonNegativeCosts(nodes) ==> newCost[cur] == cost[cur]
  {
    hide Relaxing;
    newCost, newHop, r := cost, hop, d;
    var tentative := cost[cur] + e.f;
    if tentative < cost[e.node] {
      newCost := cost[e.node := tentative];
      newHop := hop[e.node := cur];
      r := Lower(d, cur, e.node, tentative);
      PushMembers(heap.entries, Entry(tentative, e.node));
      heap.HeapPush(tentative, e.node);
      if NonNegativeCosts(nodes) {
        var i: nat :| i < |nodes[e.node].edges| && nodes[e.node].edges[i].to == cur
                      && !Masked(nodes[e.node].edges[i].ty, rules.edgeMask) && nodes[e.node].edges[i].cost == e.f;
        LowerKeeps(nodes, rules, goal, d, cur, e.node, i);
        LoweredIsNotSettled(nodes, rules, goal, d, cur, e.node, i);
      }
    }
  }

  lemma LoweredIsNotSettled(nodes: seq<Node<real>>, rules: Rules, goal: nat, d: Growth, cur: nat, u: nat, i: nat)
    requires Setting(nodes, rules, goal) && Relaxing(nodes, rules, goal, d, cur)
    requires Allowed(nodes, rules, u, i) && d.t.cost[cur] + nodes[u].edges[i].cost < d.t.cost[u]
    ensures u != cur
  {
    LoweredIsOpen(nodes, rules, goal, d, cur, u, d.t.cost[cur] + nodes[u].edges[i].cost);
  }

  /** All listed edges into the node settled last. */
  method FollowAllInto(
    nodes: seq<Node<real>>, ghost rules: Rules, ghost goal: nat, ghost d: Growth, cost: seq<real>, hop: seq<int>,
    heap: Heap, cur: nat, listed: seq<Entry>)
    returns (newCost: seq<real>, newHop: seq<int>, ghost r: Growth)
    requires TargetsInRange(nodes) && rules.skip == {} && goal < |nodes| && cur < |nodes|
    requires Usable(d.t, |nodes|) && d.t == Tree(cost, hop) && d.heap == heap.entries
    requires forall x :: x in heap.entries ==> x.node < |nodes|
    requires forall e :: e in listed ==> EdgeInto(nodes, rules.edgeMask, cur, e)
    requires !Masked(nodes[cur].ty, rules.nodeMask)
    requires NonNegativeCosts(nodes) ==> Relaxing(nodes, rules, goal, d, cur)
    modifies heap
    ensures Usable(r.t, |nodes|) && r.t == Tree(newCost, newHop) && r.heap == heap.entries
    ensures r.settled == d.settled && r.count == d.count
    ensures forall x :: x in heap.entries ==> x.node < |nodes|
    ensures NonNegativeCosts(nodes) ==> Relaxing(nodes, rules, goal, r, cur)
    ensures NonNegativeCosts(nodes) ==> forall e :: e in listed ==>
        e.node < |nodes| && newCost[e.node] <= newCost[cur] + e.f
  {
    hide Relaxing;
    newCost, newHop, r := cost, hop, d;
    for k := 0 to |listed|
      invariant Usable(r.t, |nodes|) && r.t == Tree(newCost, newHop) && r.heap == heap.entries
      invariant r.settled == d.settled && r.count == d.count
      invariant forall x :: x in heap.entries ==> x.node < |nodes|
      invariant NonNegativeCosts(nodes) ==> Relaxing(nodes, rules, goal, r, cur)
      invariant NonNegativeCosts(nodes) ==> forall j :: 0 <= j < k ==>
          listed[j].node < |nodes| && newCost[listed[j].node] <= newCost[cur] + listed[j].f
    {
      assert EdgeInto(nodes, rules.edgeMask, cur, listed[k]);
      newCost, newHop, r := FollowInto(nodes, rules, goal, r, newCost, newHop, heap, cur, listed[k]);
    }
  }

  /** Once every listed edge into `cur` is no shortcut, every edge into it is relaxed. */
  lemma ListedMeansRelaxed(nodes: seq<Node<real>>, rules: Rules, goal: nat, d: Growth, cur: nat,
      incoming: seq<seq<Entry>>)
    requires Setting(nodes, rules, goal) && Relaxing(nodes, rules, goal, d, cur) && |incoming| == |nodes|
    requires forall u :: 0 <= u < |nodes| ==> ListedUpTo(nodes, rules.edgeMask, incoming, u, |nodes[u].edges|)
    requires forall e :: e in incoming[cur] ==> e.node < |nodes| && d.t.cost[e.node] <= d.t.cost[cur] + e.f
    ensures Invariant(nodes, rules, goal, d)
  {
    forall u: nat, i: nat {:trigger Relaxed(nodes, rules, d, u, i)} |
      Allowed(nodes, rules, u, i) && nodes[u].edges[i].to == cur
      ensures Relaxed(nodes, rules, d, u, i)
    {
      assert Entry(nodes[u].edges[i].cost, u) in incoming[cur];
    }
    AllEdgesFollowed(nodes, rules, goal, d, cur);
  }

  lemma SettlingShrinks(n: nat, d: Growth, cur: nat)
    requires cur < n && cur !in d.settled && d.heap != []
    ensures forall r: Growth :: r.settled == Settle(d, cur).settled ==> Unsettled(n, r) < Unsettled(n, d)
  {
    forall r: Growth | r.settled == Settle(d, cur).settled ensures Unsettled(n, r) < Unsettled(n, d) {
      assert cur in Unsettled(n, d) && cur !in Unsettled(n, r);
    }
  }

  /**
   The shortest-path tree of the goal. For non-negative costs it is exact; for
   any costs it can be walked safely.
   */
  method GrowTree(nodes: seq<Node<real>>, goal: nat, nodeMask: bv32, edgeMask: bv32) returns (t: Tree)
    requires TargetsInRange(nodes) && RemovedIsolated(nodes) && goal < |nodes|
    ensures Usable(t, |nodes|)
    ensures NonNegativeCosts(nodes) ==> Exact(nodes, Rules(nodeMask, edgeMask, {}), goal, t)
  {
    hide Invariant;
    hide Relaxing;
    hide Exact;
    hide Push;
    hide Rest;
    ghost var rules := Rules(nodeMask, edgeMask, {});
    var incoming := BuildIncoming(nodes, edgeMask);
    var cost := seq(|nodes|, v => if v == goal then 0.0 else FLT_MAX);
    var hop: seq<int> := seq(|nodes|, _ => -1);
    var settled := seq(|nodes|, _ => false);
    var heap := new Heap();
    heap.HeapPush(0.0, goal);
    PushMembers([], Entry(0.0, goal));
    ghost var d := Growth(Tree(cost, hop), map[], 0, heap.entries);
    if NonNegativeCosts(nodes) {
      BeginInvariant(nodes, rules, goal, d);
    }
    while heap.entries != []
      invariant fresh(heap)
      invariant Shadows(nodes, d, settled, heap.entries) && d.t == Tree(cost, hop)
      invariant NonNegativeCosts(nodes) ==> Invariant(nodes, rules, goal, d)
      decreases Unsettled(|nodes|, d), |heap.entries|
    {
      RestMembers(heap.entries);
      var top := heap.HeapPop();
      var cur := top.node;
      if settled[cur] || top.f != cost[cur] {
        if NonNegativeCosts(nodes) {
          DropKeeps(nodes, rules, goal, d);
        }
        d := d.(heap := heap.entries);
        continue;
      }
      settled := settled[cur := true];
      if NonNegativeCosts(nodes) {
        SettleKeeps(nodes, rules, goal, d);
      }
      SettlingShrinks(|nodes|, d, cur);
      d := Settle(d, cur);
      if Masked(nodes[cur].ty, nodeMask) {
        if NonNegativeCosts(nodes) {
          AllEdgesFollowed(nodes, rules, goal, d, cur);
        }
        continue;
      }
      cost, hop, d := FollowAllInto(nodes, rules, goal, d, cost, hop, heap, cur, incoming[cur]);
      if NonNegativeCosts(nodes) {
        ListedMeansRelaxed(nodes, rules, goal, d, cur, incoming);
      }
    }
    t := Tree(cost, hop);
    if NonNegativeCosts(nodes) {
      EmptyFrontierIsExact(nodes, rules, goal, d);
    }
  }
}
