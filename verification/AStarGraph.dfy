/**
 One waypoint graph and the script calls on it (code/gsc_graph.cpp, 83-159,
 303-370, 643-851, 1223-1707, 1888-2091, 2255-2438): every call keeps the graph consistent, the
 edge counter right and the cached trees exact, and a path query gives the answer
 its specification below gives, whatever was asked before.
 */
module GraphStore {
  import opened GraphTypes
  import opened GraphEdits
  import opened Search
  import opened Scratch
  import ShortestTree
  import ReverseDijkstra

  const CACHE_LIMIT: nat := 8

  /** A cached tree, for one goal and one pair of masks. */
  datatype Precompute = Precompute(goal: nat, nodeMask: bv32, edgeMask: bv32, tree: ShortestTree.Tree) {
    predicate For(goal: nat, nodeMask: bv32, edgeMask: bv32) {
      this.goal == goal && this.nodeMask == nodeMask && this.edgeMask == edgeMask
    }

    /** The tree can be walked, and with non-negative costs it is exact. */
    ghost predicate Trusted(nodes: seq<Node<real>>) {
      && goal < |nodes|
      && ReverseDijkstra.Usable(tree, |nodes|)
      && (NonNegativeCosts(nodes) ==> ShortestTree.Exact(nodes, Rules(nodeMask, edgeMask, {}), goal, tree))
    }
  }

  /** The cache holds at most eight trees, one per goal and masks, all of the current graph. */
  ghost predicate CacheValid(nodes: seq<Node<real>>, cache: seq<Precompute>) {
    && |cache| <= CACHE_LIMIT
    && (forall i :: 0 <= i < |cache| ==> cache[i].Trusted(nodes))
    && forall i, j :: 0 <= i < j < |cache| ==> !cache[i].For(cache[j].goal, cache[j].nodeMask, cache[j].edgeMask)
  }

  /** The index of the tree for these, or -1. */
  function Find(cache: seq<Precompute>, goal: nat, nodeMask: bv32, edgeMask: bv32): (r: int)
    ensures -1 <= r < |cache|
    ensures r >= 0 ==> cache[r].For(goal, nodeMask, edgeMask)
    ensures r < 0 ==> forall i :: 0 <= i < |cache| ==> !cache[i].For(goal, nodeMask, edgeMask)
  {
    if cache == [] then -1
    else if cache[0].For(goal, nodeMask, edgeMask) then 0
    else var r := Find(cache[1..], goal, nodeMask, edgeMask); if r < 0 then -1 else r + 1
  }

  // ---- the path query ------------------------------------------------------------

  /** The skip-nodes argument: left out, not an array, or the integers of an array. */
  datatype SkipArg = NoSkip | NotAnArray | SkipNodes(ids: seq<int>)

  /** A call of graphFindPath with the server settings it reads. */
  datatype Query = Query(
    start: int, goal: int, skip: SkipArg, nodeMask: bv32, edgeMask: bv32,
    maxExpansions: int, ceiling: int, weight: real)

  datatype Answer = Undefined | Path(ids: seq<nat>)

  function Skipped(q: Query, n: nat): set<nat> {
    if q.skip.SkipNodes? then set v | 0 <= v < n && v in q.skip.ids else {}
  }

  /** The server's ceiling caps a per-call budget, and stands in for a missing one. */
  function Budget(q: Query): int {
    if q.ceiling > 0 && (q.maxExpansions <= 0 || q.maxExpansions > q.ceiling) then q.ceiling else q.maxExpansions
  }

  function ProblemOf(nodes: seq<Node<real>>, metric: Metric, q: Query): Problem
    requires 0 <= q.start < |nodes| && 0 <= q.goal < |nodes|
  {
    Problem(nodes, metric, Rules(q.nodeMask, q.edgeMask, Skipped(q, |nodes|)), q.start, q.goal,
            if q.weight < 1.0 then 1.0 else q.weight, Budget(q))
  }

  /** Both ends exist and neither is removed. */
  predicate EndsExist(nodes: seq<Node<real>>, q: Query) {
    && 0 <= q.start < |nodes| && 0 <= q.goal < |nodes|
    && !nodes[q.start].removed && !nodes[q.goal].removed
  }

  /** The index of a cached tree that may answer the query, or -1. */
  function CacheHit(nodes: seq<Node<real>>, cache: seq<Precompute>, q: Query): (r: int)
    requires EndsExist(nodes, q)
    ensures -1 <= r < |cache|
  {
    if q.skip.NoSkip? && q.maxExpansions <= 0 && q.weight <= 1.0 && !Masked(nodes[q.goal].ty, q.nodeMask) then
      var i := Find(cache, q.goal, q.nodeMask, q.edgeMask);
      if i >= 0 && q.start < |cache[i].tree.cost| && cache[i].tree.cost[q.start] < ShortestTree.FLT_MAX then i else -1
    else -1
  }

  ghost predicate CacheUsable(nodes: seq<Node<real>>, cache: seq<Precompute>) {
    forall i :: 0 <= i < |cache| ==> ReverseDijkstra.Usable(cache[i].tree, |nodes|)
  }

  lemma CacheIsUsable(nodes: seq<Node<real>>, cache: seq<Precompute>)
    requires CacheValid(nodes, cache)
    ensures CacheUsable(nodes, cache)
  {
  }

  /** The answer of a path query: nothing in it depends on earlier searches. */
  function AnswerOf(nodes: seq<Node<real>>, cache: seq<Precompute>, metric: Metric, q: Query): Answer
    requires TargetsInRange(nodes)
    requires CacheUsable(nodes, cache)
  {
    if !EndsExist(nodes, q) then Undefined
    else
      var hit := CacheHit(nodes, cache, q);
      if hit >= 0 then
        assert ReverseDijkstra.Usable(cache[hit].tree, |nodes|);
        Path(ShortestTree.Follow(cache[hit].tree, q.goal, q.start, |nodes| + 1))
      else if q.skip.NotAnArray? then Undefined
      else Path(Solve(ProblemOf(nodes, metric, q)))
  }

  /** The cached hops from the start, cut short only by the hop guard. */
  method WalkTree(t: ShortestTree.Tree, n: nat, goal: nat, start: nat) returns (ids: seq<nat>)
    requires ReverseDijkstra.Usable(t, n) && start < n
    ensures ids == ShortestTree.Follow(t, goal, start, n + 1)
  {
    var cur: nat := start;
    var guard := 0;
    var safety := n + 1;
    ids := [];
    while guard < safety
      invariant guard <= safety && cur < n
      invariant ShortestTree.Follow(t, goal, start, safety) == ids + ShortestTree.Follow(t, goal, cur, safety - guard)
    {
      ids := ids + [cur];
      if cur == goal || t.hop[cur] < 0 {
        break;
      }
      cur := t.hop[cur];
      guard := guard + 1;
    }
  }

  // ---- grid discovery --------------------------------------------------------------

  const FLAT_DZ: real := 8.0
  const MAX_DROP: real := 128.0
  const EDGE_STEP: bv32 := 1
  const EDGE_DROP: bv32 := 2

  /**
   One thing a discovery pass does to the graph. Which nodes it visits and what the
   collision traces say is not modelled: a pass is any list of these, with any answers.
   */
  datatype Discovery =
    | Seed(origin: Vec<real>)
    | CrossLink(cur: nat, other: nat, walkable: bool)
    | Extend(cur: nat, origin: Vec<real>)
    | TypedLink(a: nat, b: nat, ab: bool, ba: bool, supported: bool, stepOffClear: bool)

  /** Nodes are only appended, and nodes only gain edges. */
  ghost predicate Grown(was: seq<Node<real>>, now: seq<Node<real>>) {
    && |was| <= |now|
    && forall i :: 0 <= i < |was| ==>
      && now[i].origin == was[i].origin && now[i].ty == was[i].ty && now[i].removed == was[i].removed
      && was[i].edges <= now[i].edges
  }

  /** The edge added, unless its direction is there already. */
  function Linked(nodes: seq<Node<real>>, from: nat, e: Edge<real>): (r: seq<Node<real>>)
    requires from < |nodes|
    ensures |r| == |nodes|
  {
    if FindEdge(nodes[from].edges, e.to) >= 0 then nodes else SetEdges(nodes, from, nodes[from].edges + [e])
  }

  function DiscoveredNode(origin: Vec<real>): Node<real> {
    Node(origin, 0, false, [])
  }

  /** An edge each way, whatever is there already. */
  function BothLinked(nodes: seq<Node<real>>, metric: Metric, a: nat, b: nat): (r: seq<Node<real>>)
    requires a < |nodes| && b < |nodes|
    ensures |r| == |nodes|
  {
    var c := metric(nodes[a].origin, nodes[b].origin);
    var one := SetEdges(nodes, a, nodes[a].edges + [Edge(b, 0, c)]);
    SetEdges(one, b, one[b].edges + [Edge(a, 0, c)])
  }

  /** A two-way flat or step link where a player can walk; else a one-way drop where a player can fall. */
  function TypedLinks(
    nodes: seq<Node<real>>, metric: Metric, a: nat, b: nat, walkable: bool, stepOffClear: bool): (r: seq<Node<real>>)
    requires a < |nodes| && b < |nodes|
    ensures |r| == |nodes|
  {
    var dz := nodes[b].origin.z - nodes[a].origin.z;
    var cost := metric(nodes[a].origin, nodes[b].origin);
    if walkable then
      var ty := if -FLAT_DZ <= dz <= FLAT_DZ then 0 else EDGE_STEP;
      Linked(Linked(nodes, a, Edge(b, ty, cost)), b, Edge(a, ty, cost))
    else if stepOffClear && FLAT_DZ < dz <= MAX_DROP then Linked(nodes, b, Edge(a, EDGE_DROP, cost))
    else if stepOffClear && FLAT_DZ < -dz <= MAX_DROP then Linked(nodes, a, Edge(b, EDGE_DROP, cost))
    else nodes
  }

  predicate LiveIn(nodes: seq<Node<real>>, id: nat) {
    id < |nodes| && !nodes[id].removed
  }

  /** The graph after one discovery. */
  function Discovered(nodes: seq<Node<real>>, metric: Metric, d: Discovery): seq<Node<real>> {
    match d
    case Seed(origin) => nodes + [DiscoveredNode(origin)]
    case CrossLink(cur, other, walkable) =>
      if cur != other && LiveIn(nodes, cur) && LiveIn(nodes, other) && walkable && FindEdge(nodes[cur].edges, other) < 0
      then BothLinked(nodes, metric, cur, other)
      else nodes
    case Extend(cur, origin) =>
      if LiveIn(nodes, cur) then BothLinked(nodes + [DiscoveredNode(origin)], metric, cur, |nodes|) else nodes
    case TypedLink(a, b, ab, ba, supported, stepOffClear) =>
      if a != b && LiveIn(nodes, a) && LiveIn(nodes, b)
      then TypedLinks(nodes, metric, a, b, ab && ba && supported, stepOffClear)
      else nodes
  }

  function AllDiscovered(nodes: seq<Node<real>>, metric: Metric, pass: seq<Discovery>): seq<Node<real>> {
    if pass == [] then nodes
    else Discovered(AllDiscovered(nodes, metric, pass[..|pass| - 1]), metric, pass[|pass| - 1])
  }

  class AStarGraph {
    const distance: Metric
    var nodes: seq<Node<real>>
    var edgeCount: nat
    var precomputes: seq<Precompute>
    const scratch: SearchScratch

    ghost predicate Valid()
      reads this, scratch
    {
      && Consistent(nodes)
      && edgeCount == EdgeTotal(nodes)
      && CacheValid(nodes, precomputes)
      && scratch.Valid()
    }

    constructor (distance: Metric)
      ensures Valid() && fresh(scratch) && fresh(scratch.heap)
      ensures nodes == [] && precomputes == [] && this.distance == distance
    {
      this.distance := distance;
      nodes, edgeCount, precomputes := [], 0, [];
      scratch := new SearchScratch();
    }

    // ---- queries -----------------------------------------------------------------

    method FindPath(q: Query) returns (r: Answer)
      requires Valid()
      modifies scratch, scratch.heap
      ensures Valid() && CacheUsable(nodes, precomputes)
      ensures r == AnswerOf(nodes, precomputes, distance, q)
    {
      hide Solve;
      hide ShortestTree.Follow;
      hide CacheValid;
      CacheIsUsable(nodes, precomputes);
      if !(0 <= q.start < |nodes|) || !(0 <= q.goal < |nodes|) || nodes[q.start].removed || nodes[q.goal].removed {
        return Undefined;
      }
      if q.skip.NoSkip? && q.maxExpansions <= 0 && q.weight <= 1.0 && !Masked(nodes[q.goal].ty, q.nodeMask) {
        var i := FindPrecompute(q.goal, q.nodeMask, q.edgeMask);
        if i >= 0 && precomputes[i].tree.cost[q.start] < ShortestTree.FLT_MAX {
          var ids := WalkTree(precomputes[i].tree, |nodes|, q.goal, q.start);
          return Path(ids);
        }
      }
      r := SearchPath(q);
    }

    /** The search proper, once no cached tree answers. */
    method SearchPath(q: Query) returns (r: Answer)
      requires Valid() && EndsExist(nodes, q)
      modifies scratch, scratch.heap
      ensures Valid()
      ensures r == if q.skip.NotAnArray? then Undefined else Path(Solve(ProblemOf(nodes, distance, q)))
    {
      hide Solve;
      scratch.Begin(|nodes|);
      if q.skip.NotAnArray? {
        return Undefined;
      }
      if q.skip.SkipNodes? {
        scratch.MarkSkipped(|nodes|, q.skip.ids);
      }
      var ids := scratch.FindPath(ProblemOf(nodes, distance, q));
      return Path(ids);
    }

    method FindPrecompute(goal: nat, nodeMask: bv32, edgeMask: bv32) returns (r: int)
      ensures r == Find(precomputes, goal, nodeMask, edgeMask)
    {
      for i := 0 to |precomputes|
        invariant Find(precomputes, goal, nodeMask, edgeMask) ==
                  var rest := Find(precomputes[i..], goal, nodeMask, edgeMask); if rest < 0 then -1 else rest + i
      {
        if precomputes[i].For(goal, nodeMask, edgeMask) {
          return i;
        }
        assert precomputes[i..][1..] == precomputes[i + 1..];
      }
      return -1;
    }

    // ---- edits -------------------------------------------------------------------

    /** Empties the cache. */
    method InvalidatePrecompute()
      modifies this`precomputes
      ensures precomputes == []
    {
      precomputes := [];
    }

    /** -> the new node's id, or None for an id out of sequence or a full graph. */
    method AddNode(origin: Vec<real>, ty: bv32, nodeId: int, maxNodes: int) returns (r: Option<nat>)
      requires Valid()
      modifies this
      ensures Valid()
      ensures r.Some? <==> (nodeId < 0 || nodeId == |old(nodes)|) && |old(nodes)| < maxNodes
      ensures r.Some? ==>
          r.value == |old(nodes)| && nodes == old(nodes) + [Node(origin, ty, false, [])] && precomputes == []
      ensures r.None? ==> nodes == old(nodes) && precomputes == old(precomputes)
    {
      if nodeId >= 0 && nodeId != |nodes| {
        return None;
      }
      if |nodes| >= maxNodes {
        return None;
      }
      EdgeTotalAppend(nodes, Node(origin, ty, false, []));
      AppendKeeps(nodes, Node(origin, ty, false, []));
      nodes := nodes + [Node(origin, ty, false, [])];
      InvalidatePrecompute();
      return Some(|nodes| - 1);
    }

    /** The index of the first edge from -> to, or -1, also for an id out of range. */
    method FindEdgeIndex(from: int, to: int) returns (r: int)
      ensures r == if 0 <= from < |nodes| && to >= 0 then FindEdge(nodes[from].edges, to) else -1
    {
      if from < 0 || from >= |nodes| || to < 0 {
        return -1;
      }
      var edges := nodes[from].edges;
      for i := 0 to |edges|
        invariant FindEdge(edges, to) == var rest := FindEdge(edges[i..], to); if rest < 0 then -1 else rest + i
      {
        if edges[i].to == to {
          return i;
        }
        assert edges[i..][1..] == edges[i + 1..];
      }
      return -1;
    }

    /** May an edge be drawn: two different nodes, both there and not removed. */
    predicate Joinable(from: int, to: int)
      reads this
    {
      0 <= from < |nodes| && 0 <= to < |nodes| && from != to && !nodes[from].removed && !nodes[to].removed
    }

    /** Appends an edge of `from`; the caller drops the cache. */
    method PushEdge(from: nat, e: Edge<real>)
      requires Consistent(nodes) && edgeCount == EdgeTotal(nodes)
      requires from < |nodes| && e.to < |nodes| && !nodes[from].removed && !nodes[e.to].removed
      modifies this`nodes, this`edgeCount
      ensures nodes == SetEdges(old(nodes), from, old(nodes)[from].edges + [e])
      ensures Consistent(nodes) && edgeCount == EdgeTotal(nodes) == old(edgeCount) + 1
    {
      AddEdgeKeeps(nodes, from, e);
      SetEdgesCounts(nodes, from, nodes[from].edges + [e]);
      nodes := nodes[from := nodes[from].(edges := nodes[from].edges + [e])];
      edgeCount := edgeCount + 1;
    }

    /** -> true, false for a duplicate, or None for an edge that may not be drawn. */
    method AddEdge(from: int, to: int, ty: bv32, cost: real) returns (r: Option<bool>)
      requires Valid()
      modifies this
      ensures Valid()
      ensures r.None? <==> !old(Joinable(from, to))
      ensures r.Some? ==> (r.value <==> FindEdge(old(nodes)[from].edges, to) < 0)
      ensures r == Some(true) ==>
        && nodes == SetEdges(old(nodes), from, old(nodes)[from].edges +
             [Edge(to, ty, if cost >= 0.0 then cost else distance(old(nodes)[from].origin, old(nodes)[to].origin))])
        && precomputes == []
      ensures r != Some(true) ==> nodes == old(nodes) && precomputes == old(precomputes)
    {
      hide CacheValid;
      if from < 0 || from >= |nodes| || to < 0 || to >= |nodes| || from == to || nodes[from].removed
          || nodes[to].removed {
        return None;
      }
      var idx := FindEdgeIndex(from, to);
      if idx >= 0 {
        return Some(false);
      }
      PushEdge(from, Edge(to, ty, if cost >= 0.0 then cost else distance(nodes[from].origin, nodes[to].origin)));
      InvalidatePrecompute();
      EmptyCacheIsValid(nodes);
      return Some(true);
    }

    /** Replaces one edge's type and cost, not its target. */
    method ReplaceEdge(from: nat, idx: nat, e: Edge<real>)
      requires Valid() && from < |nodes| && idx < |nodes[from].edges| && e.to == nodes[from].edges[idx].to
      modifies this
      ensures Valid() && precomputes == []
      ensures nodes == SetEdges(old(nodes), from, old(nodes)[from].edges[idx := e])
    {
      ghost var was := nodes;
      nodes := nodes[from := nodes[from].(edges := nodes[from].edges[idx := e])];
      InvalidatePrecompute();
      RetargetNothing(was, nodes);
      EmptyCacheIsValid(nodes);
    }

    /** -> true, false for a missing edge, or None for a negative cost. */
    method SetEdgeCost(from: int, to: int, cost: real) returns (r: Option<bool>)
      requires Valid()
      modifies this
      ensures Valid()
      ensures r.None? <==> cost < 0.0
      ensures r.Some? ==> (r.value <==>
          0 <= from < |old(nodes)| && to >= 0 && FindEdge(old(nodes)[from].edges, to) >= 0)
      ensures r == Some(true) ==> precomputes == []
      ensures r == Some(true) ==>
        var i := FindEdge(old(nodes)[from].edges, to);
        nodes == SetEdges(old(nodes), from, old(nodes)[from].edges[i := old(nodes)[from].edges[i].(cost := cost)])
      ensures r != Some(true) ==> nodes == old(nodes) && precomputes == old(precomputes)
    {
      if cost < 0.0 {
        return None;
      }
      var idx := FindEdgeIndex(from, to);
      if idx < 0 {
        return Some(false);
      }
      ReplaceEdge(from, idx, nodes[from].edges[idx].(cost := cost));
      return Some(true);
    }

    /** -> true, or false for a missing edge. */
    method SetEdgeType(from: int, to: int, ty: bv32) returns (r: bool)
      requires Valid()
      modifies this
      ensures Valid()
      ensures r <==> 0 <= from < |old(nodes)| && to >= 0 && FindEdge(old(nodes)[from].edges, to) >= 0
      ensures r ==> precomputes == []
      ensures r ==>
        var i := FindEdge(old(nodes)[from].edges, to);
        nodes == SetEdges(old(nodes), from, old(nodes)[from].edges[i := old(nodes)[from].edges[i].(ty := ty)])
      ensures !r ==> nodes == old(nodes) && precomputes == old(precomputes)
    {
      var idx := FindEdgeIndex(from, to);
      if idx < 0 {
        return false;
      }
      ReplaceEdge(from, idx, nodes[from].edges[idx].(ty := ty));
      return true;
    }

    /** -> true, or false for a missing edge; only the first edge of this direction goes. */
    method RemoveEdge(from: int, to: int) returns (r: bool)
      requires Valid()
      modifies this
      ensures Valid()
      ensures r <==> 0 <= from < |old(nodes)| && to >= 0 && FindEdge(old(nodes)[from].edges, to) >= 0
      ensures r ==> precomputes == [] && edgeCount == old(edgeCount) - 1
      ensures r ==>
        var edges := old(nodes)[from].edges; var i := FindEdge(edges, to);
        nodes == SetEdges(old(nodes), from, edges[..i] + edges[i + 1..])
      ensures !r ==> nodes == old(nodes) && precomputes == old(precomputes)
    {
      hide CacheValid;
      hide EdgeTotal;
      var idx := FindEdgeIndex(from, to);
      if idx < 0 {
        return false;
      }
      ghost var was := nodes;
      EraseEdge(from, idx);
      InvalidatePrecompute();
      DropOne(was, from, idx);
      EmptyCacheIsValid(nodes);
      return true;
    }

    /** -> true, or false for a node that is not there or removed. */
    method SetNodeType(id: int, ty: bv32) returns (r: bool)
      requires Valid()
      modifies this
      ensures Valid()
      ensures r <==> 0 <= id < |old(nodes)| && !old(nodes)[id].removed
      ensures r ==> nodes == old(nodes)[id := old(nodes)[id].(ty := ty)] && precomputes == []
      ensures !r ==> nodes == old(nodes) && precomputes == old(precomputes)
    {
      hide CacheValid;
      if id < 0 || id >= |nodes| || nodes[id].removed {
        return false;
      }
      ghost var was := nodes;
      nodes := nodes[id := nodes[id].(ty := ty)];
      InvalidatePrecompute();
      RetargetNothing(was, nodes);
      EmptyCacheIsValid(nodes);
      return true;
    }

    /** Every edge touching the moved node, either way, costs its new length. */
    method SetNodeOrigin(id: int, origin: Vec<real>) returns (r: bool)
      requires Valid()
      modifies this
      ensures Valid()
      ensures r <==> 0 <= id < |old(nodes)| && !old(nodes)[id].removed
      ensures r ==> nodes == Move(old(nodes), distance, id, origin) && precomputes == []
      ensures !r ==> nodes == old(nodes) && precomputes == old(precomputes)
    {
      hide CacheValid;
      hide EdgeTotal;
      if id < 0 || id >= |nodes| || nodes[id].removed {
        return false;
      }
      ghost var was := nodes;
      MoveKeeps(nodes, distance, id, origin);
      nodes := nodes[id := nodes[id].(origin := origin)];
      ghost var placed := Place(was, id, origin);
      RecostFrom(placed, id);
      for i := 0 to |nodes|
        invariant edgeCount == old(edgeCount) && |nodes| == |placed|
        invariant forall u :: 0 <= u < |placed| ==>
          nodes[u] == placed[u].(edges := if u < i || u == id then RecostAll(placed, distance, id, u)
              else placed[u].edges)
      {
        if i != id {
          RecostInto(placed, id, i);
        }
      }
      assert nodes == Move(was, distance, id, origin);
      InvalidatePrecompute();
      EmptyCacheIsValid(nodes);
      return true;
    }

    /** Sets one edge's cost to the distance of its ends as they are now. */
    method RecostEdge(u: nat, e: nat)
      requires u < |nodes| && e < |nodes[u].edges| && nodes[u].edges[e].to < |nodes|
      modifies this`nodes
      ensures nodes == SetEdges(old(nodes), u, old(nodes)[u].edges[e := old(nodes)[u].edges[e].(cost :=
        distance(old(nodes)[u].origin, old(nodes)[old(nodes)[u].edges[e].to].origin))])
    {
      var edge := nodes[u].edges[e];
      var cost := distance(nodes[u].origin, nodes[edge.to].origin);
      nodes := nodes[u := nodes[u].(edges := nodes[u].edges[e := edge.(cost := cost)])];
    }

    /** The moved node's own edges. */
    method RecostFrom(ghost placed: seq<Node<real>>, id: nat)
      requires nodes == placed && TargetsInRange(placed) && id < |placed|
      modifies this`nodes
      ensures nodes == SetEdges(placed, id, RecostAll(placed, distance, id, id))
    {
      for e := 0 to |nodes[id].edges|
        invariant |nodes| == |placed| && nodes == SetEdges(placed, id, nodes[id].edges)
        invariant |nodes[id].edges| == |placed[id].edges|
        invariant forall k :: 0 <= k < |placed[id].edges| ==>
          nodes[id].edges[k] == (if k < e then RecostAll(placed, distance, id, id)[k] else placed[id].edges[k])
      {
        RecostEdge(id, e);
      }
      assert nodes[id].edges == RecostAll(placed, distance, id, id);
    }

    /** Another node's edges into the moved node. */
    method RecostInto(ghost placed: seq<Node<real>>, id: nat, i: nat)
      requires TargetsInRange(placed) && |nodes| == |placed| && id < |placed| && i < |placed| && i != id
      requires forall u :: 0 <= u < |placed| ==>
          nodes[u].origin == placed[u].origin && nodes[u] == placed[u].(edges := nodes[u].edges)
      requires nodes[i] == placed[i]
      modifies this`nodes
      ensures nodes == SetEdges(old(nodes), i, RecostAll(placed, distance, id, i))
    {
      for e := 0 to |nodes[i].edges|
        invariant |nodes| == |placed| && nodes == SetEdges(old(nodes), i, nodes[i].edges)
        invariant |nodes[i].edges| == |placed[i].edges|
        invariant forall k :: 0 <= k < |placed[i].edges| ==>
          nodes[i].edges[k] == (if k < e then RecostAll(placed, distance, id, i)[k] else placed[i].edges[k])
      {
        if nodes[i].edges[e].to == id {
          RecostEdge(i, e);
        }
      }
      assert nodes[i].edges == RecostAll(placed, distance, id, i);
    }

    method EraseEdge(i: nat, e: nat)
      requires i < |nodes| && e < |nodes[i].edges| && edgeCount == EdgeTotal(nodes)
      modifies this`nodes, this`edgeCount
      ensures nodes == SetEdges(old(nodes), i, old(nodes)[i].edges[..e] + old(nodes)[i].edges[e + 1..])
      ensures edgeCount == EdgeTotal(nodes) == old(edgeCount) - 1
    {
      hide EdgeTotal;
      var edges := nodes[i].edges;
      SetEdgesCounts(nodes, i, edges[..e] + edges[e + 1..]);
      nodes := nodes[i := nodes[i].(edges := edges[..e] + edges[e + 1..])];
      edgeCount := edgeCount - 1;
    }

    /** Erases every edge from i to `id`, in place. */
    method EraseEdgesTo(i: nat, id: nat)
      requires i < |nodes| && edgeCount == EdgeTotal(nodes)
      modifies this`nodes, this`edgeCount
      ensures nodes == SetEdges(old(nodes), i, Without(old(nodes)[i].edges, id))
      ensures edgeCount == EdgeTotal(nodes)
    {
      hide EdgeTotal;
      hide Without;
      var e := 0;
      while e < |nodes[i].edges|
        invariant i < |nodes| == |old(nodes)| && e <= |nodes[i].edges| && edgeCount == EdgeTotal(nodes)
        invariant nodes == SetEdges(old(nodes), i, nodes[i].edges)
        invariant Without(nodes[i].edges, id) == Without(old(nodes)[i].edges, id)
        invariant forall k :: 0 <= k < e ==> nodes[i].edges[k].to != id
        decreases |nodes[i].edges| - e
      {
        if nodes[i].edges[e].to == id {
          WithoutErased(nodes[i].edges, id, e);
          EraseEdge(i, e);
        } else {
          e := e + 1;
        }
      }
      WithoutNone(nodes[i].edges, id);
    }

    /** A tombstone delete: the slot stays, flagged, and every edge touching it goes. */
    method RemoveNode(id: int) returns (r: bool)
      requires Valid()
      modifies this
      ensures Valid()
      ensures r <==> 0 <= id < |old(nodes)| && !old(nodes)[id].removed
      ensures r ==> nodes == Purge(old(nodes), id) && precomputes == []
      ensures !r ==> nodes == old(nodes) && precomputes == old(precomputes)
    {
      hide CacheValid;
      hide EdgeTotal;
      if id < 0 || id >= |nodes| || nodes[id].removed {
        return false;
      }
      ghost var was := nodes;
      PurgeKeeps(nodes, id);
      SetEdgesCounts(nodes, id, []);
      edgeCount := edgeCount - |nodes[id].edges|;
      nodes := nodes[id := nodes[id].(edges := [])];
      for i := 0 to |nodes|
        invariant |nodes| == |was| && edgeCount == EdgeTotal(nodes)
        invariant forall u :: 0 <= u < |was| ==>
          nodes[u] == (if u == id then was[u].(edges := [])
                       else if u < i then was[u].(edges := Without(was[u].edges, id)) else was[u])
      {
        EraseEdgesTo(i, id);
      }
      ghost var cut := nodes;
      nodes := nodes[id := nodes[id].(removed := true)];
      SameDegrees(cut, nodes);
      assert nodes == Purge(was, id);
      InvalidatePrecompute();
      EmptyCacheIsValid(nodes);
      return true;
    }

    // ---- cached trees ------------------------------------------------------------

    /** Grows the tree of one goal and caches it; the oldest of eight makes room. */
    method PrecomputePathsToNode(goal: int, nodeMask: bv32, edgeMask: bv32) returns (r: bool)
      requires Valid()
      modifies this`precomputes
      ensures Valid()
      ensures r <==> 0 <= goal < |nodes| && !nodes[goal].removed
      ensures !r ==> precomputes == old(precomputes)
      ensures r ==> exists entry: Precompute ::
          entry.For(goal, nodeMask, edgeMask) && entry.Trusted(nodes) && precomputes == Cached(old(precomputes), entry)
    {
      if goal < 0 || goal >= |nodes| || nodes[goal].removed {
        return false;
      }
      var t := ReverseDijkstra.GrowTree(nodes, goal, nodeMask, edgeMask);
      ghost var entry := Precompute(goal, nodeMask, edgeMask, t);
      CachedIsValid(nodes, precomputes, entry);
      var i := FindPrecompute(goal, nodeMask, edgeMask);
      if i < 0 {
        if |precomputes| >= CACHE_LIMIT {
          precomputes := precomputes[1..];
        }
        precomputes := precomputes + [Precompute(goal, nodeMask, edgeMask, t)];
      } else {
        precomputes := precomputes[i := Precompute(goal, nodeMask, edgeMask, t)];
      }
      assert entry.Trusted(nodes) && precomputes == Cached(old(precomputes), entry);
      return true;
    }

    // ---- discovery -----------------------------------------------------------------

    ghost predicate Sound()
      reads this
    {
      Consistent(nodes) && edgeCount == EdgeTotal(nodes)
    }

    predicate Live(id: nat)
      reads this
    {
      id < |nodes| && !nodes[id].removed
    }

    method PushNode(origin: Vec<real>)
      requires Sound()
      modifies this`nodes
      ensures Sound() && nodes == old(nodes) + [DiscoveredNode(origin)]
    {
      EdgeTotalAppend(nodes, Node(origin, 0, false, []));
      AppendKeeps(nodes, Node(origin, 0, false, []));
      nodes := nodes + [Node(origin, 0, false, [])];
    }

    /** A link both ways at one cost. */
    method LinkBothWays(a: nat, b: nat)
      requires Sound() && Live(a) && Live(b) && a != b
      modifies this`nodes, this`edgeCount
      ensures Sound() && edgeCount == old(edgeCount) + 2 && Grown(old(nodes), nodes)
      ensures nodes == BothLinked(old(nodes), distance, a, b)
    {
      var c := distance(nodes[a].origin, nodes[b].origin);
      PushEdge(a, Edge(b, 0, c));
      PushEdge(b, Edge(a, 0, c));
    }

    /** An edge from -> to, unless there is one already. */
    method LinkOnce(from: nat, to: nat, ty: bv32, cost: real)
      requires Sound() && Live(from) && Live(to) && from != to
      modifies this`nodes, this`edgeCount
      ensures Sound() && Grown(old(nodes), nodes) && |nodes| == |old(nodes)| && Live(from) && Live(to)
      ensures nodes == Linked(old(nodes), from, Edge(to, ty, cost))
      ensures FindEdge(nodes[from].edges, to) >= 0
    {
      var idx := FindEdgeIndex(from, to);
      if idx < 0 {
        PushEdge(from, Edge(to, ty, cost));
        assert nodes[from].edges[|nodes[from].edges| - 1].to == to;
      }
    }

    method LinkWalk(a: nat, b: nat, ty: bv32, cost: real)
      requires Sound() && Live(a) && Live(b) && a != b
      modifies this`nodes, this`edgeCount
      ensures Sound() && Grown(old(nodes), nodes) && |nodes| == |old(nodes)|
      ensures nodes == Linked(Linked(old(nodes), a, Edge(b, ty, cost)), b, Edge(a, ty, cost))
      ensures FindEdge(nodes[a].edges, b) >= 0 && FindEdge(nodes[b].edges, a) >= 0
    {
      hide EdgeTotal;
      hide Consistent;
      LinkOnce(a, b, ty, cost);
      LinkOnce(b, a, ty, cost);
    }

    /** A two-way flat or step link where a player can walk; else a one-way drop where a player can fall. */
    method LinkNodesTyped(a: nat, b: nat, ab: bool, ba: bool, supported: bool, stepOffClear: bool)
      requires Sound() && Live(a) && Live(b) && a != b
      modifies this`nodes, this`edgeCount
      ensures Sound() && Grown(old(nodes), nodes)
      ensures nodes == TypedLinks(old(nodes), distance, a, b, ab && ba && supported, stepOffClear)
      ensures ab && ba && supported ==> FindEdge(nodes[a].edges, b) >= 0 && FindEdge(nodes[b].edges, a) >= 0
    {
      hide EdgeTotal;
      hide Consistent;
      hide Linked;
      var dz := nodes[b].origin.z - nodes[a].origin.z;
      var adz := if dz < 0.0 then -dz else dz;
      var cost := distance(nodes[a].origin, nodes[b].origin);
      if ab && ba && supported {
        LinkWalk(a, b, if adz <= FLAT_DZ then 0 else EDGE_STEP, cost);
        return;
      }
      if adz <= FLAT_DZ || adz > MAX_DROP || !stepOffClear {
        return;
      }
      if dz > 0.0 {
        LinkOnce(b, a, EDGE_DROP, cost);
      } else {
        LinkOnce(a, b, EDGE_DROP, cost);
      }
    }

    method Discover(d: Discovery)
      requires Sound()
      modifies this`nodes, this`edgeCount
      ensures Sound() && Grown(old(nodes), nodes)
      ensures nodes == Discovered(old(nodes), distance, d)
    {
      hide BothLinked;
      hide TypedLinks;
      hide EdgeTotal;
      hide Consistent;
      match d
      case Seed(origin) =>
        PushNode(origin);
      case CrossLink(cur, other, walkable) =>
        if cur != other && Live(cur) && Live(other) {
          var idx := FindEdgeIndex(cur, other);
          if idx < 0 && walkable {
            LinkBothWays(cur, other);
          }
        }
      case Extend(cur, origin) =>
        if Live(cur) {
          PushNode(origin);
          LinkBothWays(cur, |nodes| - 1);
        }
      case TypedLink(a, b, ab, ba, supported, stepOffClear) =>
        if a != b && Live(a) && Live(b) {
          LinkNodesTyped(a, b, ab, ba, supported, stepOffClear);
        }
    }

    /** A whole pass; the cache is dropped once, at its end, before any query can run. */
    method Autodiscover(pass: seq<Discovery>)
      requires Valid()
      modifies this
      ensures Valid() && precomputes == [] && Grown(old(nodes), nodes)
      ensures nodes == AllDiscovered(old(nodes), distance, pass)
    {
      hide CacheValid;
      hide EdgeTotal;
      hide Discovered;
      for k := 0 to |pass|
        invariant Sound() && scratch.Valid() && Grown(old(nodes), nodes)
        invariant nodes == AllDiscovered(old(nodes), distance, pass[..k])
      {
        ghost var before := nodes;
        Discover(pass[k]);
        assert Grown(old(nodes), before);
        assert pass[..k + 1][..k] == pass[..k];
      }
      assert pass[..|pass|] == pass;
      InvalidatePrecompute();
      EmptyCacheIsValid(nodes);
    }
  }

  /** The cache with a new tree: in the place of its predecessor, or last, the oldest dropped if full. */
  function Cached(cache: seq<Precompute>, entry: Precompute): seq<Precompute> {
    var i := Find(cache, entry.goal, entry.nodeMask, entry.edgeMask);
    if i >= 0 then cache[i := entry]
    else (if |cache| >= CACHE_LIMIT then cache[1..] else cache) + [entry]
  }

  lemma CachedIsValid(nodes: seq<Node<real>>, cache: seq<Precompute>, entry: Precompute)
    requires CacheValid(nodes, cache) && entry.Trusted(nodes)
    ensures CacheValid(nodes, Cached(cache, entry))
  {
    hide ShortestTree.Exact;
  }

  lemma EmptyCacheIsValid(nodes: seq<Node<real>>)
    ensures CacheValid(nodes, [])
  {
  }
}
