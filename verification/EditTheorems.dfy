/**
 What the edits of a graph are worth to its users (code/gsc_graph.cpp, 309-370, 1644-1707,
 2071-2088): costs stay at or above the distance, links lead where a player can go, and the
 cache forgets no tree but the oldest.
 */
module EditTheorems {
  import opened GraphTypes
  import opened GraphEdits
  import opened GraphStore
  import Optimality

  // ---- moving a node --------------------------------------------------------------------

  /** Edges that touch a moved node cost their new length, and nothing else changes. */
  lemma MoveRecosts(nodes: seq<Node<real>>, metric: Metric, id: nat, origin: Vec<real>)
    requires TargetsInRange(nodes) && id < |nodes|
    ensures var r := Move(nodes, metric, id, origin);
            && r[id].origin == origin && (forall u :: 0 <= u < |r| && u != id ==> r[u].origin == nodes[u].origin)
            && forall u :: 0 <= u < |r| ==>
              && r[u].ty == nodes[u].ty && r[u].removed == nodes[u].removed && |r[u].edges| == |nodes[u].edges|
              && forall i :: 0 <= i < |r[u].edges| ==>
                var e := nodes[u].edges[i];
                r[u].edges[i] == if u != id && e.to != id then e else e.(cost := metric(r[u].origin, r[e.to].origin))
  {
  }

  /** Where costs covered the distance they still do. */
  lemma MoveStaysCovered(nodes: seq<Node<real>>, metric: Metric, id: nat, origin: Vec<real>)
    requires TargetsInRange(nodes) && id < |nodes| && Optimality.CostsCoverDistance(nodes, metric)
    ensures var r := Move(nodes, metric, id, origin);
            TargetsInRange(r) && Optimality.CostsCoverDistance(r, metric)
  {
    MoveRecosts(nodes, metric, id, origin);
    hide Move;
  }

  // ---- typed links --------------------------------------------------------------------------

  function Height(nodes: seq<Node<real>>, u: nat): real
    requires u < |nodes|
  {
    nodes[u].origin.z
  }

  /** A player can walk between the two: flat or by a step, as the type says; or fall from u to v. */
  ghost predicate Justified(nodes: seq<Node<real>>, u: nat, v: nat, ty: bv32, walkable: bool, stepOffClear: bool)
    requires u < |nodes| && v < |nodes|
  {
    var fall := Height(nodes, u) - Height(nodes, v);
    if ty == EDGE_DROP then !walkable && stepOffClear && 8.0 < fall <= 128.0
    else walkable && ty == if -8.0 <= fall <= 8.0 then 0 else EDGE_STEP
  }

  /** Every new link is between the two nodes, at their distance, and justified; all else is as it was. */
  lemma NewLinksAreJustified(
    nodes: seq<Node<real>>, metric: Metric, a: nat, b: nat, walkable: bool, stepOffClear: bool, u: nat, i: nat)
    requires TargetsInRange(nodes) && a < |nodes| && b < |nodes| && a != b
    requires u < |nodes| && i < |TypedLinks(nodes, metric, a, b, walkable, stepOffClear)[u].edges|
    ensures var e := TypedLinks(nodes, metric, a, b, walkable, stepOffClear)[u].edges[i];
            if i < |nodes[u].edges| then e == nodes[u].edges[i]
            else
              && ((u == a && e.to == b) || (u == b && e.to == a)) && FindEdge(nodes[u].edges, e.to) < 0
              && e.cost == metric(nodes[a].origin, nodes[b].origin)
              && Justified(nodes, u, e.to, e.ty, walkable, stepOffClear)
  {
    if walkable {
      WalkIsJustified(nodes, metric, a, b, stepOffClear, u, i);
    } else {
      hide FindEdge;
      hide Linked;
      var cost := metric(nodes[a].origin, nodes[b].origin);
      LinkedIs(nodes, a, Edge(b, EDGE_DROP, cost));
      LinkedIs(nodes, b, Edge(a, EDGE_DROP, cost));
    }
  }

  lemma WalkIsJustified(nodes: seq<Node<real>>, metric: Metric, a: nat, b: nat, stepOffClear: bool, u: nat, i: nat)
    requires TargetsInRange(nodes) && a < |nodes| && b < |nodes| && a != b
    requires u < |nodes| && i < |TypedLinks(nodes, metric, a, b, true, stepOffClear)[u].edges|
    ensures var e := TypedLinks(nodes, metric, a, b, true, stepOffClear)[u].edges[i];
            if i < |nodes[u].edges| then e == nodes[u].edges[i]
            else
              && ((u == a && e.to == b) || (u == b && e.to == a)) && FindEdge(nodes[u].edges, e.to) < 0
              && e.cost == metric(nodes[a].origin, nodes[b].origin)
              && Justified(nodes, u, e.to, e.ty, true, stepOffClear)
  {
    hide FindEdge;
    hide Linked;
    var dz := Height(nodes, b) - Height(nodes, a);
    var cost := metric(nodes[a].origin, nodes[b].origin);
    var ty := if -FLAT_DZ <= dz <= FLAT_DZ then 0 else EDGE_STEP;
    LinkedIs(nodes, a, Edge(b, ty, cost));
    LinkedIs(Linked(nodes, a, Edge(b, ty, cost)), b, Edge(a, ty, cost));
  }

  lemma LinkedIs(nodes: seq<Node<real>>, from: nat, e: Edge<real>)
    requires from < |nodes|
    ensures var r := Linked(nodes, from, e);
            && (forall u :: 0 <= u < |nodes| && u != from ==> r[u] == nodes[u])
            && r[from].origin == nodes[from].origin
            && r[from].edges == nodes[from].edges + if FindEdge(nodes[from].edges, e.to) >= 0 then [] else [e]
    ensures FindEdge(Linked(nodes, from, e)[from].edges, e.to) >= 0
  {
    AppendedIsFound(nodes[from].edges, e.to);
    assert nodes[from].edges + [] == nodes[from].edges;
    hide FindEdge;
  }

  /** And every link that is justified is there afterwards. */
  lemma LinksAreMade(
    nodes: seq<Node<real>>, metric: Metric, a: nat, b: nat, walkable: bool, stepOffClear: bool)
    requires TargetsInRange(nodes) && a < |nodes| && b < |nodes| && a != b
    ensures var now := TypedLinks(nodes, metric, a, b, walkable, stepOffClear);
            && (walkable ==> FindEdge(now[a].edges, b) >= 0 && FindEdge(now[b].edges, a) >= 0)
            && (Justified(nodes, a, b, EDGE_DROP, walkable, stepOffClear) ==> FindEdge(now[a].edges, b) >= 0)
            && (Justified(nodes, b, a, EDGE_DROP, walkable, stepOffClear) ==> FindEdge(now[b].edges, a) >= 0)
  {
    hide FindEdge;
    hide Linked;
    var dz := Height(nodes, b) - Height(nodes, a);
    var cost := metric(nodes[a].origin, nodes[b].origin);
    var ty := if !walkable then EDGE_DROP else if -FLAT_DZ <= dz <= FLAT_DZ then 0 else EDGE_STEP;
    LinkedIs(nodes, a, Edge(b, ty, cost));
    LinkedIs(nodes, b, Edge(a, ty, cost));
    LinkedIs(Linked(nodes, a, Edge(b, ty, cost)), b, Edge(a, ty, cost));
  }

  lemma AppendedIsFound(edges: seq<Edge<real>>, to: nat)
    ensures forall e: Edge<real> {:trigger edges + [e]} :: e.to == to ==> FindEdge(edges + [e], to) >= 0
  {
    forall e: Edge<real> {:trigger edges + [e]} | e.to == to ensures FindEdge(edges + [e], to) >= 0 {
      assert (edges + [e])[|edges|].to == to;
    }
  }

  // ---- the cache ----------------------------------------------------------------------------------

  /** The tree the cache has for a goal and masks. */
  function TreeFor(cache: seq<Precompute>, goal: nat, nodeMask: bv32, edgeMask: bv32): Option<Precompute> {
    var i := Find(cache, goal, nodeMask, edgeMask);
    if i < 0 then None else Some(cache[i])
  }

  lemma FindIs(cache: seq<Precompute>, i: nat, goal: nat, nodeMask: bv32, edgeMask: bv32)
    requires i < |cache| && cache[i].For(goal, nodeMask, edgeMask)
    requires forall k :: 0 <= k < |cache| && k != i ==> !cache[k].For(goal, nodeMask, edgeMask)
    ensures TreeFor(cache, goal, nodeMask, edgeMask) == Some(cache[i])
  {
  }

  /** One tree per goal and masks. */
  ghost predicate OneEach(cache: seq<Precompute>) {
    forall i, j :: 0 <= i < j < |cache| ==> !cache[i].For(cache[j].goal, cache[j].nodeMask, cache[j].edgeMask)
  }

  lemma NoneFound(cache: seq<Precompute>, goal: nat, nodeMask: bv32, edgeMask: bv32)
    requires forall k :: 0 <= k < |cache| ==> !cache[k].For(goal, nodeMask, edgeMask)
    ensures TreeFor(cache, goal, nodeMask, edgeMask) == None
  {
  }

  lemma CachedStaysOneEach(cache: seq<Precompute>, entry: Precompute)
    requires OneEach(cache) && |cache| <= 8
    ensures OneEach(Cached(cache, entry)) && |Cached(cache, entry)| <= 8
  {
  }

  /** In a cache with one tree each, the one at this place is the one that is found. */
  lemma FoundHere(cache: seq<Precompute>, i: nat, goal: nat, nodeMask: bv32, edgeMask: bv32)
    requires OneEach(cache) && i < |cache| && cache[i].For(goal, nodeMask, edgeMask)
    ensures TreeFor(cache, goal, nodeMask, edgeMask) == Some(cache[i])
  {
    FindIs(cache, i, goal, nodeMask, edgeMask);
  }

  /**
   After a precompute the cache has the new tree for its goal and masks, and for all others the
   tree it had: only a full cache forgets one, its oldest, and only for a goal and masks it did not have.
   */
  lemma CacheForgetsOldestOnly(cache: seq<Precompute>, entry: Precompute, goal: nat, nodeMask: bv32, edgeMask: bv32)
    requires OneEach(cache) && |cache| <= 8
    ensures var had := TreeFor(cache, entry.goal, entry.nodeMask, entry.edgeMask).Some?;
            TreeFor(Cached(cache, entry), goal, nodeMask, edgeMask) ==
              if entry.For(goal, nodeMask, edgeMask) then Some(entry)
              else if |cache| == 8 && !had && cache[0].For(goal, nodeMask, edgeMask) then None
              else TreeFor(cache, goal, nodeMask, edgeMask)
  {
    CachedStaysOneEach(cache, entry);
    CachedShape(cache, entry);
    var now := Cached(cache, entry);
    var i := Find(cache, entry.goal, entry.nodeMask, entry.edgeMask);
    if entry.For(goal, nodeMask, edgeMask) {
      hide OneEach;
      hide Find;
      FoundHere(now, if i >= 0 then i else |now| - 1, goal, nodeMask, edgeMask);
    } else {
      OthersAreKept(cache, now, entry, i, goal, nodeMask, edgeMask);
    }
  }

  /** `now` is the cache with the entry at the i-th place, or at the end, the oldest dropped if it was full. */
  ghost predicate Stored(cache: seq<Precompute>, now: seq<Precompute>, entry: Precompute, i: int) {
    if 0 <= i < |cache| then now == cache[i := entry]
    else if |cache| == 8 then now == cache[1..] + [entry] else now == cache + [entry]
  }

  lemma CachedShape(cache: seq<Precompute>, entry: Precompute)
    requires |cache| <= 8
    ensures Stored(cache, Cached(cache, entry), entry, Find(cache, entry.goal, entry.nodeMask, entry.edgeMask))
  {
  }

  lemma OthersAreKept(cache: seq<Precompute>, now: seq<Precompute>, entry: Precompute, i: int, goal: nat,
      nodeMask: bv32, edgeMask: bv32)
    requires OneEach(cache) && OneEach(now) && |cache| <= 8 && Stored(cache, now, entry, i)
    requires !entry.For(goal, nodeMask, edgeMask)
    requires 0 <= i < |cache| ==> cache[i].For(entry.goal, entry.nodeMask, entry.edgeMask)
    ensures TreeFor(now, goal, nodeMask, edgeMask) ==
            if |cache| == 8 && !(0 <= i < |cache|) && cache[0].For(goal, nodeMask, edgeMask) then None
            else TreeFor(cache, goal, nodeMask, edgeMask)
  {
    var k := Find(cache, goal, nodeMask, edgeMask);
    var shift := if !(0 <= i < |cache|) && |cache| == 8 then 1 else 0;
    NoOther(cache, k, goal, nodeMask, edgeMask);
    hide Find;
    hide OneEach;
    if k >= shift {
      assert now[k - shift] == cache[k];
      FoundHere(now, k - shift, goal, nodeMask, edgeMask);
    } else {
      forall j | 0 <= j < |now| ensures !now[j].For(goal, nodeMask, edgeMask) {
        assert now[j] == entry || now[j] == cache[j + shift];
      }
      NoneFound(now, goal, nodeMask, edgeMask);
    }
  }

  /** What is found, if anything, is the only one. */
  lemma NoOther(cache: seq<Precompute>, k: int, goal: nat, nodeMask: bv32, edgeMask: bv32)
    requires OneEach(cache) && k == Find(cache, goal, nodeMask, edgeMask)
    ensures forall j :: 0 <= j < |cache| && j != k ==> !cache[j].For(goal, nodeMask, edgeMask)
  {
  }
}
