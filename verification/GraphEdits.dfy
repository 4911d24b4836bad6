/**
 What the edits of a graph do to its node list (code/gsc_graph.cpp, 144-159,
 309-370, 1281-1376, 1476-1558, 1637-1704, 1923-1946), and what they keep.
 */
module GraphEdits {
  import opened GraphTypes

  /** The node list is consistent: targets exist, removed nodes are cut off. */
  ghost predicate Consistent<Num>(nodes: seq<Node<Num>>) {
    TargetsInRange(nodes) && RemovedIsolated(nodes)
  }

  // ---- edges of one node -------------------------------------------------------

  /** The first edge to `to`, or -1. */
  function FindEdge<Num>(edges: seq<Edge<Num>>, to: nat): (r: int)
    ensures -1 <= r < |edges|
    ensures r >= 0 ==> edges[r].to == to && forall k :: 0 <= k < r ==> edges[k].to != to
    ensures r < 0 ==> forall k :: 0 <= k < |edges| ==> edges[k].to != to
  {
    if edges == [] then -1
    else if edges[0].to == to then 0
    else var r := FindEdge(edges[1..], to); if r < 0 then -1 else r + 1
  }

  /** The edges that do not lead to `to`, in order. */
  function Without<Num>(edges: seq<Edge<Num>>, to: nat): (r: seq<Edge<Num>>)
    ensures forall e | e in r :: e in edges && e.to != to
    ensures forall e | e in edges :: e.to != to ==> e in r
    ensures |r| <= |edges|
  {
    if edges == [] then []
    else if edges[0].to == to then Without(edges[1..], to)
    else [edges[0]] + Without(edges[1..], to)
  }

  // ---- the edge count ----------------------------------------------------------

  lemma {:induction false} EdgeTotalUpdate<Num>(nodes: seq<Node<Num>>, u: nat, node: Node<Num>)
    requires u < |nodes|
    ensures EdgeTotal(nodes[u := node]) + |nodes[u].edges| == EdgeTotal(nodes) + |node.edges|
  {
    var last := |nodes| - 1;
    var more := nodes[u := node];
    if u == last {
      assert more[..last] == nodes[..last];
    } else {
      assert more[..last] == nodes[..last][u := node];
      EdgeTotalUpdate(nodes[..last], u, node);
    }
  }

  lemma EdgeTotalAppend<Num>(nodes: seq<Node<Num>>, node: Node<Num>)
    ensures EdgeTotal(nodes + [node]) == EdgeTotal(nodes) + |node.edges|
  {
    assert (nodes + [node])[..|nodes|] == nodes;
  }

  // ---- the edits -----------------------------------------------------------------

  function SetEdges<Num>(nodes: seq<Node<Num>>, u: nat, edges: seq<Edge<Num>>): (r: seq<Node<Num>>)
    requires u < |nodes|
    ensures |r| == |nodes|
  {
    nodes[u := nodes[u].(edges := edges)]
  }

  /** A new edge between two nodes that are not removed. */
  lemma AddEdgeKeeps<Num>(nodes: seq<Node<Num>>, u: nat, e: Edge<Num>)
    requires Consistent(nodes) && u < |nodes| && e.to < |nodes| && !nodes[u].removed && !nodes[e.to].removed
    ensures Consistent(SetEdges(nodes, u, nodes[u].edges + [e]))
  {
    var r := SetEdges(nodes, u, nodes[u].edges + [e]);
    assert TargetsInRange(r);
    forall x, i {:trigger LiveEdge(r, x, i)} | 0 <= x < |r| && 0 <= i < |r[x].edges| ensures LiveEdge(r, x, i) {
      assert (x == u && i == |nodes[u].edges|) || LiveEdge(nodes, x, i);
    }
  }

  /** A new node without edges. */
  lemma AppendKeeps<Num>(nodes: seq<Node<Num>>, node: Node<Num>)
    requires Consistent(nodes) && node.edges == []
    ensures Consistent(nodes + [node])
  {
    var r := nodes + [node];
    assert TargetsInRange(r);
    forall x, i {:trigger LiveEdge(r, x, i)} | 0 <= x < |r| && 0 <= i < |r[x].edges| ensures LiveEdge(r, x, i) {
      assert LiveEdge(nodes, x, i);
    }
  }

  lemma SetEdgesCounts<Num>(nodes: seq<Node<Num>>, u: nat, edges: seq<Edge<Num>>)
    requires u < |nodes|
    ensures EdgeTotal(SetEdges(nodes, u, edges)) + |nodes[u].edges| == EdgeTotal(nodes) + |edges|
  {
    EdgeTotalUpdate(nodes, u, nodes[u].(edges := edges));
  }

  /** Edge i of u in `now` leads where an edge of u led in `was`. */
  ghost predicate Inherited<Num>(was: seq<Node<Num>>, now: seq<Node<Num>>, u: nat, i: nat)
    requires u < |was| == |now| && i < |now[u].edges|
  {
    exists k :: 0 <= k < |was[u].edges| && was[u].edges[k].to == now[u].edges[i].to
  }

  /** Edges may be dropped, reordered, retyped and recosted, as long as none leads anywhere new. */
  lemma InheritedKeeps<Num>(was: seq<Node<Num>>, now: seq<Node<Num>>)
    requires Consistent(was) && |now| == |was|
    requires forall u :: 0 <= u < |was| ==> now[u].removed == was[u].removed
    requires forall u, i :: 0 <= u < |was| && 0 <= i < |now[u].edges| ==> Inherited(was, now, u, i)
    ensures Consistent(now)
  {
    forall u, i | 0 <= u < |was| && 0 <= i < |now[u].edges| ensures now[u].edges[i].to < |now| {
      assert Inherited(was, now, u, i);
    }
    forall u, i {:trigger LiveEdge(now, u, i)} | 0 <= u < |was| && 0 <= i < |now[u].edges| ensures LiveEdge(now, u, i) {
      assert Inherited(was, now, u, i);
      var k :| 0 <= k < |was[u].edges| && was[u].edges[k].to == now[u].edges[i].to;
      assert LiveEdge(was, u, k);
    }
  }

  /** Same removed flags and the same targets in the same places: nothing to check. */
  lemma RetargetNothing<Num>(was: seq<Node<Num>>, now: seq<Node<Num>>)
    requires Consistent(was) && |now| == |was|
    requires forall u :: 0 <= u < |was| ==> now[u].removed == was[u].removed && |now[u].edges| == |was[u].edges|
    requires forall u, i :: 0 <= u < |was| && 0 <= i < |was[u].edges| ==> now[u].edges[i].to == was[u].edges[i].to
    ensures Consistent(now) && EdgeTotal(now) == EdgeTotal(was)
  {
    forall u, i | 0 <= u < |was| && 0 <= i < |now[u].edges| ensures Inherited(was, now, u, i) {
      assert was[u].edges[i].to == now[u].edges[i].to;
    }
    InheritedKeeps(was, now);
    SameDegrees(was, now);
  }

  lemma DropOne<Num>(was: seq<Node<Num>>, u: nat, i: nat)
    requires Consistent(was) && u < |was| && i < |was[u].edges|
    ensures Consistent(SetEdges(was, u, was[u].edges[..i] + was[u].edges[i + 1..]))
  {
    var now := SetEdges(was, u, was[u].edges[..i] + was[u].edges[i + 1..]);
    forall x, k | 0 <= x < |was| && 0 <= k < |now[x].edges| ensures Inherited(was, now, x, k) {
      assert now[x].edges[k] == was[x].edges[if x == u && k >= i then k + 1 else k];
    }
    InheritedKeeps(was, now);
  }

  /** The tombstone delete: no edge into the node or out of it is left, every other edge is. */
  function Purge<Num>(nodes: seq<Node<Num>>, id: nat): (r: seq<Node<Num>>)
    requires id < |nodes|
    ensures |r| == |nodes|
  {
    seq(|nodes|, i requires 0 <= i < |nodes| =>
      if i == id then nodes[i].(edges := [], removed := true)
      else nodes[i].(edges := Without(nodes[i].edges, id)))
  }

  lemma {:induction false} WithoutNone<Num>(edges: seq<Edge<Num>>, to: nat)
    requires forall k :: 0 <= k < |edges| ==> edges[k].to != to
    ensures Without(edges, to) == edges
  {
    if edges != [] {
      WithoutNone(edges[1..], to);
    }
  }

  /** Erasing an edge to `to` does not change which edges lead elsewhere. */
  lemma {:induction false} WithoutErased<Num>(edges: seq<Edge<Num>>, to: nat, k: nat)
    requires k < |edges| && edges[k].to == to
    ensures Without(edges[..k] + edges[k + 1..], to) == Without(edges, to)
  {
    if k > 0 {
      assert (edges[..k] + edges[k + 1..])[1..] == edges[1..][..k - 1] + edges[1..][k..];
      WithoutErased(edges[1..], to, k - 1);
    } else {
      assert edges[..k] + edges[k + 1..] == edges[1..];
    }
  }

  lemma PurgeKeeps<Num>(nodes: seq<Node<Num>>, id: nat)
    requires Consistent(nodes) && id < |nodes|
    ensures Consistent(Purge(nodes, id))
  {
    var r := Purge(nodes, id);
    forall u, i | 0 <= u < |r| && 0 <= i < |r[u].edges|
      ensures r[u].edges[i].to < |r| && r[u].edges[i].to != id && u != id {
      assert r[u].edges[i] in Without(nodes[u].edges, id);
    }
    forall u, i {:trigger LiveEdge(r, u, i)} | 0 <= u < |r| && 0 <= i < |r[u].edges| ensures LiveEdge(r, u, i) {
      assert r[u].edges[i] in Without(nodes[u].edges, id);
      var k :| 0 <= k < |nodes[u].edges| && nodes[u].edges[k] == r[u].edges[i];
      assert LiveEdge(nodes, u, k);
    }
  }

  // ---- moving a node -----------------------------------------------------------

  /** The cost of an edge after its ends may have moved: the distance, if it touches the moved node. */
  function Recost(nodes: seq<Node<real>>, metric: Metric, id: nat, u: nat, e: Edge<real>): Edge<real>
    requires u < |nodes| && e.to < |nodes|
  {
    if u == id || e.to == id then e.(cost := metric(nodes[u].origin, nodes[e.to].origin)) else e
  }

  function RecostAll(nodes: seq<Node<real>>, metric: Metric, id: nat, u: nat): (r: seq<Edge<real>>)
    requires u < |nodes| && forall i :: 0 <= i < |nodes[u].edges| ==> nodes[u].edges[i].to < |nodes|
    ensures |r| == |nodes[u].edges|
  {
    seq(|nodes[u].edges|, i requires 0 <= i < |nodes[u].edges| => Recost(nodes, metric, id, u, nodes[u].edges[i]))
  }

  function Place(nodes: seq<Node<real>>, id: nat, origin: Vec<real>): (r: seq<Node<real>>)
    requires id < |nodes|
    ensures |r| == |nodes| && (TargetsInRange(nodes) ==> TargetsInRange(r))
  {
    nodes[id := nodes[id].(origin := origin)]
  }

  /** A node set to a new origin: every edge touching it costs its new length, no other edge changes. */
  function Move(nodes: seq<Node<real>>, metric: Metric, id: nat, origin: Vec<real>): (r: seq<Node<real>>)
    requires TargetsInRange(nodes) && id < |nodes|
    ensures |r| == |nodes|
  {
    var placed := Place(nodes, id, origin);
    seq(|nodes|, u requires 0 <= u < |nodes| => placed[u].(edges := RecostAll(placed, metric, id, u)))
  }

  lemma MoveKeeps(nodes: seq<Node<real>>, metric: Metric, id: nat, origin: Vec<real>)
    requires Consistent(nodes) && id < |nodes|
    ensures Consistent(Move(nodes, metric, id, origin))
        && EdgeTotal(Move(nodes, metric, id, origin)) == EdgeTotal(nodes)
  {
    var r := Move(nodes, metric, id, origin);
    forall u, i | 0 <= u < |r| && 0 <= i < |r[u].edges| ensures Inherited(nodes, r, u, i) {
      assert r[u].edges[i].to == nodes[u].edges[i].to;
    }
    InheritedKeeps(nodes, r);
    SameDegrees(nodes, r);
  }

  /** Two lists of nodes with as many edges at every node have as many edges. */
  lemma {:induction false} SameDegrees<Num>(a: seq<Node<Num>>, b: seq<Node<Num>>)
    requires |a| == |b| && forall u :: 0 <= u < |a| ==> |a[u].edges| == |b[u].edges|
    ensures EdgeTotal(a) == EdgeTotal(b)
  {
    if a != [] {
      SameDegrees(a[..|a| - 1], b[..|b| - 1]);
    }
  }
}
