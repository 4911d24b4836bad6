/**
 The weighted A* search of graphFindPath as a function of the graph and the query
 (code/gsc_graph.cpp, 747-851): no scratch arrays, no stamps. The class AStarGraph
 runs the same search in stamped arrays and is proved to give this answer; what
 the answer is worth is proved in SearchTheorems.
 */
module Search {
  import opened EntryHeap
  import opened GraphTypes

  /** One query; a budget of zero or less means no limit on expansions. */
  datatype Problem = Problem(
    nodes: seq<Node<real>>,
    metric: Metric,
    rules: Rules,
    start: nat,
    goal: nat,
    weight: real,
    budget: int)

  ghost predicate WellFormed(p: Problem) {
    && TargetsInRange(p.nodes)
    && p.start < |p.nodes|
    && p.goal < |p.nodes|
  }

  /**
   What a running search knows. `closed` maps a closed node to the number of
   expansions before its own.
   */
  datatype Frontier = Frontier(
    g: map<nat, real>,
    parent: seq<nat>,
    heap: seq<Entry>,
    closed: map<nat, nat>,
    expansions: nat,
    best: nat)

  /** Straight-line distance to the goal. */
  function H(p: Problem, v: nat): real
    requires p.goal < |p.nodes| && v < |p.nodes|
  {
    p.metric(p.nodes[v].origin, p.nodes[p.goal].origin)
  }

  /** Score plus weighted distance to the goal. */
  function Key(p: Problem, score: real, v: nat): real
    requires p.goal < |p.nodes| && v < |p.nodes|
  {
    score + H(p, v) * p.weight
  }

  /** The key under which v belongs in the heap. */
  function F(p: Problem, s: Frontier, v: nat): real
    requires p.goal < |p.nodes| && v < |p.nodes| && v in s.g
  {
    Key(p, s.g[v], v)
  }

  /** Closed for this query: already expanded, or on the caller's skip list. */
  predicate Closed(p: Problem, s: Frontier, v: nat) {
    v in s.closed || v in p.rules.skip
  }

  /** Every heap entry stands for a node with a score. */
  ghost predicate HeapKnown(s: Frontier) {
    forall e :: e in s.heap ==> e.node in s.g
  }

  /** Enough to run: every node the search holds is a node of the graph it has a score for. */
  ghost predicate Ready(p: Problem, s: Frontier) {
    && (forall v :: v in s.g ==> v < |p.nodes|)
    && |s.parent| == |p.nodes|
    && (forall v :: 0 <= v < |s.parent| ==> s.parent[v] < |p.nodes|)
    && HeapKnown(s)
    && s.best in s.g
    && (forall v :: v in s.closed ==> v in s.g)
  }

  function Begin(p: Problem): (s: Frontier)
    requires WellFormed(p)
    ensures Ready(p, s)
  {
    PushMembers([], Entry(Key(p, 0.0, p.start), p.start));
    Frontier(map[p.start := 0.0], seq(|p.nodes|, _ => p.start),
             Push([], Entry(Key(p, 0.0, p.start), p.start)), map[], 0, p.start)
  }

  /** `next` is reached from `cur` at a new best cost. */
  function Improve(p: Problem, s: Frontier, cur: nat, next: nat, tentative: real): (r: Frontier)
    requires WellFormed(p) && Ready(p, s)
    requires cur in s.g && next < |p.nodes|
    ensures Ready(p, r)
  {
    PushMembers(s.heap, Entry(Key(p, tentative, next), next));
    Frontier(s.g[next := tentative],
             s.parent[next := cur],
             Push(s.heap, Entry(Key(p, tentative, next), next)),
             s.closed,
             s.expansions,
             if H(p, next) < H(p, s.best) then next else s.best)
  }

  /** What following one edge of `cur` does. */
  function Relax(p: Problem, s: Frontier, cur: nat, e: Edge<real>): (r: Frontier)
    requires WellFormed(p) && Ready(p, s)
    requires cur in s.g && e.to < |p.nodes|
    ensures Ready(p, r)
    ensures r.closed == s.closed && r.expansions == s.expansions && s.g.Keys <= r.g.Keys
  {
    if Masked(e.ty, p.rules.edgeMask) || Masked(p.nodes[e.to].ty, p.rules.nodeMask) || Closed(p, s, e.to) then s
    else
      var tentative := s.g[cur] + e.cost;
      if e.to !in s.g || tentative < s.g[e.to] then Improve(p, s, cur, e.to, tentative) else s
  }

  /** The edges of `cur` from the i-th on, in list order. */
  function RelaxFrom(p: Problem, s: Frontier, cur: nat, i: nat): (r: Frontier)
    requires WellFormed(p) && Ready(p, s)
    requires cur in s.g && i <= |p.nodes[cur].edges|
    ensures Ready(p, r)
    ensures r.closed == s.closed && r.expansions == s.expansions && s.g.Keys <= r.g.Keys
    decreases |p.nodes[cur].edges| - i
  {
    if i == |p.nodes[cur].edges| then s
    else RelaxFrom(p, Relax(p, s, cur, p.nodes[cur].edges[i]), cur, i + 1)
  }

  datatype Outcome = Outcome(state: Frontier, found: bool)

  ghost function Unexpanded(p: Problem, s: Frontier): set<nat> {
    set v | 0 <= v < |p.nodes| && v !in s.closed
  }

  function Close(s: Frontier, cur: nat): Frontier {
    s.(closed := s.closed[cur := s.expansions], expansions := s.expansions + 1)
  }

  predicate OutOfBudget(p: Problem, s: Frontier) {
    p.budget > 0 && s.expansions >= p.budget
  }

  /** A popped entry that no longer matches its node's key, or whose node is closed. */
  predicate Stale(p: Problem, s: Frontier)
    requires p.goal < |p.nodes| && s.heap != []
    requires s.heap[0].node < |p.nodes| && s.heap[0].node in s.g
  {
    s.heap[0].f != F(p, s, s.heap[0].node) || Closed(p, s, s.heap[0].node)
  }

  function Pop(s: Frontier): (r: Frontier)
    requires s.heap != []
    ensures |r.heap| == |s.heap| - 1
    ensures HeapKnown(s) ==> HeapKnown(r)
  {
    RestMembers(s.heap);
    s.(heap := Rest(s.heap))
  }

  /** One turn of the search loop either ends the search or leaves more to do. */
  datatype Turn = More(state: Frontier) | Done(outcome: Outcome)

  ghost predicate SameClosed(s: Frontier, t: Frontier) {
    t.closed == s.closed && t.expansions == s.expansions
  }

  /** The popped node, not closed before and not the goal, is closed now. */
  ghost predicate ClosedOne(p: Problem, s: Frontier, t: Frontier) {
    && s.heap != [] && s.heap[0].node !in s.closed && s.heap[0].node != p.goal
    && SameClosed(Close(s, s.heap[0].node), t)
  }

  function Advance(p: Problem, s: Frontier): (r: Turn)
    requires WellFormed(p) && Ready(p, s)
    ensures r.Done? ==> Ready(p, r.outcome.state) && (r.outcome.found ==> p.goal in r.outcome.state.g)
    ensures r.More? ==> Ready(p, r.state)
    ensures r.More? ==> (SameClosed(s, r.state) && |r.state.heap| < |s.heap|) || ClosedOne(p, s, r.state)
    ensures r.Done? ==> SameClosed(s, r.outcome.state) || ClosedOne(p, s, r.outcome.state)
  {
    if s.heap == [] then Done(Outcome(s, false))
    else
      var cur := s.heap[0].node;
      if Stale(p, s) then More(Pop(s))
      else if cur == p.goal then Done(Outcome(Pop(s), true))
      else
        var closed := Close(Pop(s), cur);
        if OutOfBudget(p, closed) then Done(Outcome(closed, false))
        else More(RelaxFrom(p, closed, cur, 0))
  }

  function Run(p: Problem, s: Frontier): (r: Outcome)
    requires WellFormed(p) && Ready(p, s)
    ensures Ready(p, r.state)
    ensures r.found ==> p.goal in r.state.g
    decreases Unexpanded(p, s), |s.heap|
  {
    match Advance(p, s)
    case Done(o) => o
    case More(t) =>
      assert t.closed == s.closed ==> Unexpanded(p, t) == Unexpanded(p, s);
      assert t.closed != s.closed ==>
        s.heap[0].node in Unexpanded(p, s) && s.heap[0].node !in Unexpanded(p, t)
            && Unexpanded(p, t) <= Unexpanded(p, s);
      Run(p, t)
  }

  /** Parent links walked back from `cur`, listed from the far end; `fuel` bounds the length. */
  function Back(s: Frontier, start: nat, cur: nat, fuel: nat): seq<nat>
    requires cur < |s.parent| && forall v :: 0 <= v < |s.parent| ==> s.parent[v] < |s.parent|
    decreases fuel
  {
    if fuel == 0 then []
    else if cur == start then [cur]
    else Back(s, start, s.parent[cur], fuel - 1) + [cur]
  }

  /** The node the returned path ends at. */
  function Last(p: Problem, o: Outcome): nat {
    if o.found then p.goal else o.state.best
  }

  /** The answer of a search: node ids from the start, full or partial. */
  function Solve(p: Problem): seq<nat>
    requires WellFormed(p)
  {
    if p.start == p.goal then [p.start]
    else
      var o := Run(p, Begin(p));
      Back(o.state, p.start, Last(p, o), |p.nodes| + 1)
  }
}
