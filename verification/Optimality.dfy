/**
 What a full answer costs (code/gsc_graph.cpp, 747-836). Closed nodes are never
 reopened, so the argument cannot be that of textbook A*: the bound rests on the
 straight line being consistent with the edge costs.
 */
module Optimality {
  import opened EntryHeap
  import opened GraphTypes
  import opened Search
  import opened SearchTheorems
  import opened SearchResults

  /** Along every allowed edge the straight line to the goal shortens by no more than the edge costs. */
  ghost predicate Consistent(p: Problem)
    requires WellFormed(p)
  {
    forall u: nat, i: nat {:trigger Allowed(p.nodes, p.rules, u, i)} :: Allowed(p.nodes, p.rules, u, i) ==>
      var e := p.nodes[u].edges[i]; e.cost >= 0.0 && H(p, u) <= e.cost + H(p, e.to)
  }

  /** The laws of distance: never negative, and no detour is shorter. */
  ghost predicate IsDistance(metric: Metric) {
    && (forall a, b :: metric(a, b) >= 0.0)
    && (forall a, b, c :: metric(a, c) <= metric(a, b) + metric(b, c))
  }

  /** Every edge costs at least the straight line between its ends, as the default cost does. */
  ghost predicate CostsCoverDistance(nodes: seq<Node<real>>, metric: Metric)
    requires TargetsInRange(nodes)
  {
    forall u, i :: 0 <= u < |nodes| && 0 <= i < |nodes[u].edges| ==>
      nodes[u].edges[i].cost >= metric(nodes[u].origin, nodes[nodes[u].edges[i].to].origin)
  }

  lemma DistanceCostsAreConsistent(p: Problem)
    requires WellFormed(p) && IsDistance(p.metric) && CostsCoverDistance(p.nodes, p.metric)
    ensures Consistent(p)
  {
    forall u: nat, i: nat {:trigger Allowed(p.nodes, p.rules, u, i)} | Allowed(p.nodes, p.rules, u, i)
      ensures var e := p.nodes[u].edges[i]; e.cost >= 0.0 && H(p, u) <= e.cost + H(p, e.to)
    {
      var e := p.nodes[u].edges[i];
      var a, b, c := p.nodes[u].origin, p.nodes[e.to].origin, p.nodes[p.goal].origin;
      assert p.metric(a, c) <= p.metric(a, b) + p.metric(b, c);
      assert p.metric(a, b) >= 0.0;
    }
  }

  lemma {:induction false} WalkCoversDistance(p: Problem, a: nat, steps: seq<Step>, b: nat)
    requires WellFormed(p) && Consistent(p) && IsWalk(p.nodes, p.rules, a, steps, b) && b < |p.nodes|
    ensures H(p, a) <= WalkCost(p.nodes, p.rules, a, steps, b) + H(p, b)
    ensures WalkCost(p.nodes, p.rules, a, steps, b) >= 0.0
    decreases |steps|
  {
    if steps != [] {
      WalkCoversDistance(p, Target(p.nodes, steps[0]), steps[1..], b);
    }
  }

  ghost function Times(w: real, cost: real): real {
    w * cost
  }

  /** The score of v is at most `weight` times the cost of the walk. */
  ghost predicate Bounded(p: Problem, s: Frontier, v: nat, cost: real)
    requires v in s.g
  {
    s.g[v] <= Times(p.weight, cost)
  }

  /** Every closed node's score is within `weight` of every walk to it. */
  ghost predicate NearOptimal(p: Problem, s: Frontier)
    requires WellFormed(p) && Ready(p, s)
  {
    forall v, steps {:trigger IsWalk(p.nodes, p.rules, p.start, steps, v)} ::
      v in s.closed && IsWalk(p.nodes, p.rules, p.start, steps, v) ==>
        Bounded(p, s, v, WalkCost(p.nodes, p.rules, p.start, steps, v))
  }

  /** The arithmetic of one step over the frontier: `u` is closed, `v` open, `n` popped. */
  lemma FrontierArithmetic(w: real, gu: real, done: real, c: real, gv: real, hv: real, rest: real, gn: real, hn: real)
    requires w >= 1.0 && c >= 0.0
    requires gu <= w * done && gv <= gu + c && hv <= rest + hn && gn + hn * w <= gv + hv * w
    ensures gn <= w * (done + (c + rest))
  {
    assert w * c >= c;
    assert (hv - hn) * w <= rest * w;
  }

  /** The popped key is least among those of the open nodes. */
  lemma OpenKeysAreNotBelow(p: Problem, s: Frontier, v: nat)
    requires WellFormed(p) && Ready(p, s) && Queued(p, s) && s.heap != [] && !Stale(p, s)
    requires v in s.g && !Closed(p, s, v)
    ensures F(p, s, s.heap[0].node) <= F(p, s, v)
  {
    hide F;
    PopIsExtractMin(s.heap);
    assert Entry(F(p, s, v), v) in s.heap;
  }

  /** The edge over which a walk leaves the closed nodes: its end is open, and its key is not below the popped one. */
  lemma FrontierEdge(p: Problem, s: Frontier, u: nat, i: nat, done: real, rest: real)
    requires WellFormed(p) && Consistent(p) && p.weight >= 1.0
    requires Invariant(p, s) && s.heap != [] && !Stale(p, s)
    requires u in s.closed && Allowed(p.nodes, p.rules, u, i) && p.nodes[u].edges[i].to !in s.closed
    requires Bounded(p, s, u, done) && H(p, p.nodes[u].edges[i].to) <= rest + H(p, s.heap[0].node)
    ensures Bounded(p, s, s.heap[0].node, done + (p.nodes[u].edges[i].cost + rest))
  {
    var n := s.heap[0].node;
    var e := p.nodes[u].edges[i];
    assert Followed(p, s, u, i);
    OpenKeysAreNotBelow(p, s, e.to);
    hide Invariant;
    hide Allowed;
    FrontierArithmetic(p.weight, s.g[u], done, e.cost, s.g[e.to], H(p, e.to), rest, s.g[n], H(p, n));
  }

  /**
   The popped node n against a walk that starts with `done`, inside the closed
   nodes, and goes on over `rest`.
   */
  lemma {:induction false} FrontierBound(p: Problem, s: Frontier, done: seq<Step>, u: nat, rest: seq<Step>)
    requires WellFormed(p) && Consistent(p) && p.weight >= 1.0
    requires Invariant(p, s) && NearOptimal(p, s) && s.heap != [] && !Stale(p, s)
    requires u in s.closed && IsWalk(p.nodes, p.rules, p.start, done, u)
    requires IsWalk(p.nodes, p.rules, u, rest, s.heap[0].node)
    ensures Bounded(p, s, s.heap[0].node, WalkCost(p.nodes, p.rules, p.start, done, u)
                                          + WalkCost(p.nodes, p.rules, u, rest, s.heap[0].node))
    decreases |rest|
  {
    hide Queued;
    hide AllReached;
    hide ParentsFirst;
    hide BestIsClosest;
    hide AllFollowed;
    hide Consistent;
    hide Times;
    var n := s.heap[0].node;
    assert n < |p.nodes|;
    var i := rest[0].index;
    var v := Target(p.nodes, rest[0]);
    ExtendWalk(p.nodes, p.rules, p.start, done, u, i);
    if v in s.closed {
      FrontierBound(p, s, done + [Step(u, i)], v, rest[1..]);
    } else {
      WalkCoversDistance(p, v, rest[1..], n);
      FrontierEdge(p, s, u, i, WalkCost(p.nodes, p.rules, p.start, done, u),
          WalkCost(p.nodes, p.rules, v, rest[1..], n));
    }
  }

  /** Whatever the search pops next is near-optimal. */
  lemma PopIsNearOptimal(p: Problem, s: Frontier, steps: seq<Step>)
    requires WellFormed(p) && Consistent(p) && p.weight >= 1.0
    requires Invariant(p, s) && NearOptimal(p, s) && s.heap != [] && !Stale(p, s)
    requires IsWalk(p.nodes, p.rules, p.start, steps, s.heap[0].node)
    ensures Bounded(p, s, s.heap[0].node, WalkCost(p.nodes, p.rules, p.start, steps, s.heap[0].node))
  {
    if s.heap[0].node == p.start {
      WalkCoversDistance(p, p.start, steps, p.start);
    } else {
      FrontierBound(p, s, [], p.start, steps);
    }
  }

  /** Following edges changes no closed node's score. */
  lemma {:induction false} RelaxFromKeepsClosed(p: Problem, s: Frontier, cur: nat, k: nat)
    requires WellFormed(p) && Ready(p, s)
    requires cur in s.g && k <= |p.nodes[cur].edges|
    ensures forall v :: v in s.closed ==> RelaxFrom(p, s, cur, k).g[v] == s.g[v]
    decreases |p.nodes[cur].edges| - k
  {
    if k < |p.nodes[cur].edges| {
      var r := Relax(p, s, cur, p.nodes[cur].edges[k]);
      assert forall v :: v in s.closed ==> r.g[v] == s.g[v];
      hide Relax;
      RelaxFromKeepsClosed(p, r, cur, k + 1);
    }
  }

  /** A turn that goes on leaves the closed nodes' scores alone, and the score of the node it closes. */
  lemma AdvanceKeepsScores(p: Problem, s: Frontier)
    requires WellFormed(p) && Invariant(p, s) && Advance(p, s).More?
    ensures forall v :: v in Advance(p, s).state.closed ==> v in s.g && Advance(p, s).state.g[v] == s.g[v]
    ensures forall v :: v in Advance(p, s).state.closed && v !in s.closed ==>
        s.heap != [] && v == s.heap[0].node && !Stale(p, s)
  {
    if !Stale(p, s) {
      RelaxFromKeepsClosed(p, Close(Pop(s), s.heap[0].node), s.heap[0].node, 0);
    }
    hide RelaxFrom;
    hide Queued;
    hide AllFollowed;
  }

  lemma AdvanceKeepsNearOptimal(p: Problem, s: Frontier)
    requires WellFormed(p) && Consistent(p) && p.weight >= 1.0
    requires Invariant(p, s) && NearOptimal(p, s) && Advance(p, s).More?
    ensures NearOptimal(p, Advance(p, s).state)
  {
    hide Times;
    hide Consistent;
    AdvanceKeepsScores(p, s);
    var r := Advance(p, s).state;
    hide Advance;
    forall v, steps {:trigger IsWalk(p.nodes, p.rules, p.start, steps, v)} |
      v in r.closed && IsWalk(p.nodes, p.rules, p.start, steps, v)
      ensures Bounded(p, r, v, WalkCost(p.nodes, p.rules, p.start, steps, v))
    {
      if v !in s.closed {
        PopIsNearOptimal(p, s, steps);
      }
    }
  }

  lemma FoundMeansPopped(p: Problem, s: Frontier)
    requires WellFormed(p) && Ready(p, s) && Advance(p, s).Done? && Advance(p, s).outcome.found
    ensures s.heap != [] && s.heap[0].node == p.goal && !Stale(p, s)
    ensures Advance(p, s).outcome.state.g == s.g
  {
    hide RelaxFrom;
  }

  lemma {:induction false} RunIsNearOptimal(p: Problem, s: Frontier, steps: seq<Step>)
    requires WellFormed(p) && Consistent(p) && p.weight >= 1.0
    requires Invariant(p, s) && NearOptimal(p, s) && Run(p, s).found
    requires IsWalk(p.nodes, p.rules, p.start, steps, p.goal)
    ensures Bounded(p, Run(p, s).state, p.goal, WalkCost(p.nodes, p.rules, p.start, steps, p.goal))
    decreases Unexpanded(p, s), |s.heap|
  {
    hide Times;
    hide Consistent;
    hide Advance;
    match Advance(p, s)
    case Done(_) =>
      FoundMeansPopped(p, s);
      PopIsNearOptimal(p, s, steps);
    case More(t) =>
      AdvanceKeeps(p, s);
      AdvanceKeepsNearOptimal(p, s);
      TurnsDecrease(p, s);
      RunIsNearOptimal(p, t, steps);
  }

  /** The walk costs at most `weight` times any other allowed walk to the goal. */
  ghost predicate WithinWeight(p: Problem, mine: seq<Step>)
    requires WellFormed(p)
  {
    && IsWalk(p.nodes, p.rules, p.start, mine, p.goal)
    && forall other :: IsWalk(p.nodes, p.rules, p.start, other, p.goal) ==>
      WalkCost(p.nodes, p.rules, p.start, mine, p.goal) <= p.weight * WalkCost(p.nodes, p.rules, p.start, other, p.goal)
  }

  lemma BeginIsNearOptimal(p: Problem)
    requires WellFormed(p)
    ensures Invariant(p, Begin(p)) && NearOptimal(p, Begin(p))
  {
    BeginInvariant(p);
    hide Invariant;
    hide Times;
  }

  lemma FoundScoreIsNearOptimal(p: Problem, other: seq<Step>)
    requires WellFormed(p) && Consistent(p) && p.weight >= 1.0 && Run(p, Begin(p)).found
    requires IsWalk(p.nodes, p.rules, p.start, other, p.goal)
    ensures Run(p, Begin(p)).state.g[p.goal] <= p.weight * WalkCost(p.nodes, p.rules, p.start, other, p.goal)
  {
    hide Run;
    hide Begin;
    hide Invariant;
    hide NearOptimal;
    hide Consistent;
    BeginIsNearOptimal(p);
    RunIsNearOptimal(p, Begin(p), other);
  }

  lemma FoundIsWithinWeight(p: Problem) returns (mine: seq<Step>)
    requires WellFormed(p) && Consistent(p) && p.weight >= 1.0 && p.start != p.goal
    requires Run(p, Begin(p)).found
    ensures WithinWeight(p, mine)
    ensures Visits(p.nodes, p.rules, p.start, mine, p.goal) == Solve(p)
    ensures WalkCost(p.nodes, p.rules, p.start, mine, p.goal) == Run(p, Begin(p)).state.g[p.goal]
  {
    hide Run;
    hide Begin;
    hide Solve;
    hide Consistent;
    mine := AnswerWalk(p);
    forall other | IsWalk(p.nodes, p.rules, p.start, other, p.goal)
      ensures Run(p, Begin(p)).state.g[p.goal] <= p.weight * WalkCost(p.nodes, p.rules, p.start, other, p.goal)
    {
      FoundScoreIsNearOptimal(p, other);
    }
  }

  /**
   A full answer found without a budget costs at most `weight` times any other
   allowed walk to the goal; with weight one there is no cheaper walk.
   */
  lemma FullAnswerIsNearOptimal(p: Problem)
    requires WellFormed(p) && Consistent(p) && p.weight >= 1.0 && p.budget <= 0
    requires Solve(p) != [] && Solve(p)[|Solve(p)| - 1] == p.goal
    ensures exists mine :: Spells(p.nodes, p.rules, mine, Solve(p)) && WithinWeight(p, mine)
  {
    if p.start == p.goal {
      var mine: seq<Step> := [];
      assert Spells(p.nodes, p.rules, mine, Solve(p));
      forall other | IsWalk(p.nodes, p.rules, p.start, other, p.goal)
        ensures 0.0 <= p.weight * WalkCost(p.nodes, p.rules, p.start, other, p.goal)
      {
        WalkCoversDistance(p, p.start, other, p.goal);
      }
      assert WithinWeight(p, mine);
    } else {
      FullAnswerIsFound(p);
      var mine := FoundIsWithinWeight(p);
      hide Solve;
      hide WithinWeight;
      AnswerIsSimpleWalk(p);
      assert Spells(p.nodes, p.rules, mine, Solve(p));
    }
  }

  lemma FullAnswerIsFound(p: Problem)
    requires WellFormed(p) && p.budget <= 0 && p.start != p.goal
    requires Solve(p) != [] && Solve(p)[|Solve(p)| - 1] == p.goal
    ensures Run(p, Begin(p)).found
  {
    var o := Run(p, Begin(p));
    SearchEndsInTree(p);
    BeginInvariant(p);
    RunExhausts(p, Begin(p));
    var steps := AnswerWalk(p);
    assert Solve(p)[|Solve(p)| - 1] == Last(p, o);
    hide Run;
    hide Solve;
    if !o.found {
      ExhaustedAnswer(p, o);
    }
  }
}
