/**
 What a path query is worth in the caller's own terms (code/gsc_graph.cpp, 619-851): the
 nodes and edges the arguments rule out are never used, and the walks that are left
 decide where the answer ends and what it costs.
 */
module PathQueries {
  import opened GraphTypes
  import opened Search
  import opened SearchResults
  import opened Optimality
  import opened GraphStore
  import CacheTheorems
  import GraphEdits
  import Budgets
  import ShortestTree

  // ---- routes under a query ------------------------------------------------------------

  /** The caller's array names this node. */
  predicate Named(q: Query, v: nat) {
    q.skip.SkipNodes? && v in q.skip.ids
  }

  predicate Shares(ty: bv32, mask: bv32) {
    ty & mask != 0
  }

  /** The node is there, and the arguments do not rule it out. */
  predicate MayMeet(nodes: seq<Node<real>>, q: Query, v: nat) {
    v < |nodes| && !nodes[v].removed && !Shares(nodes[v].ty, q.nodeMask) && !Named(q, v)
  }

  /** The i-th edge of u may be used: neither it nor its end is ruled out. */
  predicate MayUse(nodes: seq<Node<real>>, q: Query, u: nat, i: nat) {
    && u < |nodes| && i < |nodes[u].edges|
    && !Shares(nodes[u].edges[i].ty, q.edgeMask) && MayMeet(nodes, q, nodes[u].edges[i].to)
  }

  /** From a over edges that may be used, at each node the one `via` says, meeting `ids`. */
  ghost predicate IsRoute(nodes: seq<Node<real>>, q: Query, a: nat, via: seq<nat>, ids: seq<nat>)
    decreases |via|
  {
    if via == [] then ids == [a]
    else
      && MayUse(nodes, q, a, via[0])
      && ids != [] && ids[0] == a && IsRoute(nodes, q, nodes[a].edges[via[0]].to, via[1..], ids[1..])
  }

  /** The sum of the edge costs along the way. */
  ghost function RouteCost(nodes: seq<Node<real>>, a: nat, via: seq<nat>): real
    decreases |via|
  {
    if via != [] && a < |nodes| && via[0] < |nodes[a].edges|
    then nodes[a].edges[via[0]].cost + RouteCost(nodes, nodes[a].edges[via[0]].to, via[1..])
    else 0.0
  }

  /** A route from the start of the query to its goal. */
  ghost predicate Leads(nodes: seq<Node<real>>, q: Query, via: seq<nat>, ids: seq<nat>) {
    q.start >= 0 && IsRoute(nodes, q, q.start, via, ids) && ids[|ids| - 1] == q.goal
  }

  /** A route meets nothing that is ruled out after its start. */
  lemma {:induction false} RouteAvoids(nodes: seq<Node<real>>, q: Query, a: nat, via: seq<nat>, ids: seq<nat>)
    requires IsRoute(nodes, q, a, via, ids)
    ensures |ids| == |via| + 1 && ids[0] == a
    ensures forall k :: 1 <= k < |ids| ==> MayMeet(nodes, q, ids[k])
    decreases |via|
  {
    hide MayMeet;
    if via != [] {
      RouteAvoids(nodes, q, nodes[a].edges[via[0]].to, via[1..], ids[1..]);
      forall k | 1 <= k < |ids| ensures MayMeet(nodes, q, ids[k]) {
        assert ids[k] == ids[1..][k - 1];
      }
    }
  }

  // ---- routes are the walks of the search ----------------------------------------------

  function QueryRules(nodes: seq<Node<real>>, q: Query): Rules {
    Rules(q.nodeMask, q.edgeMask, Skipped(q, |nodes|))
  }

  lemma MaskedMeansShares(ty: bv32, mask: bv32)
    ensures Masked(ty, mask) <==> Shares(ty, mask)
  {
    if mask == 0 {
      assert ty & 0 == 0;
    }
  }

  lemma AllowedExactly(nodes: seq<Node<real>>, q: Query, u: nat, i: nat)
    requires GraphEdits.Consistent(nodes)
    ensures Allowed(nodes, QueryRules(nodes, q), u, i) <==> MayUse(nodes, q, u, i)
  {
    hide Masked;
    hide Shares;
    if u < |nodes| && i < |nodes[u].edges| {
      var e := nodes[u].edges[i];
      assert LiveEdge(nodes, u, i);
      MaskedMeansShares(e.ty, q.edgeMask);
      MaskedMeansShares(nodes[e.to].ty, q.nodeMask);
    }
  }

  lemma {:induction false} WalkIsRoute(nodes: seq<Node<real>>, q: Query, a: nat, steps: seq<Step>, b: nat)
      returns (via: seq<nat>)
    requires GraphEdits.Consistent(nodes) && IsWalk(nodes, QueryRules(nodes, q), a, steps, b)
    ensures IsRoute(nodes, q, a, via, Visits(nodes, QueryRules(nodes, q), a, steps, b))
    ensures RouteCost(nodes, a, via) == WalkCost(nodes, QueryRules(nodes, q), a, steps, b)
    decreases |steps|
  {
    hide MayMeet;
    hide Masked;
    hide QueryRules;
    var rules := QueryRules(nodes, q);
    if steps == [] {
      via := [];
    } else {
      var next := Target(nodes, steps[0]);
      var rest := WalkIsRoute(nodes, q, next, steps[1..], b);
      AllowedExactly(nodes, q, a, steps[0].index);
      via := [steps[0].index] + rest;
      assert via[1..] == rest;
      assert Visits(nodes, rules, a, steps, b)[1..] == Visits(nodes, rules, next, steps[1..], b);
    }
  }

  lemma {:induction false} RouteIsWalk(nodes: seq<Node<real>>, q: Query, a: nat, via: seq<nat>, ids: seq<nat>)
      returns (steps: seq<Step>)
    requires GraphEdits.Consistent(nodes) && IsRoute(nodes, q, a, via, ids) && a < |nodes|
    ensures IsWalk(nodes, QueryRules(nodes, q), a, steps, ids[|ids| - 1])
    ensures WalkCost(nodes, QueryRules(nodes, q), a, steps, ids[|ids| - 1]) == RouteCost(nodes, a, via)
    decreases |via|
  {
    hide Masked;
    hide Shares;
    hide QueryRules;
    if via == [] {
      steps := [];
    } else {
      AllowedExactly(nodes, q, a, via[0]);
      var rest := RouteIsWalk(nodes, q, nodes[a].edges[via[0]].to, via[1..], ids[1..]);
      steps := [Step(a, via[0])] + rest;
      assert steps[1..] == rest;
    }
  }

  // ---- every answer is a route --------------------------------------------------------------

  /** A graph as every call leaves it, with a cache; the program never stores a negative cost itself. */
  ghost predicate Served(nodes: seq<Node<real>>, cache: seq<Precompute>) {
    && GraphEdits.Consistent(nodes) && CacheValid(nodes, cache) && CacheUsable(nodes, cache)
    && (cache == [] || NonNegativeCosts(nodes))
  }

  lemma NoCacheNoHit(nodes: seq<Node<real>>, q: Query)
    requires EndsExist(nodes, q)
    ensures CacheHit(nodes, [], q) < 0
  {
  }

  /** The walk behind an answer, from the cache or from the search. */
  lemma AnswerSpells(nodes: seq<Node<real>>, cache: seq<Precompute>, metric: Metric, q: Query)
      returns (steps: seq<Step>)
    requires Served(nodes, cache) && AnswerOf(nodes, cache, metric, q).Path?
    ensures EndsExist(nodes, q)
    ensures var ids := AnswerOf(nodes, cache, metric, q).ids;
            Spells(nodes, QueryRules(nodes, q), steps, ids) && ids[0] == q.start && Simple(ids)
  {
    hide Solve;
    hide CacheTheorems.Least;
    hide ShortestTree.Follow;
    if CacheHit(nodes, cache, q) >= 0 {
      steps := CacheTheorems.CachedAnswerIsLeast(nodes, cache, metric, q);
    } else {
      var p := ProblemOf(nodes, metric, q);
      AnswerIsSimpleWalk(p);
      steps :| Spells(p.nodes, p.rules, steps, Solve(p));
    }
  }

  /** Exactly the bad arguments give no answer. */
  lemma UndefinedExactly(nodes: seq<Node<real>>, cache: seq<Precompute>, metric: Metric, q: Query)
    requires TargetsInRange(nodes) && CacheUsable(nodes, cache)
    ensures AnswerOf(nodes, cache, metric, q).Undefined? <==>
      || !(0 <= q.start < |nodes| && 0 <= q.goal < |nodes|)
      || nodes[q.start].removed || nodes[q.goal].removed || q.skip.NotAnArray?
  {
    hide Solve;
    hide ShortestTree.Follow;
  }

  /**
   An answer is a route that repeats no node: after the start it meets no node the caller
   named, none that is removed and none of a ruled-out type, and uses no edge of one.
   */
  lemma AnswerIsRoute(nodes: seq<Node<real>>, cache: seq<Precompute>, metric: Metric, q: Query)
    requires Served(nodes, cache) && AnswerOf(nodes, cache, metric, q).Path?
    ensures var ids := AnswerOf(nodes, cache, metric, q).ids;
            && q.start >= 0 && Simple(ids) && ids != [] && ids[0] == q.start
            && (exists via :: IsRoute(nodes, q, q.start, via, ids))
            && forall k :: 1 <= k < |ids| ==> MayMeet(nodes, q, ids[k])
  {
    var steps := AnswerSpells(nodes, cache, metric, q);
    var ids := AnswerOf(nodes, cache, metric, q).ids;
    hide AnswerOf;
    hide MayMeet;
    var via := WalkIsRoute(nodes, q, ids[0], steps, ids[|ids| - 1]);
    RouteAvoids(nodes, q, q.start, via, ids);
  }

  // ---- where it ends, and what it costs -----------------------------------------------------

  /** Neither the caller nor the server cuts the search short. */
  predicate Unlimited(n: nat, q: Query) {
    (q.maxExpansions <= 0 || q.maxExpansions >= n) && (q.ceiling <= 0 || q.ceiling >= n)
  }

  /** Then the search is that of a problem without a budget. */
  lemma UnlimitedSolve(nodes: seq<Node<real>>, metric: Metric, q: Query)
    requires TargetsInRange(nodes) && EndsExist(nodes, q) && Unlimited(|nodes|, q)
    ensures var p := ProblemOf(nodes, metric, q); Solve(p) == Solve(Budgets.Unbudgeted(p))
  {
    var p := ProblemOf(nodes, metric, q);
    if p.budget > 0 {
      Budgets.LargeBudgetIsNone(p);
    } else {
      SolveAt(p);
    }
  }

  /** No two budgets of zero or less differ. */
  lemma SolveAt(p: Problem)
    requires WellFormed(p) && p.budget <= 0
    ensures Solve(p) == Solve(Budgets.Unbudgeted(p))
  {
    hide Run;
    Budgets.BeginIgnoresBudget(p);
    Budgets.RunIgnoresNoBudget(p, Begin(p));
  }

  /** The goal can be reached: at once, or over a route from a start the caller did not name. */
  ghost predicate Reaches(nodes: seq<Node<real>>, q: Query) {
    q.start == q.goal || (q.start >= 0 && !Named(q, q.start) && exists via, ids :: Leads(nodes, q, via, ids))
  }

  lemma ReachesExactly(nodes: seq<Node<real>>, q: Query)
    requires GraphEdits.Consistent(nodes) && EndsExist(nodes, q)
    ensures Reaches(nodes, q) <==>
      var rules := QueryRules(nodes, q);
      q.start == q.goal || (q.start !in rules.skip && Reachable(nodes, rules, q.start, q.goal))
  {
    var rules := QueryRules(nodes, q);
    if q.start != q.goal && Reaches(nodes, q) {
      var via, ids :| Leads(nodes, q, via, ids);
      var steps := RouteIsWalk(nodes, q, q.start, via, ids);
    }
    if q.start != q.goal && q.start !in rules.skip && Reachable(nodes, rules, q.start, q.goal) {
      var steps :| IsWalk(nodes, rules, q.start, steps, q.goal);
      var via := WalkIsRoute(nodes, q, q.start, steps, q.goal);
      assert Leads(nodes, q, via, Visits(nodes, rules, q.start, steps, q.goal));
    }
  }

  /** An answer nothing cuts short ends at the goal exactly when the goal can be reached. */
  lemma EndsAtGoalExactly(nodes: seq<Node<real>>, cache: seq<Precompute>, metric: Metric, q: Query)
    requires Served(nodes, cache) && Unlimited(|nodes|, q) && AnswerOf(nodes, cache, metric, q).Path?
    ensures var ids := AnswerOf(nodes, cache, metric, q).ids;
            ids != [] && (ids[|ids| - 1] == q.goal <==> Reaches(nodes, q))
  {
    hide Solve;
    hide CacheTheorems.Least;
    hide ShortestTree.Follow;
    ReachesExactly(nodes, q);
    if CacheHit(nodes, cache, q) >= 0 {
      var steps := CacheTheorems.CachedAnswerIsLeast(nodes, cache, metric, q);
      var ids := AnswerOf(nodes, cache, metric, q).ids;
      CacheTheorems.LeastIsWalk(nodes, CacheTheorems.RulesOf(q), q.start, steps, q.goal);
      CacheTheorems.SpelledEnds(nodes, CacheTheorems.RulesOf(q), q.start, steps, q.goal, ids);
    } else {
      UnlimitedSolve(nodes, metric, q);
      FullExactlyWhenReachable(Budgets.Unbudgeted(ProblemOf(nodes, metric, q)));
    }
  }

  /** The weight the search works with. */
  function WeightOf(q: Query): real {
    if q.weight > 1.0 then q.weight else 1.0
  }

  /** The ids are a route to the goal at no more than the weight times the cost of any other. */
  ghost predicate CostsLittle(nodes: seq<Node<real>>, q: Query, ids: seq<nat>)
    requires q.start >= 0
  {
    exists via :: Leads(nodes, q, via, ids) && NotUndercut(nodes, q, RouteCost(nodes, q.start, via))
  }

  /** No route to the goal costs less than this by more than the weight. */
  ghost predicate NotUndercut(nodes: seq<Node<real>>, q: Query, cost: real)
    requires q.start >= 0
  {
    forall over, others :: Leads(nodes, q, over, others) ==> cost <= Times(WeightOf(q), RouteCost(nodes, q.start, over))
  }

  /** With costs that cover the distance, an answer nothing cuts short that ends at the goal costs little. */
  lemma FullAnswerCostsLittle(nodes: seq<Node<real>>, cache: seq<Precompute>, metric: Metric, q: Query)
    requires Served(nodes, cache) && IsDistance(metric) && CostsCoverDistance(nodes, metric)
    requires Unlimited(|nodes|, q) && AnswerOf(nodes, cache, metric, q).Path?
    requires var ids := AnswerOf(nodes, cache, metric, q).ids; ids != [] && ids[|ids| - 1] == q.goal
    ensures q.start >= 0 && CostsLittle(nodes, q, AnswerOf(nodes, cache, metric, q).ids)
  {
    var mine := BestWalk(nodes, cache, metric, q);
    WalkCostsLittle(nodes, q, mine);
  }

  lemma WalkCostsLittle(nodes: seq<Node<real>>, q: Query, mine: seq<Step>)
    requires GraphEdits.Consistent(nodes) && EndsExist(nodes, q)
    requires IsWalk(nodes, QueryRules(nodes, q), q.start, mine, q.goal) && WithinOthers(nodes, q, mine)
    ensures CostsLittle(nodes, q, Visits(nodes, QueryRules(nodes, q), q.start, mine, q.goal))
  {
    hide WeightOf;
    hide Times;
    hide IsRoute;
    hide QueryRules;
    hide IsWalk;
    var via := WalkIsRoute(nodes, q, q.start, mine, q.goal);
    assert Leads(nodes, q, via, Visits(nodes, QueryRules(nodes, q), q.start, mine, q.goal));
    forall over, others | Leads(nodes, q, over, others)
      ensures RouteCost(nodes, q.start, via) <= Times(WeightOf(q), RouteCost(nodes, q.start, over))
    {
      var steps := RouteIsWalk(nodes, q, q.start, over, others);
    }
  }

  /** The walk costs no more than the weight times any other. */
  ghost predicate WithinOthers(nodes: seq<Node<real>>, q: Query, mine: seq<Step>)
    requires q.start >= 0 && q.goal >= 0 && IsWalk(nodes, QueryRules(nodes, q), q.start, mine, q.goal)
  {
    var rules := QueryRules(nodes, q);
    forall other :: IsWalk(nodes, rules, q.start, other, q.goal) ==>
      WalkCost(nodes, rules, q.start, mine, q.goal) <=
      Times(WeightOf(q), WalkCost(nodes, rules, q.start, other, q.goal))
  }

  /** The walk of such an answer, against all others. */
  lemma BestWalk(nodes: seq<Node<real>>, cache: seq<Precompute>, metric: Metric, q: Query) returns (mine: seq<Step>)
    requires Served(nodes, cache) && IsDistance(metric) && CostsCoverDistance(nodes, metric)
    requires Unlimited(|nodes|, q) && AnswerOf(nodes, cache, metric, q).Path?
    requires var ids := AnswerOf(nodes, cache, metric, q).ids; ids != [] && ids[|ids| - 1] == q.goal
    ensures EndsExist(nodes, q)
    ensures var rules := QueryRules(nodes, q);
            && IsWalk(nodes, rules, q.start, mine, q.goal) && WithinOthers(nodes, q, mine)
            && Visits(nodes, rules, q.start, mine, q.goal) == AnswerOf(nodes, cache, metric, q).ids
  {
    hide Solve;
    hide ShortestTree.Follow;
    hide CacheValid;
    hide IsDistance;
    hide CostsCoverDistance;
    hide NonNegativeCosts;
    if CacheHit(nodes, cache, q) >= 0 {
      mine := CacheTheorems.CachedAnswerIsLeast(nodes, cache, metric, q);
    } else {
      mine := BestSearchWalk(nodes, metric, q);
    }
  }

  lemma BestSearchWalk(nodes: seq<Node<real>>, metric: Metric, q: Query) returns (mine: seq<Step>)
    requires TargetsInRange(nodes) && IsDistance(metric) && CostsCoverDistance(nodes, metric)
    requires EndsExist(nodes, q) && Unlimited(|nodes|, q)
    requires var ids := Solve(ProblemOf(nodes, metric, q)); ids != [] && ids[|ids| - 1] == q.goal
    ensures var rules := QueryRules(nodes, q);
            && IsWalk(nodes, rules, q.start, mine, q.goal) && WithinOthers(nodes, q, mine)
            && Visits(nodes, rules, q.start, mine, q.goal) == Solve(ProblemOf(nodes, metric, q))
  {
    hide Solve;
    hide IsDistance;
    hide CostsCoverDistance;
    UnlimitedSolve(nodes, metric, q);
    var p := Budgets.Unbudgeted(ProblemOf(nodes, metric, q));
    DistanceCostsAreConsistent(p);
    FullAnswerIsNearOptimal(p);
    AnswerIsSimpleWalk(p);
    hide Optimality.Consistent;
    hide WithinWeight;
    mine :| Spells(p.nodes, p.rules, mine, Solve(p)) && WithinWeight(p, mine);
    SpelledEnds(p, mine);
    WithinWeightMeans(nodes, metric, q, mine);
  }

  lemma SpelledEnds(p: Problem, mine: seq<Step>)
    requires WellFormed(p) && Spells(p.nodes, p.rules, mine, Solve(p)) && WithinWeight(p, mine)
    requires Solve(p)[0] == p.start && Solve(p)[|Solve(p)| - 1] == p.goal
    ensures IsWalk(p.nodes, p.rules, p.start, mine, p.goal)
    ensures Visits(p.nodes, p.rules, p.start, mine, p.goal) == Solve(p)
  {
    hide Solve;
  }

  lemma WithinWeightMeans(nodes: seq<Node<real>>, metric: Metric, q: Query, mine: seq<Step>)
    requires TargetsInRange(nodes) && EndsExist(nodes, q)
    requires WithinWeight(Budgets.Unbudgeted(ProblemOf(nodes, metric, q)), mine)
    ensures IsWalk(nodes, QueryRules(nodes, q), q.start, mine, q.goal) && WithinOthers(nodes, q, mine)
  {
    hide Skipped;
    hide Allowed;
    assert QueryRules(nodes, q) == ProblemOf(nodes, metric, q).rules;
  }
}
