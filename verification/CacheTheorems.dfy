/**
 What a cached tree's answer is worth (code/gsc_graph.cpp, 698-736): on a valid graph it
 is a least-cost walk, of the very cost and reachability the search would give unless
 an expansion ceiling cuts the search short.
 */
module CacheTheorems {
  import opened GraphTypes
  import opened GraphEdits
  import opened Search
  import opened SearchResults
  import opened Optimality
  import opened GraphStore
  import Budgets
  import ShortestTree

  /** The rules of a query that may be answered from the cache. */
  function RulesOf(q: Query): Rules {
    Rules(q.nodeMask, q.edgeMask, {})
  }

  /** A walk no allowed walk between the same ends undercuts. */
  ghost predicate Least(nodes: seq<Node<real>>, rules: Rules, a: nat, steps: seq<Step>, b: nat) {
    && IsWalk(nodes, rules, a, steps, b)
    && forall other :: IsWalk(nodes, rules, a, other, b) ==>
      WalkCost(nodes, rules, a, steps, b) <= WalkCost(nodes, rules, a, other, b)
  }

  /** Two least walks cost the same. */
  lemma LeastWalksCostTheSame(nodes: seq<Node<real>>, rules: Rules, a: nat, s: seq<Step>, t: seq<Step>, b: nat)
    requires Least(nodes, rules, a, s, b) && Least(nodes, rules, a, t, b)
    ensures WalkCost(nodes, rules, a, s, b) == WalkCost(nodes, rules, a, t, b)
  {
  }

  /** An exact tree has one possible cost per node, whichever order its ties were broken in. */
  lemma ExactTreesAgree(nodes: seq<Node<real>>, rules: Rules, goal: nat, s: ShortestTree.Tree, t: ShortestTree.Tree)
    requires ShortestTree.Exact(nodes, rules, goal, s) && ShortestTree.Exact(nodes, rules, goal, t)
    ensures s.cost == t.cost
  {
    forall u | 0 <= u < |nodes| ensures s.cost[u] == t.cost[u] {
      ExactCostIsUnique(nodes, rules, goal, s, t, u);
      ExactCostIsUnique(nodes, rules, goal, t, s, u);
    }
  }

  lemma ExactCostIsUnique(nodes: seq<Node<real>>, rules: Rules, goal: nat, s: ShortestTree.Tree,
      t: ShortestTree.Tree, u: nat)
    requires ShortestTree.Exact(nodes, rules, goal, s) && ShortestTree.Exact(nodes, rules, goal, t) && u < |nodes|
    ensures s.cost[u] <= t.cost[u]
  {
    if t.cost[u] < ShortestTree.FLT_MAX {
      var steps := TreeWalk(nodes, rules, goal, t, u);
      assert ShortestTree.LowerBound(nodes, rules, goal, s.cost, u);
    }
  }

  /** The hops of an exact tree from a node of known cost: a simple least walk, at exactly that cost. */
  lemma TreeWalk(nodes: seq<Node<real>>, rules: Rules, goal: nat, t: ShortestTree.Tree, u: nat)
      returns (steps: seq<Step>)
    requires ShortestTree.Exact(nodes, rules, goal, t) && u < |nodes| && t.cost[u] < ShortestTree.FLT_MAX
    ensures Least(nodes, rules, u, steps, goal) && WalkCost(nodes, rules, u, steps, goal) == t.cost[u]
    ensures var ids := ShortestTree.Follow(t, goal, u, |nodes| + 1);
        Spells(nodes, rules, steps, ids) && ids[0] == u && Simple(ids)
  {
    var rank :| ShortestTree.Ranked(nodes, rules, goal, t, rank);
    steps := ShortestTree.FollowIsWalk(nodes, rules, goal, t, rank, u, |nodes| + 1);
    assert ShortestTree.LowerBound(nodes, rules, goal, t.cost, u);
  }

  /** No known cost means no walk below the largest float. */
  lemma UnknownMeansUnreachable(nodes: seq<Node<real>>, rules: Rules, goal: nat, t: ShortestTree.Tree, u: nat)
    requires ShortestTree.Exact(nodes, rules, goal, t) && u < |nodes|
    ensures t.cost[u] == ShortestTree.FLT_MAX <==>
      !exists steps :: IsWalk(nodes, rules, u, steps, goal)
          && WalkCost(nodes, rules, u, steps, goal) < ShortestTree.FLT_MAX
  {
    if t.cost[u] < ShortestTree.FLT_MAX {
      var steps := TreeWalk(nodes, rules, goal, t, u);
      assert IsWalk(nodes, rules, u, steps, goal);
    } else {
      assert ShortestTree.LowerBound(nodes, rules, goal, t.cost, u);
    }
  }

  // ---- answers -------------------------------------------------------------------

  /** An answer given from the cache is a simple walk to the goal that nothing undercuts. */
  lemma CachedAnswerIsLeast(nodes: seq<Node<real>>, cache: seq<Precompute>, metric: Metric, q: Query)
      returns (steps: seq<Step>)
    requires GraphEdits.Consistent(nodes) && NonNegativeCosts(nodes) && CacheValid(nodes, cache)
        && CacheUsable(nodes, cache)
    requires EndsExist(nodes, q) && CacheHit(nodes, cache, q) >= 0
    ensures AnswerOf(nodes, cache, metric, q).Path?
    ensures var ids := AnswerOf(nodes, cache, metric, q).ids;
      Spells(nodes, RulesOf(q), steps, ids) && ids[0] == q.start && Simple(ids)
          && Least(nodes, RulesOf(q), q.start, steps, q.goal)
  {
    var i := CacheHit(nodes, cache, q);
    assert cache[i].Trusted(nodes) && cache[i].For(q.goal, q.nodeMask, q.edgeMask);
    steps := TreeWalk(nodes, RulesOf(q), q.goal, cache[i].tree, q.start);
  }

  /** Worth the same: equal, or walks between the same ends at the same cost. */
  ghost predicate SameWorth(nodes: seq<Node<real>>, rules: Rules, a: Answer, b: Answer) {
    || a == b
    || (a.Path? && b.Path? && exists s, t :: SpellEqually(nodes, rules, s, a.ids, t, b.ids))
  }

  ghost predicate SpellEqually(nodes: seq<Node<real>>, rules: Rules, s: seq<Step>, ids: seq<nat>, t: seq<Step>,
      others: seq<nat>) {
    && Spells(nodes, rules, s, ids) && Spells(nodes, rules, t, others)
    && ids[0] == others[0] && ids[|ids| - 1] == others[|others| - 1]
    && WalkCost(nodes, rules, ids[0], s, ids[|ids| - 1]) == WalkCost(nodes, rules, others[0], t, others[|others| - 1])
  }

  /** No expansion ceiling, or one of at least the number of nodes, which cuts no search short. */
  predicate NoCeiling(n: nat, ceiling: int) {
    ceiling <= 0 || ceiling >= n
  }

  /**
   With costs that cover the distance and no expansion ceiling, a query is worth
   the same with the cache as without it.
   */
  lemma CacheOnlySavesTime(nodes: seq<Node<real>>, cache: seq<Precompute>, metric: Metric, q: Query)
    requires GraphEdits.Consistent(nodes) && CacheValid(nodes, cache) && CacheUsable(nodes, cache)
    requires IsDistance(metric) && CostsCoverDistance(nodes, metric) && NoCeiling(|nodes|, q.ceiling)
    ensures SameWorth(nodes, RulesOf(q), AnswerOf(nodes, cache, metric, q), AnswerOf(nodes, [], metric, q))
  {
    hide Solve;
    hide Least;
    hide CacheValid;
    hide CacheHit;
    hide AnswerOf;
    WithoutCache(nodes, cache, metric, q);
    if EndsExist(nodes, q) && CacheHit(nodes, cache, q) >= 0 {
      CoveredMeansNonNegative(nodes, metric);
      var cached := CachedAnswerIsLeast(nodes, cache, metric, q);
      LeastIsWalk(nodes, RulesOf(q), q.start, cached, q.goal);
      var searched := SearchedIsLeast(nodes, metric, q, cached);
      LeastWalksCostTheSame(nodes, RulesOf(q), q.start, cached, searched, q.goal);
      SpelledEnds(nodes, RulesOf(q), q.start, cached, q.goal, AnswerOf(nodes, cache, metric, q).ids);
      SpelledEnds(nodes, RulesOf(q), q.start, searched, q.goal, AnswerOf(nodes, [], metric, q).ids);
      assert SpellEqually(nodes, RulesOf(q), cached, AnswerOf(nodes, cache, metric, q).ids, searched,
          AnswerOf(nodes, [], metric, q).ids);
    }
  }

  /** Without a hit the cache plays no part; with one, the search would have run. */
  lemma WithoutCache(nodes: seq<Node<real>>, cache: seq<Precompute>, metric: Metric, q: Query)
    requires TargetsInRange(nodes) && CacheUsable(nodes, cache)
    ensures !EndsExist(nodes, q) || CacheHit(nodes, cache, q) < 0 ==>
        AnswerOf(nodes, cache, metric, q) == AnswerOf(nodes, [], metric, q)
    ensures EndsExist(nodes, q) && CacheHit(nodes, cache, q) >= 0 ==>
      q.skip.NoSkip? && q.maxExpansions <= 0 && q.weight <= 1.0
          && AnswerOf(nodes, [], metric, q) == Path(Solve(ProblemOf(nodes, metric, q)))
  {
    hide Solve;
  }

  lemma LeastIsWalk(nodes: seq<Node<real>>, rules: Rules, a: nat, steps: seq<Step>, b: nat)
    requires Least(nodes, rules, a, steps, b)
    ensures IsWalk(nodes, rules, a, steps, b)
  {
  }

  /** Ids spelled by a walk have the walk's ends. */
  lemma {:induction false} SpelledEnds(nodes: seq<Node<real>>, rules: Rules, a: nat, steps: seq<Step>, b: nat,
      ids: seq<nat>)
    requires Least(nodes, rules, a, steps, b) && Spells(nodes, rules, steps, ids) && ids[0] == a
    ensures ids[|ids| - 1] == b
    ensures IsWalk(nodes, rules, ids[0], steps, ids[|ids| - 1])
  {
    WalkEnd(nodes, rules, a, steps, b, ids[|ids| - 1]);
  }

  lemma {:induction false} WalkEnd(nodes: seq<Node<real>>, rules: Rules, a: nat, steps: seq<Step>, b: nat, c: nat)
    requires IsWalk(nodes, rules, a, steps, b) && IsWalk(nodes, rules, a, steps, c)
    ensures b == c
    decreases |steps|
  {
    if steps != [] {
      WalkEnd(nodes, rules, Target(nodes, steps[0]), steps[1..], b, c);
    }
  }

  lemma CoveredMeansNonNegative(nodes: seq<Node<real>>, metric: Metric)
    requires TargetsInRange(nodes) && IsDistance(metric) && CostsCoverDistance(nodes, metric)
    ensures NonNegativeCosts(nodes)
  {
    forall u, i | 0 <= u < |nodes| && 0 <= i < |nodes[u].edges| ensures nodes[u].edges[i].cost >= 0.0 {
      assert metric(nodes[u].origin, nodes[nodes[u].edges[i].to].origin) >= 0.0;
    }
  }

  /** Where any walk exists, the unbudgeted search at weight one finds a least one. */
  lemma SearchedIsLeast(nodes: seq<Node<real>>, metric: Metric, q: Query, any: seq<Step>) returns (steps: seq<Step>)
    requires TargetsInRange(nodes) && IsDistance(metric) && CostsCoverDistance(nodes, metric)
    requires EndsExist(nodes, q) && q.skip.NoSkip? && q.maxExpansions <= 0 && NoCeiling(|nodes|, q.ceiling)
        && q.weight <= 1.0
    requires IsWalk(nodes, RulesOf(q), q.start, any, q.goal)
    ensures Least(nodes, RulesOf(q), q.start, steps, q.goal)
    ensures Spells(nodes, RulesOf(q), steps, Solve(ProblemOf(nodes, metric, q)))
    ensures Solve(ProblemOf(nodes, metric, q))[0] == q.start
  {
    var given := ProblemOf(nodes, metric, q);
    var p := if q.ceiling > 0 then Budgets.Unbudgeted(given) else given;
    if q.ceiling > 0 {
      Budgets.LargeBudgetIsNone(given);
    }
    hide Solve;
    steps := OptimalAtWeightOne(p, any);
  }

  lemma OptimalAtWeightOne(p: Problem, any: seq<Step>) returns (steps: seq<Step>)
    requires WellFormed(p) && IsDistance(p.metric) && CostsCoverDistance(p.nodes, p.metric)
    requires p.weight == 1.0 && p.budget <= 0 && p.rules.skip == {}
    requires IsWalk(p.nodes, p.rules, p.start, any, p.goal)
    ensures Least(p.nodes, p.rules, p.start, steps, p.goal)
    ensures Spells(p.nodes, p.rules, steps, Solve(p)) && Solve(p)[0] == p.start
  {
    FullExactlyWhenReachable(p);
    DistanceCostsAreConsistent(p);
    FullAnswerIsNearOptimal(p);
    AnswerIsSimpleWalk(p);
    hide Solve;
    hide Optimality.Consistent;
    steps :| Spells(p.nodes, p.rules, steps, Solve(p)) && WithinWeight(p, steps);
  }

  /**
   The ceiling does matter: the cache is consulted whatever it is, so at a ceiling
   of one the cached answer is full where the search would return the start alone.
   */
  lemma CacheIgnoresCeiling(nodes: seq<Node<real>>, cache: seq<Precompute>, metric: Metric, q: Query)
    requires GraphEdits.Consistent(nodes) && NonNegativeCosts(nodes) && CacheValid(nodes, cache)
        && CacheUsable(nodes, cache)
    requires EndsExist(nodes, q) && CacheHit(nodes, cache, q) >= 0 && q.ceiling == 1 && q.start != q.goal
    ensures AnswerOf(nodes, [], metric, q) == Path([q.start])
    ensures AnswerOf(nodes, cache, metric, q).Path?
    ensures var ids := AnswerOf(nodes, cache, metric, q).ids; ids != [] && ids[|ids| - 1] == q.goal
  {
    WithoutCache(nodes, cache, metric, q);
    Budgets.BudgetOfOneStaysPut(ProblemOf(nodes, metric, q));
    hide AnswerOf;
    hide Solve;
    hide CacheHit;
    hide CacheValid;
    var steps := CachedAnswerIsLeast(nodes, cache, metric, q);
    SpelledEnds(nodes, RulesOf(q), q.start, steps, q.goal, AnswerOf(nodes, cache, metric, q).ids);
  }
}
