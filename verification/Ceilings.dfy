/**
 Which expansion ceilings keep the cache from changing what an answer is worth
 (code/gsc_graph.cpp, 698-753): a cached tree is consulted whatever the ceiling is, a
 search is cut short by it.
 */
module Ceilings {
  import opened GraphTypes
  import opened GraphEdits
  import opened Search
  import opened Optimality
  import opened GraphStore
  import opened CacheTheorems
  import Budgets
  import ShortestTree
  import ReverseDijkstra

  /** A graph of n nodes with a valid cache, costs that cover the distance, and a query under this ceiling. */
  ghost predicate Eligible(
    metric: Metric, n: nat, ceiling: int, nodes: seq<Node<real>>, cache: seq<Precompute>, q: Query)
  {
    && |nodes| == n && q.ceiling == ceiling
    && GraphEdits.Consistent(nodes) && CacheValid(nodes, cache) && CacheUsable(nodes, cache)
    && CostsCoverDistance(nodes, metric)
  }

  /** Under this ceiling the cache makes no difference to any query on any graph of n nodes. */
  ghost predicate Harmless(metric: Metric, n: nat, ceiling: int) {
    forall nodes, cache, q {:trigger Eligible(metric, n, ceiling, nodes, cache, q)} ::
      Eligible(metric, n, ceiling, nodes, cache, q) ==>
        SameWorth(nodes, RulesOf(q), AnswerOf(nodes, cache, metric, q), AnswerOf(nodes, [], metric, q))
  }

  // ---- the line 0 -> 1 -> ... -> n - 1 -----------------------------------------------

  const HERE: Vec<real> := Vec(0.0, 0.0, 0.0)

  function LineNode(n: nat, i: nat): Node<real> {
    Node(HERE, 0, false, if i + 1 < n then [Edge(i + 1, 0, 0.0)] else [])
  }

  /** Every node leads to the next, all in one place. */
  function Line(n: nat): (r: seq<Node<real>>)
    ensures |r| == n && forall i :: 0 <= i < n ==> r[i] == LineNode(n, i)
  {
    seq(n, i requires 0 <= i < n => LineNode(n, i))
  }

  function LineTree(n: nat): (t: ShortestTree.Tree)
    ensures |t.cost| == |t.hop| == n
    ensures forall i :: 0 <= i < n ==> t.cost[i] == 0.0 && t.hop[i] == if i + 1 < n then i + 1 else -1
  {
    ShortestTree.Tree(seq(n, i => 0.0), seq(n, i requires 0 <= i < n => if i + 1 < n then i + 1 else -1))
  }

  function LineCache(n: nat): seq<Precompute>
    requires n > 0
  {
    [Precompute(n - 1, 0, 0, LineTree(n))]
  }

  /** From one end to the other. */
  function LineQuery(n: nat, ceiling: int): Query {
    Query(0, n - 1, NoSkip, 0, 0, 0, ceiling, 1.0)
  }

  lemma LineIsConsistent(n: nat)
    ensures GraphEdits.Consistent(Line(n)) && NonNegativeCosts(Line(n)) && Budgets.Gradual(Line(n))
  {
  }

  /** Hops from v to the end of the line. */
  function Left(n: nat, v: int): nat
    requires v < n
  {
    n - 1 - v
  }

  /** The tree of the line to its end is exact. */
  lemma LineTreeIsExact(n: nat)
    requires n > 0
    ensures ShortestTree.Exact(Line(n), Rules(0, 0, {}), n - 1, LineTree(n))
  {
    var nodes, rules, goal, t := Line(n), Rules(0, 0, {}), n - 1, LineTree(n);
    LineIsConsistent(n);
    forall u: nat | u < n ensures ShortestTree.LowerBound(nodes, rules, goal, t.cost, u) {
      forall steps | IsWalk(nodes, rules, u, steps, goal) ensures 0.0 <= WalkCost(nodes, rules, u, steps, goal) {
        ReverseDijkstra.WalkCostNonNegative(nodes, rules, u, steps, goal);
      }
    }
    var rank := map v: int | 0 <= v < n :: Left(n, v);
    forall v {:trigger ShortestTree.Descends(nodes, rules, t, rank, v)} | 0 <= v < n && v != goal
      ensures ShortestTree.Descends(nodes, rules, t, rank, v)
    {
      assert Allowed(nodes, rules, v, 0) && nodes[v].edges[0].to == t.hop[v];
    }
    assert ShortestTree.Ranked(nodes, rules, goal, t, rank);
  }

  lemma LineIsEligible(metric: Metric, n: nat, ceiling: int)
    requires n > 0 && metric(HERE, HERE) == 0.0
    ensures Eligible(metric, n, ceiling, Line(n), LineCache(n), LineQuery(n, ceiling))
    ensures EndsExist(Line(n), LineQuery(n, ceiling))
    ensures CacheHit(Line(n), LineCache(n), LineQuery(n, ceiling)) == 0
  {
    LineIsConsistent(n);
    LineTreeIsExact(n);
    hide ShortestTree.Exact;
  }

  /** On the line a ceiling below the number of nodes tells the cache from the search. */
  lemma LineShowsCeiling(metric: Metric, n: nat, ceiling: int)
    requires metric(HERE, HERE) == 0.0 && 0 < ceiling < n
    ensures var nodes, cache, q := Line(n), LineCache(n), LineQuery(n, ceiling);
            && Eligible(metric, n, ceiling, nodes, cache, q)
            && !SameWorth(nodes, RulesOf(q), AnswerOf(nodes, cache, metric, q), AnswerOf(nodes, [], metric, q))
  {
    var nodes, cache, q := Line(n), LineCache(n), LineQuery(n, ceiling);
    LineIsEligible(metric, n, ceiling);
    LineIsConsistent(n);
    WithoutCache(nodes, cache, metric, q);
    Budgets.SmallBudgetFallsShort(ProblemOf(nodes, metric, q));
    hide AnswerOf;
    hide CacheHit;
    hide Solve;
    var steps := CachedAnswerIsLeast(nodes, cache, metric, q);
    SpelledEnds(nodes, RulesOf(q), q.start, steps, q.goal, AnswerOf(nodes, cache, metric, q).ids);
  }

  /** A budget of the call below the number of nodes bites on the line too, whatever the ceiling and the cache. */
  lemma LineShowsBudget(metric: Metric, n: nat, maxExpansions: int, ceiling: int, cache: seq<Precompute>)
    requires 0 < maxExpansions < n && CacheUsable(Line(n), cache)
    ensures TargetsInRange(Line(n))
    ensures var r := AnswerOf(Line(n), cache, metric, LineQuery(n, ceiling).(maxExpansions := maxExpansions));
            r.Path? && r.ids != [] && r.ids[|r.ids| - 1] != n - 1
  {
    LineIsConsistent(n);
    var q := LineQuery(n, ceiling).(maxExpansions := maxExpansions);
    hide Solve;
    Budgets.SmallBudgetFallsShort(ProblemOf(Line(n), metric, q));
  }

  /**
   A ceiling leaves every answer on every graph of n nodes as it would be without the
   cache exactly when there is none or it is at least n.
   */
  lemma CeilingIsHarmlessExactly(metric: Metric, n: nat, ceiling: int)
    requires IsDistance(metric) && metric(HERE, HERE) == 0.0
    ensures Harmless(metric, n, ceiling) <==> NoCeiling(n, ceiling)
  {
    hide AnswerOf;
    hide SameWorth;
    if NoCeiling(n, ceiling) {
      forall nodes, cache, q {:trigger Eligible(metric, n, ceiling, nodes, cache, q)} |
        Eligible(metric, n, ceiling, nodes, cache, q)
        ensures SameWorth(nodes, RulesOf(q), AnswerOf(nodes, cache, metric, q), AnswerOf(nodes, [], metric, q))
      {
        CacheOnlySavesTime(nodes, cache, metric, q);
      }
    } else {
      LineShowsCeiling(metric, n, ceiling);
    }
  }
}
