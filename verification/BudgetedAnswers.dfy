/**
 What an answer found under a budget is worth (code/gsc_graph.cpp, 796-847, and 619-625
 on telling a full answer from a partial one by its last node).
 */
module BudgetedAnswers {
  import opened EntryHeap
  import opened GraphTypes
  import opened Search
  import opened SearchTheorems
  import opened SearchResults
  import opened Optimality
  import Budgets

  /** Whatever the budget, a search that pops the goal answers within the weight. */
  lemma FoundAnswerIsNearOptimal(p: Problem)
    requires WellFormed(p) && Consistent(p) && p.weight >= 1.0 && p.start != p.goal
    requires Run(p, Begin(p)).found
    ensures exists mine :: Spells(p.nodes, p.rules, mine, Solve(p)) && WithinWeight(p, mine)
  {
    var mine := FoundIsWithinWeight(p);
    AnswerIsSimpleWalk(p);
    var o := Run(p, Begin(p));
    var steps := AnswerWalk(p);
    hide Solve;
    hide WithinWeight;
    hide Run;
    assert Spells(p.nodes, p.rules, mine, Solve(p));
  }

  /** How a search ends: with the goal, with nothing left, or with the budget used up and the goal never closed. */
  ghost predicate Ended(p: Problem, o: Outcome)
    requires WellFormed(p)
  {
    o.found || Exhausted(p, o.state) || (OutOfBudget(p, o.state) && p.goal !in o.state.closed)
  }

  lemma AdvanceEnds(p: Problem, s: Frontier)
    requires WellFormed(p) && Ready(p, s) && p.goal !in s.closed
    ensures Advance(p, s).More? ==> p.goal !in Advance(p, s).state.closed
    ensures Advance(p, s).Done? ==>
      var o := Advance(p, s).outcome;
      o.found || (s.heap == [] && o.state == s) || (OutOfBudget(p, o.state) && p.goal !in o.state.closed)
  {
    hide RelaxFrom;
    hide Stale;
  }

  lemma {:induction false} RunEnds(p: Problem, s: Frontier)
    requires WellFormed(p) && Invariant(p, s) && p.goal !in s.closed
    ensures Ended(p, Run(p, s))
    decreases Unexpanded(p, s), |s.heap|
  {
    AdvanceKeeps(p, s);
    AdvanceEnds(p, s);
    hide Advance;
    hide Invariant;
    hide OutOfBudget;
    match Advance(p, s)
    case Done(_) =>
    case More(t) =>
      TurnsDecrease(p, s);
      RunEnds(p, t);
  }

  /**
   An answer that ends at the goal was found, and so is within the weight, or the budget
   was used up while the goal was the closest node discovered.
   */
  lemma EndsAtGoalExactly(p: Problem)
    requires WellFormed(p) && p.start != p.goal
    ensures var o := Run(p, Begin(p));
            Solve(p) != [] && (Solve(p)[|Solve(p)| - 1] == p.goal <==>
              o.found || (OutOfBudget(p, o.state) && o.state.best == p.goal))
  {
    var o := Run(p, Begin(p));
    SearchEndsInTree(p);
    BeginInvariant(p);
    RunEnds(p, Begin(p));
    var steps := AnswerWalk(p);
    assert Solve(p)[|Solve(p)| - 1] == Last(p, o);
    hide Run;
    hide Solve;
    if !o.found && Exhausted(p, o.state) {
      ExhaustedAnswer(p, o);
    }
  }

  /**
   A partial answer ends, whatever the budget, at a discovered node that no discovered node is
   closer to the goal than.
   */
  lemma PartialEndsClosestDiscovered(p: Problem)
    requires WellFormed(p) && p.start != p.goal && !Run(p, Begin(p)).found
    ensures var s := Run(p, Begin(p)).state;
            && Solve(p) != [] && Solve(p)[|Solve(p)| - 1] == s.best
            && s.best in s.g && Reachable(p.nodes, p.rules, p.start, s.best)
            && forall v :: v in s.g ==> H(p, s.best) <= H(p, v)
  {
    var o := Run(p, Begin(p));
    SearchEndsInTree(p);
    var steps := AnswerWalk(p);
    hide Run;
    assert Solve(p)[|Solve(p)| - 1] == Last(p, o);
  }

  // ---- which budgets can be trusted -----------------------------------------------------

  /** The answer is what the caller takes it for: a walk to the goal within the weight. */
  ghost predicate AnswersWell(p: Problem)
    requires WellFormed(p)
  {
    exists mine :: Spells(p.nodes, p.rules, mine, Solve(p)) && WithinWeight(p, mine)
  }

  ghost predicate EndsAtGoal(p: Problem)
    requires WellFormed(p)
  {
    Solve(p) != [] && Solve(p)[|Solve(p)| - 1] == p.goal
  }

  /** A query on n nodes whose edges cost at least the distance, at this weight and budget. */
  ghost predicate Eligible(n: nat, weight: real, budget: int, p: Problem) {
    && |p.nodes| == n && p.weight == weight && p.budget == budget
    && WellFormed(p) && IsDistance(p.metric) && CostsCoverDistance(p.nodes, p.metric)
  }

  /** On every graph of n nodes an answer under this budget that ends at the goal is within the weight. */
  ghost predicate EndTells(n: nat, weight: real, budget: int) {
    forall p {:trigger Eligible(n, weight, budget, p)} ::
      Eligible(n, weight, budget, p) && EndsAtGoal(p) ==> AnswersWell(p)
  }

  /** A budget of one, or one of at least the number of nodes, is as good as none. */
  predicate Harmless(n: nat, budget: int) {
    budget <= 1 || budget >= n
  }

  /** An answer that no budget has changed. */
  lemma UnchangedAnswersWell(p: Problem)
    requires WellFormed(p) && Consistent(p) && p.weight >= 1.0
    requires EndsAtGoal(p) && Solve(p) == Solve(Budgets.Unbudgeted(p))
    ensures AnswersWell(p)
  {
    var p0 := Budgets.Unbudgeted(p);
    hide Solve;
    SameProblem(p);
    FullAnswerIsNearOptimal(p0);
    var mine :| Spells(p0.nodes, p0.rules, mine, Solve(p0)) && WithinWeight(p0, mine);
    assert Spells(p.nodes, p.rules, mine, Solve(p)) && WithinWeight(p, mine);
  }

  lemma SameProblem(p: Problem)
    requires WellFormed(p) && Consistent(p)
    ensures var p0 := Budgets.Unbudgeted(p); WellFormed(p0) && Consistent(p0)
  {
    var p0 := Budgets.Unbudgeted(p);
    forall u: nat, i: nat {:trigger Allowed(p0.nodes, p0.rules, u, i)} | Allowed(p0.nodes, p0.rules, u, i)
      ensures var e := p0.nodes[u].edges[i]; e.cost >= 0.0 && H(p0, u) <= e.cost + H(p0, e.to)
    {
      assert Allowed(p.nodes, p.rules, u, i);
    }
  }

  /** A skipped start is never expanded, so no budget runs out. */
  lemma SkippedStartSpendsNothing(p: Problem)
    requires WellFormed(p) && p.start in p.rules.skip
    ensures !OutOfBudget(p, Run(p, Begin(p)).state)
  {
    SearchEndsInTree(p);
    hide Run;
  }

  /** A harmless budget: an answer that ends at the goal is within the weight. */
  lemma HarmlessAnswersWell(p: Problem)
    requires WellFormed(p) && Consistent(p) && p.weight >= 1.0 && Harmless(|p.nodes|, p.budget) && EndsAtGoal(p)
    ensures AnswersWell(p)
  {
    if p.start == p.goal {
      UnchangedAnswersWell(p);
    } else if p.budget >= |p.nodes| {
      Budgets.LargeBudgetIsNone(p);
      UnchangedAnswersWell(p);
    } else if p.budget <= 0 {
      FullAnswerIsNearOptimal(p);
    } else if p.start in p.rules.skip {
      EndsAtGoalExactly(p);
      SkippedStartSpendsNothing(p);
      FoundAnswerIsNearOptimal(p);
    } else {
      Budgets.BudgetOfOneStaysPut(p);
    }
  }

  // ---- the line with a bypass -------------------------------------------------------------

  function OnAxis(x: real): Vec<real> {
    Vec(x, 0.0, 0.0)
  }

  /** Distance along one axis. */
  function AxisDistance(a: Vec<real>, b: Vec<real>): real {
    if a.x >= b.x then a.x - b.x else b.x - a.x
  }

  /** What the bypass costs: more than the weight allows. */
  function Toll(n: nat, weight: real): real {
    weight * (n as real)
  }

  function BypassNode(n: nat, weight: real, i: nat): Node<real>
    requires i < n
  {
    var on := if i + 1 < n then [Edge(i + 1, 0, 1.0)] else [];
    Node(OnAxis((n - 1 - i) as real), 0, false, if i == 0 then [Edge(n - 1, 0, Toll(n, weight))] + on else on)
  }

  /** The line 0 -> 1 -> ... -> n - 1 with unit steps, and an edge from 0 straight to its end, listed first. */
  function Bypass(n: nat, weight: real): (r: seq<Node<real>>)
    requires n >= 3
    ensures |r| == n && forall i :: 0 <= i < n ==> r[i] == BypassNode(n, weight, i)
  {
    seq(n, i requires 0 <= i < n => BypassNode(n, weight, i))
  }

  function BypassProblem(n: nat, weight: real, budget: int): Problem
    requires n >= 3
  {
    Problem(Bypass(n, weight), AxisDistance, Rules(0, 0, {}), 0, n - 1, weight, budget)
  }

  lemma TollIsDear(n: nat, weight: real)
    requires weight >= 1.0 && n >= 3
    ensures Toll(n, weight) >= n as real && Toll(n, weight) > weight * ((n - 1) as real)
  {
    assert (n - 1) as real == n as real - 1.0;
  }

  lemma BypassIsEligible(n: nat, weight: real, budget: int)
    requires n >= 3 && weight >= 1.0
    ensures Eligible(n, weight, budget, BypassProblem(n, weight, budget))
  {
    TollIsDear(n, weight);
    hide Toll;
  }

  /** The steps along the line from u to its end. */
  function Along(n: nat, u: nat): seq<Step>
    requires u < n
    decreases n - u
  {
    if u + 1 == n then [] else [Step(u, if u == 0 then 1 else 0)] + Along(n, u + 1)
  }

  lemma LineStep(n: nat, weight: real, u: nat)
    requires n >= 3 && u + 1 < n
    ensures var nodes, k := Bypass(n, weight), if u == 0 then 1 else 0;
            Allowed(nodes, Rules(0, 0, {}), u, k) && nodes[u].edges[k].to == u + 1 && nodes[u].edges[k].cost == 1.0
  {
    hide Toll;
  }

  lemma {:induction false} AlongIsWalk(n: nat, weight: real, u: nat)
    requires n >= 3 && u < n
    ensures IsWalk(Bypass(n, weight), Rules(0, 0, {}), u, Along(n, u), n - 1)
    ensures WalkCost(Bypass(n, weight), Rules(0, 0, {}), u, Along(n, u), n - 1) == (n - 1 - u) as real
    decreases n - u
  {
    hide BypassNode;
    hide Allowed;
    hide IsWalk;
    hide WalkCost;
    hide Bypass;
    var nodes, rules := Bypass(n, weight), Rules(0, 0, {});
    if u + 1 == n {
      NoSteps(nodes, rules, u);
    } else {
      AlongIsWalk(n, weight, u + 1);
      LineStep(n, weight, u);
      StepAhead(nodes, rules, u, if u == 0 then 1 else 0, Along(n, u + 1), n - 1);
    }
  }

  lemma NoSteps(nodes: seq<Node<real>>, rules: Rules, u: nat)
    requires u < |nodes|
    ensures IsWalk(nodes, rules, u, [], u) && WalkCost(nodes, rules, u, [], u) == 0.0
  {
  }

  lemma StepAhead(nodes: seq<Node<real>>, rules: Rules, u: nat, i: nat, rest: seq<Step>, b: nat)
    requires Allowed(nodes, rules, u, i) && IsWalk(nodes, rules, nodes[u].edges[i].to, rest, b)
    ensures IsWalk(nodes, rules, u, [Step(u, i)] + rest, b)
    ensures WalkCost(nodes, rules, u, [Step(u, i)] + rest, b) ==
            nodes[u].edges[i].cost + WalkCost(nodes, rules, nodes[u].edges[i].to, rest, b)
  {
    assert ([Step(u, i)] + rest)[1..] == rest;
  }

  /** No two edges of a node lead to the same node. */
  ghost predicate NoParallels(nodes: seq<Node<real>>) {
    forall u, i, j :: 0 <= u < |nodes| && 0 <= i < j < |nodes[u].edges| ==>
      nodes[u].edges[i].to != nodes[u].edges[j].to
  }

  /** Then the visited nodes determine the steps. */
  lemma {:induction false} VisitsDetermineSteps(
    nodes: seq<Node<real>>, rules: Rules, a: nat, s: seq<Step>, t: seq<Step>, b: nat)
    requires NoParallels(nodes) && IsWalk(nodes, rules, a, s, b) && IsWalk(nodes, rules, a, t, b)
    requires Visits(nodes, rules, a, s, b) == Visits(nodes, rules, a, t, b)
    ensures s == t
    decreases |s|
  {
    if s != [] {
      var us, ut := Target(nodes, s[0]), Target(nodes, t[0]);
      assert Visits(nodes, rules, a, s, b)[1..] == Visits(nodes, rules, us, s[1..], b);
      assert Visits(nodes, rules, a, t, b)[1..] == Visits(nodes, rules, ut, t[1..], b);
      VisitsDetermineSteps(nodes, rules, us, s[1..], t[1..], b);
      assert s == [s[0]] + s[1..] && t == [t[0]] + t[1..];
    }
  }

  /** After k expansions the line is known up to its k-th node, and its end at the toll only. */
  ghost predicate AlongTheLine(p: Problem, s: Frontier, k: nat) {
    && p.start in s.g && s.g[p.start] == 0.0
    && forall v :: v in s.g ==> if v == p.goal then s.g[v] == Toll(|p.nodes|, p.weight) else v <= k
  }

  /** A search on the bypass with a budget that runs out. */
  ghost predicate CutShort(p: Problem) {
    |p.nodes| >= 3 && 2 <= p.budget < |p.nodes| && p == BypassProblem(|p.nodes|, p.weight, p.budget)
  }

  lemma FollowStaysOnLine(p: Problem, s: Frontier, cur: nat, i: nat, k: nat)
    requires WellFormed(p) && CutShort(p) && Ready(p, s) && AlongTheLine(p, s, k)
    requires cur in s.g && cur < k < p.goal && i < |p.nodes[cur].edges|
    ensures AlongTheLine(p, Relax(p, s, cur, p.nodes[cur].edges[i]), k)
  {
    hide Push;
    hide Toll;
    assert p.nodes[cur] == BypassNode(|p.nodes|, p.weight, cur);
  }

  lemma {:induction false} RelaxStaysOnLine(p: Problem, s: Frontier, cur: nat, i: nat, k: nat)
    requires WellFormed(p) && CutShort(p) && Ready(p, s) && AlongTheLine(p, s, k)
    requires cur in s.g && cur < k < p.goal && i <= |p.nodes[cur].edges|
    ensures AlongTheLine(p, RelaxFrom(p, s, cur, i), k)
    decreases |p.nodes[cur].edges| - i
  {
    hide Relax;
    hide AlongTheLine;
    hide CutShort;
    if i < |p.nodes[cur].edges| {
      FollowStaysOnLine(p, s, cur, i, k);
      RelaxStaysOnLine(p, Relax(p, s, cur, p.nodes[cur].edges[i]), cur, i + 1, k);
    }
  }

  /** Before the budget runs out: the line so far, and its end from the first expansion on. */
  ghost predicate OnTheWay(p: Problem, s: Frontier) {
    && AlongTheLine(p, s, s.expansions) && s.expansions < p.budget
    && (s.expansions > 0 ==> p.goal in s.g)
  }

  /** Once the start is expanded, the end of the line is known. */
  lemma BypassIsFollowed(p: Problem, s: Frontier)
    requires WellFormed(p) && CutShort(p) && Invariant(p, s) && Counted(p, s) && s.expansions > 0
    ensures p.goal in s.g
  {
    assert s.closed.Keys != {};
    var v :| v in s.closed;
    assert v in s.g;
    assert Followed(p, s, p.start, 0);
    assert Allowed(p.nodes, p.rules, p.start, 0);
  }

  lemma AdvanceStaysOnLine(p: Problem, s: Frontier)
    requires WellFormed(p) && CutShort(p) && Ready(p, s) && OnTheWay(p, s)
    ensures Advance(p, s).More? ==>
      var t := Advance(p, s).state; AlongTheLine(p, t, t.expansions) && t.expansions < p.budget
    ensures Advance(p, s).Done? ==>
      var t := Advance(p, s).outcome.state; t.g == s.g && t.expansions <= s.expansions + 1
  {
    hide RelaxFrom;
    hide Stale;
    hide Toll;
    if s.heap != [] && !Stale(p, s) {
      var cur := s.heap[0].node;
      var closed := Close(Pop(s), cur);
      if cur != p.goal && !OutOfBudget(p, closed) {
        assert s.heap[0] in s.heap;
        RelaxStaysOnLine(p, closed, cur, 0, closed.expansions);
      }
    }
  }

  lemma ShortIsEnough(p: Problem, s: Frontier, t: Frontier)
    requires OnTheWay(p, s) && t.g == s.g && t.expansions <= s.expansions + 1
    ensures AlongTheLine(p, t, p.budget) && (t.expansions > 1 ==> p.goal in t.g)
  {
  }

  /** So the end of the line is known at the toll, whichever way the search ends past its first expansion. */
  lemma {:induction false} RunStaysOnLine(p: Problem, s: Frontier)
    requires WellFormed(p) && CutShort(p) && Invariant(p, s) && Counted(p, s) && OnTheWay(p, s)
    ensures var t := Run(p, s).state; AlongTheLine(p, t, p.budget) && (t.expansions > 1 ==> p.goal in t.g)
    decreases Unexpanded(p, s), |s.heap|
  {
    hide Advance;
    hide Counted;
    hide CutShort;
    hide AlongTheLine;
    AdvanceStaysOnLine(p, s);
    AdvanceKeeps(p, s);
    hide Invariant;
    AdvanceCounts(p, s);
    match Advance(p, s)
    case Done(o) =>
      ShortIsEnough(p, s, o.state);
    case More(t) =>
      TurnsDecrease(p, s);
      if t.expansions > 0 {
        BypassIsFollowed(p, t);
      }
      RunStaysOnLine(p, t);
  }

  /** On the bypass no search ends with everything expanded short of the goal. */
  lemma BypassIsNotExhausted(p: Problem, o: Outcome)
    requires WellFormed(p) && CutShort(p) && StateOf(p, o) && !o.found
    ensures !Exhausted(p, o.state)
  {
    hide Toll;
    AlongIsWalk(|p.nodes|, p.weight, 0);
    hide StateOf;
    if Exhausted(p, o.state) {
      ExhaustedAnswer(p, o);
    }
  }

  /** The end of the line is closer to itself than any other node. */
  lemma EndIsClosest(p: Problem, v: nat)
    requires WellFormed(p) && CutShort(p) && v < |p.nodes| && H(p, v) <= H(p, p.goal)
    ensures v == p.goal
  {
    hide Toll;
    assert p.nodes[v] == BypassNode(|p.nodes|, p.weight, v);
    assert p.nodes[p.goal] == BypassNode(|p.nodes|, p.weight, p.goal);
  }

  /** Where the search on the bypass ends: at its end, known at the toll. */
  lemma BypassEnds(p: Problem)
    requires WellFormed(p) && CutShort(p)
    ensures var o := Run(p, Begin(p));
            Last(p, o) == p.goal && p.goal in o.state.g && o.state.g[p.goal] == Toll(|p.nodes|, p.weight)
  {
    var o := Run(p, Begin(p));
    SearchEndsInTree(p);
    BeginInvariant(p);
    Budgets.BeginIgnoresBudget(p);
    RunStaysOnLine(p, Begin(p));
    RunEnds(p, Begin(p));
    hide Run;
    hide Toll;
    hide Begin;
    hide Exhausted;
    hide H;
    if !o.found {
      BypassIsNotExhausted(p, o);
      EndIsClosest(p, o.state.best);
    }
  }

  /** A walk that costs the toll is not within the weight. */
  lemma TollIsNotWithinWeight(n: nat, weight: real, budget: int, mine: seq<Step>)
    requires weight >= 1.0 && n >= 3
    requires var p := BypassProblem(n, weight, budget);
             && WellFormed(p) && IsWalk(p.nodes, p.rules, p.start, mine, p.goal)
             && WalkCost(p.nodes, p.rules, p.start, mine, p.goal) == Toll(n, weight)
    ensures !WithinWeight(BypassProblem(n, weight, budget), mine)
  {
    TollIsDear(n, weight);
    AlongIsWalk(n, weight, 0);
  }

  /**
   For every budget from 2 to n - 1 and every weight: on the line with a bypass the answer
   ends at the goal, and is dearer than the weight allows.
   */
  lemma EndingAtGoalIsNotEnough(n: nat, weight: real, budget: int)
    requires weight >= 1.0 && 2 <= budget < n
    ensures var p := BypassProblem(n, weight, budget);
            Eligible(n, weight, budget, p) && EndsAtGoal(p) && !AnswersWell(p)
  {
    var p := BypassProblem(n, weight, budget);
    BypassIsEligible(n, weight, budget);
    BypassEnds(p);
    BypassHasNoParallels(n, weight);
    var steps := AnswerWalk(p);
    hide Solve;
    hide Run;
    hide Begin;
    hide Toll;
    hide WithinWeight;
    hide Bypass;
    hide IsDistance;
    hide CostsCoverDistance;
    hide NoParallels;
    forall mine | Spells(p.nodes, p.rules, mine, Solve(p)) && WithinWeight(p, mine) ensures false {
      VisitsDetermineSteps(p.nodes, p.rules, p.start, mine, steps, p.goal);
      TollIsNotWithinWeight(n, weight, budget, mine);
    }
  }

  lemma BypassHasNoParallels(n: nat, weight: real)
    requires n >= 3
    ensures NoParallels(Bypass(n, weight))
  {
    hide Toll;
  }

  /**
   That an answer ends at the goal tells that it is within the weight, on every graph of n
   nodes, exactly when the budget is harmless.
   */
  lemma EndTellsExactly(n: nat, weight: real, budget: int)
    requires weight >= 1.0
    ensures EndTells(n, weight, budget) <==> Harmless(n, budget)
  {
    if Harmless(n, budget) {
      forall p {:trigger Eligible(n, weight, budget, p)} | Eligible(n, weight, budget, p) && EndsAtGoal(p)
        ensures AnswersWell(p)
      {
        DistanceCostsAreConsistent(p);
        HarmlessAnswersWell(p);
      }
    } else {
      EndingAtGoalIsNotEnough(n, weight, budget);
    }
  }
}
