/**
 The theorems about the answer of a search, for every graph, query and budget
 (code/gsc_graph.cpp, 747-847).
 */
module SearchResults {
  import opened GraphTypes
  import opened Search
  import opened SearchTheorems

  // ---- every answer is a real, simple walk from the start ----------------------

  lemma CloseCounts(p: Problem, s: Frontier, cur: nat)
    requires Counted(p, s) && cur !in s.closed && cur < |p.nodes|
    ensures Counted(p, Close(s, cur))
  {
    assert Close(s, cur).closed.Keys == s.closed.Keys + {cur};
  }

  lemma AdvanceCounts(p: Problem, s: Frontier)
    requires WellFormed(p) && Ready(p, s) && Counted(p, s)
    ensures Advance(p, s).More? ==> Counted(p, Advance(p, s).state)
    ensures Advance(p, s).Done? ==> Counted(p, Advance(p, s).outcome.state)
  {
    hide Advance;
    if s.heap != [] && s.heap[0].node !in s.closed {
      CloseCounts(p, s, s.heap[0].node);
    }
  }

  /** The state a search ends in is still a tree. */
  lemma {:induction false} RunKeepsTree(p: Problem, s: Frontier)
    requires WellFormed(p) && Invariant(p, s) && Counted(p, s)
    ensures Tree(p, Run(p, s).state) && Counted(p, Run(p, s).state)
    decreases Unexpanded(p, s), |s.heap|
  {
    AdvanceKeeps(p, s);
    AdvanceCounts(p, s);
    hide Advance;
    hide Invariant;
    hide Counted;
    match Advance(p, s)
    case Done(_) =>
    case More(t) =>
      TurnsDecrease(p, s);
      RunKeepsTree(p, t);
  }

  lemma TurnsDecrease(p: Problem, s: Frontier)
    requires WellFormed(p) && Ready(p, s) && Advance(p, s).More?
    ensures var t := Advance(p, s).state;
      || Unexpanded(p, t) < Unexpanded(p, s)
      || (Unexpanded(p, t) == Unexpanded(p, s) && |t.heap| < |s.heap|)
  {
    var t := Advance(p, s).state;
    hide Advance;
    if t.closed == s.closed {
      assert Unexpanded(p, t) == Unexpanded(p, s);
    } else {
      assert s.heap[0].node in Unexpanded(p, s) && s.heap[0].node !in Unexpanded(p, t);
      assert Unexpanded(p, t) <= Unexpanded(p, s);
    }
  }

  ghost predicate StateOf(p: Problem, o: Outcome)
    requires WellFormed(p)
  {
    Tree(p, o.state) && Counted(p, o.state) && (o.found ==> p.goal in o.state.g)
  }

  lemma SearchEndsInTree(p: Problem)
    requires WellFormed(p)
    ensures StateOf(p, Run(p, Begin(p)))
  {
    BeginInvariant(p);
    RunKeepsTree(p, Begin(p));
  }

  lemma PathWalk(p: Problem, o: Outcome) returns (steps: seq<Step>)
    requires WellFormed(p) && StateOf(p, o)
    ensures var last := Last(p, o); var ids := Back(o.state, p.start, last, |p.nodes| + 1);
      && last in o.state.g
      && IsWalk(p.nodes, p.rules, p.start, steps, last)
      && Visits(p.nodes, p.rules, p.start, steps, last) == ids
      && WalkCost(p.nodes, p.rules, p.start, steps, last) == o.state.g[last]
      && Simple(ids)
  {
    NodesBelow(|p.nodes|, o.state.closed.Keys);
    BackIsSimple(p, o.state, Last(p, o), |p.nodes|, |p.nodes| + 1);
    steps := BackIsWalk(p, o.state, Last(p, o), |p.nodes|, |p.nodes| + 1);
  }

  /** The walk behind an answer. */
  lemma AnswerWalk(p: Problem) returns (steps: seq<Step>)
    requires WellFormed(p) && p.start != p.goal
    ensures var o := Run(p, Begin(p)); var last := Last(p, o);
      && last in o.state.g
      && IsWalk(p.nodes, p.rules, p.start, steps, last)
      && Visits(p.nodes, p.rules, p.start, steps, last) == Solve(p)
      && WalkCost(p.nodes, p.rules, p.start, steps, last) == o.state.g[last]
      && Simple(Solve(p))
  {
    SearchEndsInTree(p);
    var o := Run(p, Begin(p));
    steps := PathWalk(p, o);
  }

  /**
   Full or partial, whatever the costs, the weight and the budget: the answer is
   a walk over allowed edges that starts at the start and repeats no node.
   */
  lemma AnswerIsSimpleWalk(p: Problem)
    requires WellFormed(p)
    ensures Solve(p) != [] && Solve(p)[0] == p.start && Simple(Solve(p))
    ensures exists steps :: Spells(p.nodes, p.rules, steps, Solve(p))
  {
    if p.start == p.goal {
      assert Spells(p.nodes, p.rules, [], [p.start]);
    } else {
      var steps := AnswerWalk(p);
      hide Solve;
      assert Spells(p.nodes, p.rules, steps, Solve(p));
    }
  }

  // ---- without a budget, full exactly when reachable ---------------------------

  /** Nothing is left in the heap, and the goal was never closed. */
  ghost predicate Exhausted(p: Problem, s: Frontier)
    requires WellFormed(p)
  {
    Invariant(p, s) && s.heap == [] && p.goal !in s.closed
  }

  lemma AdvanceLeavesGoalOpen(p: Problem, s: Frontier)
    requires WellFormed(p) && Ready(p, s) && p.goal !in s.closed && p.budget <= 0
    ensures Advance(p, s).More? ==> p.goal !in Advance(p, s).state.closed
    ensures Advance(p, s).Done? ==> Advance(p, s).outcome.found || (s.heap == [] && Advance(p, s).outcome.state == s)
  {
    hide RelaxFrom;
  }

  lemma {:induction false} RunExhausts(p: Problem, s: Frontier)
    requires WellFormed(p) && Invariant(p, s) && p.goal !in s.closed && p.budget <= 0
    ensures Run(p, s).found || Exhausted(p, Run(p, s).state)
    decreases Unexpanded(p, s), |s.heap|
  {
    AdvanceKeeps(p, s);
    AdvanceLeavesGoalOpen(p, s);
    hide Advance;
    hide Invariant;
    match Advance(p, s)
    case Done(_) =>
    case More(t) =>
      TurnsDecrease(p, s);
      RunExhausts(p, t);
  }

  /** In an exhausted search every node that can be reached from a closed one is closed. */
  lemma {:induction false} ClosedUnderWalks(p: Problem, s: Frontier, u: nat, steps: seq<Step>, v: nat)
    requires WellFormed(p) && Exhausted(p, s) && p.start !in p.rules.skip
    requires u in s.closed && IsWalk(p.nodes, p.rules, u, steps, v)
    ensures v in s.closed
    decreases |steps|
  {
    if steps != [] {
      assert Followed(p, s, u, steps[0].index);
      var next := Target(p.nodes, steps[0]);
      KnownIsClosed(p, s, next);
      ClosedUnderWalks(p, s, next, steps[1..], v);
    }
  }

  lemma KnownIsClosed(p: Problem, s: Frontier, v: nat)
    requires WellFormed(p) && Exhausted(p, s) && v in s.g
    requires v == p.start ==> p.start !in p.rules.skip
    ensures v in s.closed
  {
    assert v != p.start ==> Reached(p, s, v);
  }

  /** An exhausted search has closed exactly the nodes that can be reached. */
  lemma ExhaustedKnowsReachable(p: Problem, s: Frontier, v: nat)
    requires WellFormed(p) && Exhausted(p, s) && Counted(p, s) && p.start !in p.rules.skip
    ensures v in s.g <==> Reachable(p.nodes, p.rules, p.start, v)
  {
    if v in s.g {
      NodesBelow(|p.nodes|, s.closed.Keys);
      KnownIsClosed(p, s, v);
      var steps := BackIsWalk(p, s, v, |p.nodes|, |p.nodes| + 1);
    } else if Reachable(p.nodes, p.rules, p.start, v) {
      var steps :| IsWalk(p.nodes, p.rules, p.start, steps, v);
      KnownIsClosed(p, s, p.start);
      ClosedUnderWalks(p, s, p.start, steps, v);
    }
  }

  /** A found goal was reached through the start, which is not on the skip list. */
  lemma FoundIsReachable(p: Problem, o: Outcome)
    requires WellFormed(p) && StateOf(p, o) && o.found && p.start != p.goal
    ensures p.start !in p.rules.skip && Reachable(p.nodes, p.rules, p.start, p.goal)
  {
    assert Reached(p, o.state, p.goal);
    var steps := PathWalk(p, o);
  }

  /**
   Without a budget, and for any costs and weight, the answer is full exactly when
   the goal can be reached from a start that is not itself on the skip list.
   */
  lemma FullExactlyWhenReachable(p: Problem)
    requires WellFormed(p) && p.budget <= 0
    ensures Solve(p) != []
    ensures Solve(p)[|Solve(p)| - 1] == p.goal <==>
      p.start == p.goal || (p.start !in p.rules.skip && Reachable(p.nodes, p.rules, p.start, p.goal))
  {
    if p.start != p.goal {
      var o := Run(p, Begin(p));
      SearchEndsInTree(p);
      BeginInvariant(p);
      RunExhausts(p, Begin(p));
      var steps := AnswerWalk(p);
      assert Solve(p)[|Solve(p)| - 1] == Last(p, o);
      hide Run;
      hide Solve;
      if o.found {
        FoundIsReachable(p, o);
      } else {
        ExhaustedAnswer(p, o);
      }
    }
  }

  lemma ExhaustedAnswer(p: Problem, o: Outcome)
    requires WellFormed(p) && StateOf(p, o) && !o.found && Exhausted(p, o.state) && p.start != p.goal
    ensures Last(p, o) != p.goal
    ensures p.start !in p.rules.skip ==> !Reachable(p.nodes, p.rules, p.start, p.goal)
  {
    if p.goal in o.state.g {
      KnownIsClosed(p, o.state, p.goal);
    }
    if p.start !in p.rules.skip {
      ExhaustedKnowsReachable(p, o.state, p.goal);
    }
  }

  /**
   A partial answer found without a budget ends at a node that can be reached, and no
   node that can be reached is closer to the goal in a straight line.
   */
  lemma PartialEndsClosest(p: Problem)
    requires WellFormed(p) && p.budget <= 0 && p.start !in p.rules.skip
    requires !Reachable(p.nodes, p.rules, p.start, p.goal)
    ensures Solve(p) != [] && Solve(p)[|Solve(p)| - 1] < |p.nodes|
    ensures var last := Solve(p)[|Solve(p)| - 1];
      && Reachable(p.nodes, p.rules, p.start, last)
      && forall v :: 0 <= v < |p.nodes| && Reachable(p.nodes, p.rules, p.start, v) ==> H(p, last) <= H(p, v)
  {
    assert p.start == p.goal ==> IsWalk(p.nodes, p.rules, p.start, [], p.goal);
    var o := Run(p, Begin(p));
    SearchEndsInTree(p);
    BeginInvariant(p);
    RunExhausts(p, Begin(p));
    var steps := AnswerWalk(p);
    assert Solve(p)[|Solve(p)| - 1] == Last(p, o);
    hide Run;
    hide Solve;
    if o.found {
      FoundIsReachable(p, o);
      assert false;
    }
    forall v | 0 <= v < |p.nodes| && Reachable(p.nodes, p.rules, p.start, v) ensures H(p, o.state.best) <= H(p, v) {
      ExhaustedKnowsReachable(p, o.state, v);
    }
  }
}
