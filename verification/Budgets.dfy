/**
 What a budget on expansions changes (code/gsc_graph.cpp, 748-753, 796-800). A search
 closes every node but the goal at most once, so a budget of at least the number of
 nodes is no budget; and on a line of n nodes every smaller one cuts the search short.
 */
module Budgets {
  import opened EntryHeap
  import opened GraphTypes
  import opened Search
  import opened SearchTheorems
  import opened SearchResults

  function Unbudgeted(p: Problem): Problem {
    p.(budget := 0)
  }

  lemma {:induction false} EdgesIgnoreBudget(p: Problem, s: Frontier, cur: nat, i: nat)
    requires WellFormed(p) && Ready(p, s) && cur in s.g && i <= |p.nodes[cur].edges|
    ensures RelaxFrom(Unbudgeted(p), s, cur, i) == RelaxFrom(p, s, cur, i)
    decreases |p.nodes[cur].edges| - i
  {
    if i < |p.nodes[cur].edges| {
      RelaxIgnoresBudget(p, s, cur, p.nodes[cur].edges[i]);
      hide Relax;
      EdgesIgnoreBudget(p, Relax(p, s, cur, p.nodes[cur].edges[i]), cur, i + 1);
    }
  }

  lemma RelaxIgnoresBudget(p: Problem, s: Frontier, cur: nat, e: Edge<real>)
    requires WellFormed(p) && Ready(p, s) && cur in s.g && e.to < |p.nodes|
    ensures Relax(Unbudgeted(p), s, cur, e) == Relax(p, s, cur, e)
  {
    hide Push;
    var p0 := Unbudgeted(p);
    assert H(p0, e.to) == H(p, e.to) && H(p0, s.best) == H(p, s.best);
    assert Key(p0, s.g[cur] + e.cost, e.to) == Key(p, s.g[cur] + e.cost, e.to);
  }

  /** Closing one more node, not the goal, cannot use up a budget of at least the number of nodes. */
  lemma NeverOutOfBudget(p: Problem, s: Frontier, cur: nat)
    requires WellFormed(p) && Counted(p, s) && p.budget >= |p.nodes| && cur !in s.closed && cur < |p.nodes|
    requires p.goal !in s.closed && cur != p.goal
    ensures !OutOfBudget(p, Close(s, cur))
  {
    CloseCounts(p, s, cur);
    NodesBelow(|p.nodes|, Close(s, cur).closed.Keys + {p.goal});
  }

  lemma StaleIgnoresBudget(p: Problem, s: Frontier)
    requires WellFormed(p) && Ready(p, s) && s.heap != []
    ensures Stale(Unbudgeted(p), s) == Stale(p, s)
  {
    var v := s.heap[0].node;
    assert s.heap[0] in s.heap;
    assert H(Unbudgeted(p), v) == H(p, v);
  }

  /** So a turn is the turn of a search without a budget. */
  lemma TurnIgnoresBudget(p: Problem, s: Frontier)
    requires WellFormed(p) && Ready(p, s) && Counted(p, s) && p.budget >= |p.nodes| && p.goal !in s.closed
    ensures Advance(Unbudgeted(p), s) == Advance(p, s)
  {
    hide RelaxFrom;
    hide Stale;
    hide OutOfBudget;
    if s.heap != [] {
      StaleIgnoresBudget(p, s);
      var cur := s.heap[0].node;
      assert s.heap[0] in s.heap;
      if !Stale(p, s) {
        FreshIsOpen(p, s);
        if cur != p.goal {
          NeverOutOfBudget(p, Pop(s), cur);
        }
        EdgesIgnoreBudget(p, Close(Pop(s), cur), cur, 0);
        NoBudgetNoLimit(Unbudgeted(p), Close(Pop(s), cur));
      }
    }
  }

  lemma NoBudgetNoLimit(p: Problem, s: Frontier)
    requires p.budget <= 0
    ensures !OutOfBudget(p, s)
  {
  }

  lemma FreshIsOpen(p: Problem, s: Frontier)
    requires WellFormed(p) && Ready(p, s) && s.heap != [] && !Stale(p, s)
    ensures s.heap[0].node !in s.closed && s.heap[0].node < |p.nodes| && s.heap[0].node in s.g
  {
  }

  lemma {:induction false} RunIgnoresLargeBudget(p: Problem, s: Frontier)
    requires WellFormed(p) && Ready(p, s) && Counted(p, s) && p.budget >= |p.nodes| && p.goal !in s.closed
    ensures Run(Unbudgeted(p), s) == Run(p, s)
    decreases Unexpanded(p, s), |s.heap|
  {
    hide Advance;
    hide Counted;
    TurnIgnoresBudget(p, s);
    AdvanceCounts(p, s);
    match Advance(p, s)
    case Done(_) =>
    case More(t) =>
      TurnsDecrease(p, s);
      RunIgnoresLargeBudget(p, t);
  }

  /** All budgets of zero or less are one. */
  lemma {:induction false} RunIgnoresNoBudget(p: Problem, s: Frontier)
    requires WellFormed(p) && Ready(p, s) && p.budget <= 0
    ensures Run(Unbudgeted(p), s) == Run(p, s)
    decreases Unexpanded(p, s), |s.heap|
  {
    NoBudgetTurn(p, s);
    hide Advance;
    match Advance(p, s)
    case Done(_) =>
    case More(t) =>
      TurnsDecrease(p, s);
      RunIgnoresNoBudget(p, t);
  }

  lemma NoBudgetTurn(p: Problem, s: Frontier)
    requires WellFormed(p) && Ready(p, s) && p.budget <= 0
    ensures Advance(Unbudgeted(p), s) == Advance(p, s)
  {
    hide RelaxFrom;
    hide Stale;
    if s.heap != [] {
      StaleIgnoresBudget(p, s);
      var cur := s.heap[0].node;
      assert s.heap[0] in s.heap;
      EdgesIgnoreBudget(p, Close(Pop(s), cur), cur, 0);
    }
  }

  /** A budget of at least the number of nodes changes no answer. */
  lemma LargeBudgetIsNone(p: Problem)
    requires WellFormed(p) && p.budget >= |p.nodes|
    ensures Solve(p) == Solve(Unbudgeted(p))
  {
    hide Run;
    BeginIgnoresBudget(p);
    RunIgnoresLargeBudget(p, Begin(p));
  }

  lemma BeginIgnoresBudget(p: Problem)
    requires WellFormed(p)
    ensures Begin(Unbudgeted(p)) == Begin(p) && Counted(p, Begin(p))
  {
    hide Push;
    assert H(Unbudgeted(p), p.start) == H(p, p.start);
    assert Key(Unbudgeted(p), 0.0, p.start) == Key(p, 0.0, p.start);
    assert Begin(p).closed.Keys == {};
  }

  /** A budget of one expansion never leaves a start that may be expanded. */
  lemma BudgetOfOneStaysPut(p: Problem)
    requires WellFormed(p) && p.budget == 1 && p.start != p.goal && p.start !in p.rules.skip
    ensures Solve(p) == [p.start]
  {
    var s := Begin(p);
    assert s.heap == [Entry(Key(p, 0.0, p.start), p.start)];
    assert Rest(s.heap) == [];
    assert !Stale(p, s);
    var closed := Close(Pop(s), p.start);
    assert OutOfBudget(p, closed);
    assert Advance(p, s) == Done(Outcome(closed, false));
    assert closed.best == p.start;
  }

  // ---- a budget that is too small --------------------------------------------------------

  /** No edge leads further than to the next id. */
  ghost predicate Gradual(nodes: seq<Node<real>>) {
    forall u, i :: 0 <= u < |nodes| && 0 <= i < |nodes[u].edges| ==> nodes[u].edges[i].to <= u + 1
  }

  /** With each expansion the search has come at most one id further. */
  ghost predicate NotFar(p: Problem, s: Frontier, reach: nat) {
    forall v :: v in s.g ==> v <= p.start + reach
  }

  lemma {:induction false} RelaxGoesOneFurther(p: Problem, s: Frontier, cur: nat, i: nat, reach: nat)
    requires WellFormed(p) && Ready(p, s) && cur in s.g && i <= |p.nodes[cur].edges|
    requires Gradual(p.nodes) && cur < p.start + reach && NotFar(p, s, reach)
    ensures NotFar(p, RelaxFrom(p, s, cur, i), reach)
    decreases |p.nodes[cur].edges| - i
  {
    if i < |p.nodes[cur].edges| {
      hide Push;
      var r := Relax(p, s, cur, p.nodes[cur].edges[i]);
      assert NotFar(p, r, reach);
      hide Relax;
      RelaxGoesOneFurther(p, r, cur, i + 1, reach);
    }
  }

  lemma AdvanceGoesOneFurther(p: Problem, s: Frontier)
    requires WellFormed(p) && Ready(p, s) && Gradual(p.nodes)
    requires NotFar(p, s, s.expansions) && 0 <= s.expansions < p.budget
    ensures Advance(p, s).More? ==>
      NotFar(p, Advance(p, s).state, Advance(p, s).state.expansions) && Advance(p, s).state.expansions < p.budget
    ensures Advance(p, s).Done? ==> NotFar(p, Advance(p, s).outcome.state, s.expansions)
  {
    hide RelaxFrom;
    hide Stale;
    if s.heap != [] && !Stale(p, s) {
      var cur := s.heap[0].node;
      var closed := Close(Pop(s), cur);
      if cur != p.goal && !OutOfBudget(p, closed) {
        assert s.heap[0] in s.heap;
        RelaxGoesOneFurther(p, closed, cur, 0, closed.expansions);
      }
    }
  }

  lemma {:induction false} RunStaysShort(p: Problem, s: Frontier)
    requires WellFormed(p) && Ready(p, s) && Gradual(p.nodes)
    requires NotFar(p, s, s.expansions) && 0 <= s.expansions < p.budget
    ensures NotFar(p, Run(p, s).state, p.budget - 1)
    decreases Unexpanded(p, s), |s.heap|
  {
    hide Advance;
    AdvanceGoesOneFurther(p, s);
    match Advance(p, s)
    case Done(_) =>
    case More(t) =>
      TurnsDecrease(p, s);
      RunStaysShort(p, t);
  }

  /** Where every hop leads one id on, a budget of no more than the ids between start and goal never gets there. */
  lemma SmallBudgetFallsShort(p: Problem)
    requires WellFormed(p) && Gradual(p.nodes) && p.budget > 0 && p.start + p.budget <= p.goal
    ensures Solve(p) != [] && Solve(p)[|Solve(p)| - 1] != p.goal
  {
    var o := Run(p, Begin(p));
    RunStaysShort(p, Begin(p));
    var steps := AnswerWalk(p);
    hide Run;
    assert Solve(p)[|Solve(p)| - 1] == Last(p, o);
  }
}
