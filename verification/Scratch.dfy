/**
 The search as the program runs it (code/gsc_graph.cpp, 47-56, 503-617, 769-847):
 arrays that are never cleared, whose slots count only when their stamp is the
 current search id. It gives the answer of `Search.Solve`, which mentions no
 array, so nothing an earlier search left behind can change an answer.
 */
module Scratch {
  import opened EntryHeap
  import opened GraphTypes
  import opened Search
  import opened SearchTheorems
  import opened SearchResults

  /** Search ids are 32-bit unsigned. */
  const ID_LIMIT: nat := 0x1_0000_0000

  /** The node numbers of a list of entries, last first. */
  ghost function Backward(h: seq<Entry>): seq<nat> {
    if h == [] then [] else [h[|h| - 1].node] + Backward(h[..|h| - 1])
  }

  /** The contents of the scratch arrays. */
  datatype Slots = Slots(g: seq<real>, f: seq<real>, parent: seq<nat>, stamp: seq<nat>, closedStamp: seq<nat>,
      id: nat) {
    ghost predicate Sized(n: nat) {
      && n <= |g| == |f| == |parent| == |stamp| == |closedStamp|
      && id < ID_LIMIT
      && (forall i :: 0 <= i < |stamp| ==> stamp[i] <= id)
      && (forall i :: 0 <= i < |stamp| ==> closedStamp[i] <= id)
    }

    function Store(next: nat, cur: nat, tentative: real, key: real): Slots
      requires next < |g| == |f| == |parent| == |stamp|
    {
      Slots(g[next := tentative], f[next := key], parent[next := cur], stamp[next := id], closedStamp, id)
    }
  }

  /** The slots stamped with the current id hold the search `s`. */
  ghost predicate Holds(a: Slots, p: Problem, s: Frontier)
    requires WellFormed(p) && Ready(p, s)
  {
    && a.Sized(|p.nodes|)
    && (forall v :: 0 <= v < |p.nodes| ==> (a.stamp[v] == a.id <==> v in s.g))
    && (forall v :: v in s.g ==> a.g[v] == s.g[v] && a.f[v] == F(p, s, v) && a.parent[v] == s.parent[v])
    && (forall v :: 0 <= v < |p.nodes| ==> (a.closedStamp[v] == a.id <==> Closed(p, s, v)))
  }

  /** What the program reads of a node's slots. */
  lemma HoldsReads(a: Slots, p: Problem, s: Frontier, v: nat)
    requires WellFormed(p) && Ready(p, s) && Holds(a, p, s) && v < |p.nodes|
    ensures v < |a.g| == |a.f| == |a.parent| == |a.stamp| == |a.closedStamp|
    ensures a.stamp[v] == a.id <==> v in s.g
    ensures a.closedStamp[v] == a.id <==> Closed(p, s, v)
    ensures v in s.g ==> a.g[v] == s.g[v] && a.f[v] == F(p, s, v) && a.parent[v] == s.parent[v]
  {
  }

  lemma BackwardNone()
    ensures Backward([]) == []
  {
  }

  lemma BackwardLast(h: seq<Entry>, e: Entry)
    ensures Backward(h + [e]) == [e.node] + Backward(h)
  {
    assert (h + [e])[..|h|] == h;
  }

  lemma BackStep(s: Frontier, start: nat, cur: nat, fuel: nat)
    requires cur < |s.parent| && forall v :: 0 <= v < |s.parent| ==> s.parent[v] < |s.parent|
    ensures Back(s, start, cur, fuel) ==
      if fuel == 0 then [] else if cur == start then [cur] else Back(s, start, s.parent[cur], fuel - 1) + [cur]
  {
  }

  /** Following a parent link stays among the nodes the search knows. */
  lemma ParentKnown(p: Problem, s: Frontier, v: nat)
    requires WellFormed(p) && Tree(p, s) && v in s.g && v != p.start
    ensures s.parent[v] in s.g
  {
    assert Reached(p, s, v);
  }

  lemma HeadKnown(p: Problem, s: Frontier)
    requires WellFormed(p) && Ready(p, s) && s.heap != []
    ensures s.heap[0].node in s.g && s.heap[0].node < |p.nodes|
  {
  }

  lemma PopHolds(a: Slots, p: Problem, s: Frontier)
    requires WellFormed(p) && Ready(p, s) && Holds(a, p, s) && s.heap != []
    ensures Holds(a, p, Pop(s))
  {
  }

  lemma CloseHolds(a: Slots, p: Problem, s: Frontier, cur: nat)
    requires WellFormed(p) && Ready(p, s) && Holds(a, p, s) && cur in s.g
    ensures Holds(a.(closedStamp := a.closedStamp[cur := a.id]), p, Close(s, cur))
  {
  }

  // ---- the turns of the loop, one by one ---------------------------------------

  lemma EmptyTurn(p: Problem, s: Frontier)
    requires WellFormed(p) && Ready(p, s) && s.heap == []
    ensures Run(p, s) == Outcome(s, false)
  {
  }

  lemma StaleTurn(p: Problem, s: Frontier)
    requires WellFormed(p) && Ready(p, s) && s.heap != [] && Stale(p, s)
    ensures Run(p, s) == Run(p, Pop(s)) && Unexpanded(p, Pop(s)) == Unexpanded(p, s)
  {
    assert Advance(p, s) == More(Pop(s));
  }

  lemma GoalTurn(p: Problem, s: Frontier)
    requires WellFormed(p) && Ready(p, s) && s.heap != [] && !Stale(p, s) && s.heap[0].node == p.goal
    ensures Run(p, s) == Outcome(Pop(s), true)
  {
    assert Advance(p, s) == Done(Outcome(Pop(s), true));
  }

  lemma BudgetTurn(p: Problem, s: Frontier)
    requires WellFormed(p) && Ready(p, s) && s.heap != [] && !Stale(p, s) && s.heap[0].node != p.goal
    requires OutOfBudget(p, Close(Pop(s), s.heap[0].node))
    ensures Run(p, s) == Outcome(Close(Pop(s), s.heap[0].node), false)
  {
    assert Advance(p, s) == Done(Outcome(Close(Pop(s), s.heap[0].node), false));
  }

  lemma ExpandTurn(p: Problem, s: Frontier)
    requires WellFormed(p) && Ready(p, s) && s.heap != [] && !Stale(p, s) && s.heap[0].node != p.goal
    requires !OutOfBudget(p, Close(Pop(s), s.heap[0].node))
    ensures var cur := s.heap[0].node; var next := RelaxFrom(p, Close(Pop(s), cur), cur, 0);
      Run(p, s) == Run(p, next) && Unexpanded(p, next) < Unexpanded(p, s)
  {
    hide RelaxFrom;
    var cur := s.heap[0].node;
    var next := RelaxFrom(p, Close(Pop(s), cur), cur, 0);
    assert Advance(p, s) == More(next);
    assert cur in Unexpanded(p, s) && cur !in Unexpanded(p, next) && Unexpanded(p, next) <= Unexpanded(p, s);
  }

  lemma SeedHolds(a: Slots, p: Problem)
    requires WellFormed(p) && a.Sized(|p.nodes|)
    requires forall i :: 0 <= i < |a.stamp| ==> a.stamp[i] != a.id
    requires forall v :: 0 <= v < |p.nodes| ==> (a.closedStamp[v] == a.id <==> v in p.rules.skip)
    ensures Holds(a.Store(p.start, p.start, 0.0, Key(p, 0.0, p.start)), p, Search.Begin(p))
    ensures Search.Begin(p).heap == Push([], Entry(Key(p, 0.0, p.start), p.start))
  {
    hide Key;
    hide Push;
  }

  lemma StoreHolds(a: Slots, p: Problem, s: Frontier, cur: nat, next: nat, tentative: real)
    requires WellFormed(p) && Ready(p, s) && Holds(a, p, s) && cur in s.g && next < |p.nodes|
    ensures Holds(a.Store(next, cur, tentative, Key(p, tentative, next)), p, Improve(p, s, cur, next, tentative))
  {
    hide Improve;
    hide Key;
    hide TargetsInRange;
    hide HeapKnown;
    var r := Improve(p, s, cur, next, tentative);
    ImproveEffect(p, s, cur, next, tentative);
    forall v | v in r.g ensures F(p, r, v) == if v == next then Key(p, tentative, next) else F(p, s, v) {
    }
  }

  class SearchScratch {
    var gScore: seq<real>
    var fScore: seq<real>
    var parent: seq<nat>
    var stamp: seq<nat>
    var closedStamp: seq<nat>
    var searchId: nat
    const heap: Heap

    constructor ()
      ensures Valid() && fresh(heap)
    {
      gScore, fScore, parent, stamp, closedStamp := [], [], [], [], [];
      searchId := 0;
      heap := new Heap();
    }

    /** The arrays have one length, and no stamp is ahead of the current id. */
    ghost predicate Valid()
      reads this
    {
      View().Sized(0)
    }

    /** A new search of n nodes: no slot is stamped, whatever was there before. */
    ghost predicate Fresh(n: nat)
      reads this, heap
    {
      && Valid() && n <= |stamp| && heap.entries == []
      && forall i :: 0 <= i < |stamp| ==> stamp[i] != searchId && closedStamp[i] != searchId
    }

    method Begin(need: nat)
      requires Valid()
      modifies this, heap
      ensures Fresh(need)
    {
      if |gScore| < need {
        var more := need - |gScore|;
        gScore := gScore + seq(more, _ => 0.0);
        fScore := fScore + seq(more, _ => 0.0);
        parent := parent + seq(more, _ => 0);
        stamp := stamp + seq(more, _ => 0);
        closedStamp := closedStamp + seq(more, _ => 0);
      }
      heap.entries := [];
      searchId := (searchId + 1) % ID_LIMIT;
      assert searchId != 0 ==> searchId == old(searchId) + 1;
      if searchId == 0 {
        ghost var size := |stamp|;
        for i := 0 to |stamp|
          invariant |stamp| == size
          invariant |gScore| == |fScore| == |parent| == |stamp| == |closedStamp| && need <= |stamp|
          invariant searchId == 0 && heap.entries == []
          invariant forall j :: 0 <= j < i ==> stamp[j] == 0 && closedStamp[j] == 0
        {
          stamp := stamp[i := 0];
          closedStamp := closedStamp[i := 0];
        }
        searchId := 1;
      }
    }

    /** Slots stamped for this search, as closed nodes, are exactly these. */
    ghost predicate ClosedFor(n: nat, skip: set<nat>)
      reads this
      requires n <= |closedStamp|
    {
      forall v :: 0 <= v < n ==> (closedStamp[v] == searchId <==> v in skip)
    }

    /** Closes the listed nodes for this search; ids that name no node are ignored. */
    method MarkSkipped(n: nat, ids: seq<int>)
      requires Fresh(n)
      modifies this`closedStamp
      ensures Valid() && n <= |stamp| && heap.entries == []
      ensures forall i :: 0 <= i < |stamp| ==> stamp[i] != searchId
      ensures ClosedFor(n, set v | 0 <= v < n && v in ids)
    {
      for k := 0 to |ids|
        invariant Valid() && n <= |stamp| && |closedStamp| == |stamp|
        invariant ClosedFor(n, set v | 0 <= v < n && v in ids[..k])
      {
        if 0 <= ids[k] < n {
          closedStamp := closedStamp[ids[k] := searchId];
        }
        assert ids[..k + 1] == ids[..k] + [ids[k]];
      }
      assert ids[..|ids|] == ids;
    }

    ghost function View(): Slots
      reads this
    {
      Slots(gScore, fScore, parent, stamp, closedStamp, searchId)
    }

    /** The scratch holds what the search `s` knows. */
    ghost predicate Mirrors(p: Problem, s: Frontier)
      reads this, heap
      requires WellFormed(p) && Ready(p, s)
    {
      Holds(View(), p, s) && heap.entries == s.heap
    }

    /** A better way to `next`, through `cur`. */
    method Store(next: nat, cur: nat, tentative: real, f: real)
      requires next < |gScore| == |fScore| == |parent| == |stamp|
      modifies this
      ensures View() == old(View()).Store(next, cur, tentative, f)
    {
      gScore := gScore[next := tentative];
      fScore := fScore[next := f];
      parent := parent[next := cur];
      stamp := stamp[next := searchId];
    }

    method TakeBetter(p: Problem, ghost s: Frontier, cur: nat, next: nat, tentative: real, best: nat, bestH: real)
      returns (newBest: nat, newBestH: real)
      requires WellFormed(p) && Ready(p, s) && Mirrors(p, s)
      requires cur in s.g && next < |p.nodes|
      requires best == s.best && bestH == H(p, best)
      modifies this, heap
      ensures Mirrors(p, Improve(p, s, cur, next, tentative))
      ensures newBest == Improve(p, s, cur, next, tentative).best && newBestH == H(p, newBest)
    {
      hide Holds;
      hide Improve;
      hide Ready;
      hide TargetsInRange;
      ghost var before := View();
      HoldsReads(before, p, s, next);
      StoreHolds(before, p, s, cur, next, tentative);
      ImproveEffect(p, s, cur, next, tentative);
      var h := p.metric(p.nodes[next].origin, p.nodes[p.goal].origin);
      var f := tentative + h * p.weight;
      assert f == Key(p, tentative, next);
      Store(next, cur, tentative, f);
      ghost var after := View();
      assert Holds(after, p, Improve(p, s, cur, next, tentative));
      newBest, newBestH := best, bestH;
      if h < bestH {
        newBestH := h;
        newBest := next;
      }
      heap.HeapPush(fScore[next], next);
      assert View() == after;
      assert heap.entries == Improve(p, s, cur, next, tentative).heap;
    }

    /** One edge of `cur`, in place. */
    method FollowEdge(p: Problem, ghost s: Frontier, cur: nat, e: Edge<real>, best: nat, bestH: real)
      returns (newBest: nat, newBestH: real)
      requires WellFormed(p) && Ready(p, s) && Mirrors(p, s)
      requires cur in s.g && e.to < |p.nodes|
      requires best == s.best && bestH == H(p, best)
      modifies this, heap
      ensures Mirrors(p, Relax(p, s, cur, e))
      ensures newBest == Relax(p, s, cur, e).best && newBestH == H(p, newBest)
    {
      hide Improve;
      hide Holds;
      hide TargetsInRange;
      newBest, newBestH := best, bestH;
      var next := e.to;
      HoldsReads(View(), p, s, next);
      HoldsReads(View(), p, s, cur);
      if Masked(e.ty, p.rules.edgeMask) || Masked(p.nodes[next].ty, p.rules.nodeMask) || closedStamp[next] == searchId {
        return;
      }
      var tentative := gScore[cur] + e.cost;
      if stamp[next] != searchId || tentative < gScore[next] {
        newBest, newBestH := TakeBetter(p, s, cur, next, tentative, best, bestH);
      }
    }

    /** All edges of the node just closed. */
    method FollowEdges(p: Problem, ghost s: Frontier, cur: nat, best: nat, bestH: real)
      returns (newBest: nat, newBestH: real)
      requires WellFormed(p) && Ready(p, s) && Mirrors(p, s)
      requires cur in s.g
      requires best == s.best && bestH == H(p, best)
      modifies this, heap
      ensures Mirrors(p, RelaxFrom(p, s, cur, 0))
      ensures newBest == RelaxFrom(p, s, cur, 0).best && newBestH == H(p, newBest)
    {
      hide Relax;
      hide Holds;
      newBest, newBestH := best, bestH;
      ghost var t := s;
      var i := 0;
      while i < |p.nodes[cur].edges|
        invariant 0 <= i <= |p.nodes[cur].edges|
        invariant Ready(p, t) && cur in t.g && Mirrors(p, t)
        invariant newBest == t.best && newBestH == H(p, newBest)
        invariant RelaxFrom(p, t, cur, i) == RelaxFrom(p, s, cur, 0)
      {
        newBest, newBestH := FollowEdge(p, t, cur, p.nodes[cur].edges[i], newBest, newBestH);
        t := Relax(p, t, cur, p.nodes[cur].edges[i]);
        i := i + 1;
      }
    }

    /**
     The parent links from `node` back to the start, listed from the start. The
     heap's storage is reused for the reversal, as the search is done with it.
     */
    method PushPath(p: Problem, ghost s: Frontier, node: nat) returns (path: seq<nat>)
      requires WellFormed(p) && Ready(p, s) && Tree(p, s) && node in s.g
      requires Holds(View(), p, s)
      modifies heap
      ensures path == Back(s, p.start, node, |p.nodes| + 1)
    {
      hide Holds;
      hide Tree;
      hide TargetsInRange;
      hide HeapKnown;
      hide Backward;
      hide Back;
      hide WellFormed;
      var safety := |p.nodes| + 1;
      var cur := node;
      var count := 0;
      heap.entries := [];
      BackwardNone();
      while count < safety
        invariant Holds(View(), p, s) && cur in s.g
        invariant count <= safety && |heap.entries| == count
        invariant Back(s, p.start, node, safety) == Back(s, p.start, cur, safety - count) + Backward(heap.entries)
      {
        ghost var before := heap.entries;
        heap.entries := heap.entries + [Entry(0.0, cur)];
        BackwardLast(before, Entry(0.0, cur));
        BackStep(s, p.start, cur, safety - count);
        count := count + 1;
        if cur == p.start {
          break;
        }
        HoldsReads(View(), p, s, cur);
        ParentKnown(p, s, cur);
        cur := parent[cur];
      }
      BackStep(s, p.start, cur, 0);
      path := Reversed();
    }

    method Reversed() returns (path: seq<nat>)
      ensures path == Backward(heap.entries)
    {
      var count := |heap.entries|;
      path := [];
      assert heap.entries[..count] == heap.entries;
      for i := 0 to count
        invariant path + Backward(heap.entries[..count - i]) == Backward(heap.entries)
      {
        ghost var left := heap.entries[..count - i];
        assert left[..|left| - 1] == heap.entries[..count - (i + 1)];
        path := path + [heap.entries[count - 1 - i].node];
      }
    }

    /** The start has score zero and is in the heap. */
    method Seed(p: Problem)
      requires WellFormed(p) && p.start != p.goal
      requires Valid() && |p.nodes| <= |stamp| && heap.entries == []
      requires forall i :: 0 <= i < |stamp| ==> stamp[i] != searchId
      requires ClosedFor(|p.nodes|, p.rules.skip)
      modifies this, heap
      ensures Mirrors(p, Search.Begin(p))
    {
      hide Holds;
      hide TargetsInRange;
      SeedHolds(View(), p);
      var bestH := p.metric(p.nodes[p.start].origin, p.nodes[p.goal].origin);
      var f := bestH * p.weight;
      assert f == Key(p, 0.0, p.start);
      Store(p.start, p.start, 0.0, f);
      heap.HeapPush(fScore[p.start], p.start);
    }

    /** The popped node is closed and, within the budget, its edges are followed. */
    method Expand(p: Problem, ghost s: Frontier, cur: nat, best: nat, bestH: real, expansions: nat)
      returns (ended: bool, newBest: nat, newBestH: real, ghost t: Frontier)
      requires WellFormed(p) && Ready(p, s) && s.heap != [] && !Stale(p, s) && cur == s.heap[0].node && cur != p.goal
      requires Mirrors(p, Pop(s)) && best == s.best && bestH == H(p, best) && expansions == s.expansions + 1
      modifies this, heap
      ensures Ready(p, t) && Holds(View(), p, t) && newBest == t.best && newBestH == H(p, newBest)
      ensures t.expansions == expansions
      ensures ended ==> Run(p, s) == Outcome(t, false)
      ensures !ended ==> Run(p, s) == Run(p, t) && heap.entries == t.heap && Unexpanded(p, t) < Unexpanded(p, s)
    {
      hide Holds;
      hide Run;
      hide RelaxFrom;
      hide TargetsInRange;
      ghost var closed := Close(Pop(s), cur);
      HoldsReads(View(), p, Pop(s), cur);
      CloseHolds(View(), p, Pop(s), cur);
      closedStamp := closedStamp[cur := searchId];
      if p.budget > 0 && expansions >= p.budget {
        BudgetTurn(p, s);
        return true, best, bestH, closed;
      }
      ExpandTurn(p, s);
      newBest, newBestH := FollowEdges(p, closed, cur, best, bestH);
      return false, newBest, newBestH, RelaxFrom(p, closed, cur, 0);
    }

    /** The search loop. */
    method Loop(p: Problem) returns (ghost o: Outcome, found: bool, best: nat)
      requires WellFormed(p) && Mirrors(p, Search.Begin(p))
      modifies this, heap
      ensures o == Run(p, Search.Begin(p)) && found == o.found
      ensures best == Last(p, o) && Holds(View(), p, o.state)
    {
      hide Holds;
      hide Run;
      hide TargetsInRange;
      ghost var s := Search.Begin(p);
      best := p.start;
      var bestH := H(p, p.start);
      var expansions := 0;
      while heap.entries != []
        invariant Ready(p, s) && Mirrors(p, s)
        invariant best == s.best && bestH == H(p, best) && expansions == s.expansions
        invariant Run(p, s) == Run(p, Search.Begin(p))
        decreases Unexpanded(p, s), |heap.entries|
      {
        var top := heap.HeapPop();
        var cur := top.node;
        HeadKnown(p, s);
        PopHolds(View(), p, s);
        HoldsReads(View(), p, s, cur);
        if top.f != fScore[cur] || closedStamp[cur] == searchId {
          StaleTurn(p, s);
          s := Pop(s);
        } else if cur == p.goal {
          GoalTurn(p, s);
          return Run(p, s), true, cur;
        } else {
          expansions := expansions + 1;
          var ended;
          ended, best, bestH, s := Expand(p, s, cur, best, bestH, expansions);
          if ended {
            return Outcome(s, false), false, best;
          }
        }
      }
      EmptyTurn(p, s);
      return Run(p, s), false, best;
    }

    /** graphFindPath's search: the ids from the start, full or partial. */
    method FindPath(p: Problem) returns (path: seq<nat>)
      requires WellFormed(p)
      requires Valid() && |p.nodes| <= |stamp| && heap.entries == []
      requires forall i :: 0 <= i < |stamp| ==> stamp[i] != searchId
      requires ClosedFor(|p.nodes|, p.rules.skip)
      modifies this, heap
      ensures Valid() && path == Solve(p)
    {
      if p.start == p.goal {
        return [p.start];
      }
      SearchEndsInTree(p);
      Seed(p);
      ghost var o;
      var found, last;
      o, found, last := Loop(p);
      hide Run;
      path := PushPath(p, o.state, last);
    }
  }
}
