/**
 What every turn of the search loop keeps (code/gsc_graph.cpp, 779-836): a tree of real,
 allowed edges rooted at the start, a queue that holds every open node under its key,
 and, once a node is closed, nothing it leads to left unknown. And what the parent
 links of such a tree spell.
 */
module SearchTheorems {
  import opened EntryHeap
  import opened GraphTypes
  import opened Search

  // ---- what every turn of the loop keeps --------------------------------------

  /** v was reached by an allowed edge of its parent, at the score it carries. */
  ghost predicate Linked(p: Problem, s: Frontier, v: nat)
    requires WellFormed(p) && Ready(p, s) && v in s.g && s.parent[v] in s.g
  {
    exists i :: 0 <= i && Allowed(p.nodes, p.rules, s.parent[v], i)
      && p.nodes[s.parent[v]].edges[i].to == v
      && s.g[v] == s.g[s.parent[v]] + p.nodes[s.parent[v]].edges[i].cost
  }

  /** The start has score zero and is closed before anything else; no skipped node is. */
  ghost predicate Rooted(p: Problem, s: Frontier)
    requires WellFormed(p) && Ready(p, s)
  {
    && p.start in s.g && s.g[p.start] == 0.0
    && (p.start in s.closed || forall v :: v in s.g ==> v == p.start)
    && forall v :: v in s.closed ==> v !in p.rules.skip && s.closed[v] < s.expansions
  }

  /** v was reached through a closed parent and is not filtered. */
  ghost predicate Reached(p: Problem, s: Frontier, v: nat)
    requires WellFormed(p) && Ready(p, s) && v in s.g
  {
    s.parent[v] in s.closed && Linked(p, s, v) && v !in p.rules.skip && !Masked(p.nodes[v].ty, p.rules.nodeMask)
  }

  ghost predicate AllReached(p: Problem, s: Frontier)
    requires WellFormed(p) && Ready(p, s)
  {
    forall v {:trigger Reached(p, s, v)} :: v in s.g && v != p.start ==> Reached(p, s, v)
  }

  /** The parent of v was closed before v. */
  ghost predicate EarlierParent(s: Frontier, v: nat)
    requires v in s.closed && v < |s.parent|
  {
    s.parent[v] in s.closed && s.closed[s.parent[v]] < s.closed[v]
  }

  ghost predicate ParentsFirst(p: Problem, s: Frontier)
    requires WellFormed(p) && Ready(p, s)
  {
    forall v {:trigger EarlierParent(s, v)} :: v in s.closed && v != p.start ==> EarlierParent(s, v)
  }

  ghost predicate BestIsClosest(p: Problem, s: Frontier)
    requires WellFormed(p) && Ready(p, s)
  {
    forall v :: v in s.g ==> H(p, s.best) <= H(p, v)
  }

  /** The parent links form a tree rooted at the start, in closing order. */
  ghost predicate Tree(p: Problem, s: Frontier)
    requires WellFormed(p)
  {
    Ready(p, s) && Rooted(p, s) && AllReached(p, s) && ParentsFirst(p, s) && BestIsClosest(p, s)
  }

  /** Edge i of u has been followed: its end is known, and no dearer than through u. */
  ghost predicate Followed(p: Problem, s: Frontier, u: nat, i: nat)
    requires WellFormed(p) && Ready(p, s) && u in s.g
  {
    Allowed(p.nodes, p.rules, u, i) ==>
      var v := p.nodes[u].edges[i].to;
      v in s.g && (v in s.closed || s.g[v] <= s.g[u] + p.nodes[u].edges[i].cost)
  }

  /** Every closed node's edges have been followed, those of `cur` only up to the k-th. */
  ghost predicate FollowedUpTo(p: Problem, s: Frontier, cur: nat, k: nat)
    requires WellFormed(p) && Ready(p, s)
  {
    forall u, i {:trigger Followed(p, s, u, i)} :: u in s.closed && 0 <= i && (u == cur ==> i < k) ==>
        Followed(p, s, u, i)
  }

  /** Every open node is in the heap under its current key. */
  ghost predicate Queued(p: Problem, s: Frontier)
    requires WellFormed(p) && Ready(p, s)
  {
    && IsHeap(s.heap)
    && forall v :: v in s.g && !Closed(p, s, v) ==> Entry(F(p, s, v), v) in s.heap
  }

  ghost predicate AllFollowed(p: Problem, s: Frontier)
    requires WellFormed(p) && Ready(p, s)
  {
    forall u, i {:trigger Followed(p, s, u, i)} :: u in s.closed && 0 <= i ==> Followed(p, s, u, i)
  }

  ghost predicate Invariant(p: Problem, s: Frontier)
    requires WellFormed(p)
  {
    Tree(p, s) && Queued(p, s) && AllFollowed(p, s)
  }

  lemma BeginInvariant(p: Problem)
    requires WellFormed(p)
    ensures Invariant(p, Begin(p))
  {
    var s := Begin(p);
    PushIsInsertion([], Entry(Key(p, 0.0, p.start), p.start));
    PushMembers([], Entry(Key(p, 0.0, p.start), p.start));
    assert forall v :: v in s.g ==> v == p.start;
    assert Rooted(p, s);
    assert AllReached(p, s);
  }

  /** The fields an improvement changes. */
  lemma ImproveEffect(p: Problem, s: Frontier, cur: nat, next: nat, tentative: real)
    requires WellFormed(p) && Ready(p, s) && cur in s.g && next < |p.nodes|
    ensures var r := Improve(p, s, cur, next, tentative);
            && r.g == s.g[next := tentative] && r.parent == s.parent[next := cur] && r.closed == s.closed
                && r.expansions == s.expansions
            && r.heap == Push(s.heap, Entry(Key(p, tentative, next), next))
            && r.best == if H(p, next) < H(p, s.best) then next else s.best
  {
  }

  /** A node the search may improve is not closed, so no parent link and no closed score changes. */
  lemma ImproveKeepsReached(p: Problem, s: Frontier, cur: nat, k: nat)
    requires WellFormed(p) && Tree(p, s)
    requires cur in s.closed && Allowed(p.nodes, p.rules, cur, k)
    requires !Closed(p, s, p.nodes[cur].edges[k].to)
    ensures var e := p.nodes[cur].edges[k]; AllReached(p, Improve(p, s, cur, e.to, s.g[cur] + e.cost))
  {
    hide Improve;
    var e := p.nodes[cur].edges[k];
    var next := e.to;
    var r := Improve(p, s, cur, next, s.g[cur] + e.cost);
    ImproveEffect(p, s, cur, next, s.g[cur] + e.cost);
    forall v {:trigger Reached(p, r, v)} | v in r.g && v != p.start ensures Reached(p, r, v) {
      if v == next {
        assert Allowed(p.nodes, p.rules, r.parent[v], k);
      } else {
        assert Reached(p, s, v);
      }
    }
  }

  lemma ImproveKeepsTree(p: Problem, s: Frontier, cur: nat, k: nat)
    requires WellFormed(p) && Tree(p, s)
    requires cur in s.closed && Allowed(p.nodes, p.rules, cur, k)
    requires !Closed(p, s, p.nodes[cur].edges[k].to)
    ensures var e := p.nodes[cur].edges[k]; Tree(p, Improve(p, s, cur, e.to, s.g[cur] + e.cost))
  {
    hide Improve;
    var e := p.nodes[cur].edges[k];
    var next := e.to;
    var r := Improve(p, s, cur, next, s.g[cur] + e.cost);
    ImproveKeepsReached(p, s, cur, k);
    ImproveEffect(p, s, cur, next, s.g[cur] + e.cost);
    assert Rooted(p, r);
    forall v {:trigger EarlierParent(r, v)} | v in r.closed && v != p.start ensures EarlierParent(r, v) {
      assert EarlierParent(s, v);
    }
    assert BestIsClosest(p, r);
  }

  lemma ImproveKeepsQueued(p: Problem, s: Frontier, cur: nat, next: nat, tentative: real)
    requires WellFormed(p) && Ready(p, s) && Queued(p, s)
    requires cur in s.g && next < |p.nodes|
    ensures Queued(p, Improve(p, s, cur, next, tentative))
  {
    var e := Entry(Key(p, tentative, next), next);
    var r := Improve(p, s, cur, next, tentative);
    PushIsInsertion(s.heap, e);
    PushMembers(s.heap, e);
    forall v | v in r.g && !Closed(p, r, v) ensures Entry(F(p, r, v), v) in r.heap {
      if v != next {
        assert !Closed(p, s, v);
      }
    }
  }

  lemma ImproveFollows(p: Problem, s: Frontier, cur: nat, k: nat)
    requires WellFormed(p) && Ready(p, s) && FollowedUpTo(p, s, cur, k)
    requires cur in s.closed && Allowed(p.nodes, p.rules, cur, k)
    requires var e := p.nodes[cur].edges[k]; !Closed(p, s, e.to) && (e.to in s.g ==> s.g[cur] + e.cost < s.g[e.to])
    ensures var e := p.nodes[cur].edges[k]; FollowedUpTo(p, Improve(p, s, cur, e.to, s.g[cur] + e.cost), cur, k + 1)
  {
    hide Improve;
    var e := p.nodes[cur].edges[k];
    var r := Improve(p, s, cur, e.to, s.g[cur] + e.cost);
    ImproveEffect(p, s, cur, e.to, s.g[cur] + e.cost);
    forall u, i {:trigger Followed(p, r, u, i)} | u in r.closed && 0 <= i && (u == cur ==> i < k + 1)
      ensures Followed(p, r, u, i) {
      if !(u == cur && i == k) {
        assert Followed(p, s, u, i);
      }
    }
  }

  lemma TreeIsReady(p: Problem, s: Frontier)
    requires WellFormed(p) && Tree(p, s)
    ensures Ready(p, s)
  {
  }

  lemma RelaxKeeps(p: Problem, s: Frontier, cur: nat, k: nat)
    requires WellFormed(p) && Tree(p, s) && Queued(p, s)
    requires cur in s.closed && k < |p.nodes[cur].edges| && FollowedUpTo(p, s, cur, k)
    ensures var r := Relax(p, s, cur, p.nodes[cur].edges[k]);
            Tree(p, r) && Queued(p, r) && FollowedUpTo(p, r, cur, k + 1)
  {
    hide Improve;
    hide Queued;
    hide Tree;
    TreeIsReady(p, s);
    var e := p.nodes[cur].edges[k];
    if Allowed(p.nodes, p.rules, cur, k) && !Closed(p, s, e.to) && (e.to in s.g ==> s.g[cur] + e.cost < s.g[e.to]) {
      ImproveKeepsTree(p, s, cur, k);
      ImproveKeepsQueued(p, s, cur, e.to, s.g[cur] + e.cost);
      ImproveFollows(p, s, cur, k);
      assert Relax(p, s, cur, e) == Improve(p, s, cur, e.to, s.g[cur] + e.cost);
    } else {
      assert Relax(p, s, cur, e) == s;
      assert Followed(p, s, cur, k);
    }
  }

  /** A list followed to its end is followed altogether. */
  lemma EndOfList(p: Problem, s: Frontier, cur: nat)
    requires WellFormed(p) && Ready(p, s) && cur in s.closed
    requires FollowedUpTo(p, s, cur, |p.nodes[cur].edges|)
    ensures AllFollowed(p, s)
  {
    forall u, i {:trigger Followed(p, s, u, i)} | u in s.closed && 0 <= i ensures Followed(p, s, u, i) {
      assert u == cur && i >= |p.nodes[cur].edges| ==> !Allowed(p.nodes, p.rules, u, i);
    }
  }

  lemma {:induction false} RelaxFromKeeps(p: Problem, s: Frontier, cur: nat, k: nat)
    requires WellFormed(p) && Tree(p, s) && Queued(p, s)
    requires cur in s.closed && k <= |p.nodes[cur].edges| && FollowedUpTo(p, s, cur, k)
    ensures Invariant(p, RelaxFrom(p, s, cur, k))
    decreases |p.nodes[cur].edges| - k
  {
    hide Relax;
    hide Queued;
    if k == |p.nodes[cur].edges| {
      EndOfList(p, s, cur);
    } else {
      RelaxKeeps(p, s, cur, k);
      RelaxFromKeeps(p, Relax(p, s, cur, p.nodes[cur].edges[k]), cur, k + 1);
    }
  }

  /** Popping disturbs the tree in no way. */
  lemma PopKeepsTree(p: Problem, s: Frontier)
    requires WellFormed(p) && Tree(p, s) && s.heap != []
    ensures Tree(p, Pop(s))
  {
    var r := Pop(s);
    forall v {:trigger Reached(p, r, v)} | v in r.g && v != p.start
      ensures Reached(p, r, v) { assert Reached(p, s, v) && Linked(p, s, v); }
    forall v {:trigger EarlierParent(r, v)} | v in r.closed && v != p.start
      ensures EarlierParent(r, v) { assert EarlierParent(s, v); }
  }

  /** Every open node other than the popped one keeps its entry; so does the popped one if its entry was stale. */
  lemma PopKeepsQueued(p: Problem, s: Frontier)
    requires WellFormed(p) && Ready(p, s) && Queued(p, s) && s.heap != []
    ensures IsHeap(Pop(s).heap)
    ensures forall v :: v in s.g && !Closed(p, s, v) && Entry(F(p, s, v), v) != s.heap[0] ==>
      Entry(F(p, s, v), v) in Pop(s).heap
  {
    PopIsExtractMin(s.heap);
    RestDropsRoot(s.heap);
    forall v | v in s.g && !Closed(p, s, v) && Entry(F(p, s, v), v) != s.heap[0]
      ensures Entry(F(p, s, v), v) in Pop(s).heap
    {
      assert Entry(F(p, s, v), v) in multiset(s.heap) - multiset{s.heap[0]};
    }
  }

  lemma StalePopKeeps(p: Problem, s: Frontier)
    requires WellFormed(p) && Invariant(p, s) && s.heap != [] && Stale(p, s)
    ensures Invariant(p, Pop(s))
  {
    var r := Pop(s);
    PopKeepsTree(p, s);
    PopKeepsQueued(p, s);
    forall v | v in r.g && !Closed(p, r, v) ensures Entry(F(p, r, v), v) in r.heap {
      assert !Closed(p, s, v) && F(p, r, v) == F(p, s, v);
    }
    forall u, i {:trigger Followed(p, r, u, i)} | u in r.closed && 0 <= i
      ensures Followed(p, r, u, i) { assert Followed(p, s, u, i); }
  }

  /** Closing a popped node: the tree grows by it. */
  lemma CloseKeepsTree(p: Problem, s: Frontier, cur: nat)
    requires WellFormed(p) && Tree(p, s) && cur in s.g && !Closed(p, s, cur)
    ensures Tree(p, Close(s, cur))
  {
    var r := Close(s, cur);
    assert Rooted(p, r);
    forall v {:trigger Reached(p, r, v)} | v in r.g && v != p.start
      ensures Reached(p, r, v) { assert Reached(p, s, v) && Linked(p, s, v); }
    forall v {:trigger EarlierParent(r, v)} | v in r.closed && v != p.start ensures EarlierParent(r, v) {
      assert if v == cur then Reached(p, s, v) else EarlierParent(s, v);
    }
  }

  /** Its edges are still to be followed, and it no longer needs an entry. */
  lemma CloseKeeps(p: Problem, s: Frontier)
    requires WellFormed(p) && Invariant(p, s) && s.heap != [] && !Stale(p, s)
    ensures var r := Close(Pop(s), s.heap[0].node);
            Tree(p, r) && Queued(p, r) && FollowedUpTo(p, r, s.heap[0].node, 0)
  {
    var cur := s.heap[0].node;
    var r := Close(Pop(s), cur);
    PopKeepsTree(p, s);
    CloseKeepsTree(p, Pop(s), cur);
    PopKeepsQueued(p, s);
    forall v | v in r.g && !Closed(p, r, v) ensures Entry(F(p, r, v), v) in r.heap {
      assert !Closed(p, s, v) && F(p, r, v) == F(p, s, v);
    }
    forall u, i {:trigger Followed(p, r, u, i)} | u in r.closed && 0 <= i && (u == cur ==> i < 0)
      ensures Followed(p, r, u, i) {
      assert Followed(p, s, u, i);
    }
  }

  lemma AdvanceKeeps(p: Problem, s: Frontier)
    requires WellFormed(p) && Invariant(p, s)
    ensures Advance(p, s).More? ==> Invariant(p, Advance(p, s).state)
    ensures Advance(p, s).Done? ==> Tree(p, Advance(p, s).outcome.state)
  {
    if s.heap != [] {
      if Stale(p, s) {
        StalePopKeeps(p, s);
      } else {
        PopKeepsTree(p, s);
        CloseKeeps(p, s);
        var cur := s.heap[0].node;
        var closed := Close(Pop(s), cur);
        if cur != p.goal && !OutOfBudget(p, closed) {
          RelaxFromKeeps(p, closed, cur, 0);
        }
      }
    }
  }

  // ---- the returned path ------------------------------------------------------

  /** No more nodes are closed than there are. */
  ghost predicate Counted(p: Problem, s: Frontier) {
    |s.closed.Keys| == s.expansions && forall v :: v in s.closed ==> v < |p.nodes|
  }

  /** v's parent links run through closed nodes only, each closed before the one it leads to. */
  ghost predicate ClosedBelow(s: Frontier, v: nat, bound: nat) {
    if v in s.closed then s.closed[v] <= bound else s.expansions <= bound
  }

  lemma StepBack(p: Problem, s: Frontier, v: nat, bound: nat)
    requires WellFormed(p) && Tree(p, s) && v in s.g && v != p.start && ClosedBelow(s, v, bound)
    ensures s.parent[v] in s.closed && s.closed[s.parent[v]] < bound
    ensures v in s.closed ==> s.closed[s.parent[v]] < s.closed[v]
  {
    assert Reached(p, s, v);
    assert v in s.closed ==> EarlierParent(s, v);
  }

  lemma {:induction false} BackIsSimple(p: Problem, s: Frontier, v: nat, bound: nat, fuel: nat)
    requires WellFormed(p) && Tree(p, s) && v in s.g && ClosedBelow(s, v, bound) && fuel > bound
    ensures Simple(Back(s, p.start, v, fuel))
    ensures forall x :: x in Back(s, p.start, v, fuel) ==>
        x == v || (x in s.closed && s.closed[x] < bound && (v in s.closed ==> s.closed[x] < s.closed[v]))
    decreases bound
  {
    if v != p.start {
      StepBack(p, s, v, bound);
      BackIsSimple(p, s, s.parent[v], s.closed[s.parent[v]], fuel - 1);
    }
  }

  /** They spell a walk from the start whose cost is v's score. */
  lemma {:induction false} BackIsWalk(p: Problem, s: Frontier, v: nat, bound: nat, fuel: nat) returns (steps: seq<Step>)
    requires WellFormed(p) && Tree(p, s) && v in s.g && ClosedBelow(s, v, bound) && fuel > bound
    ensures IsWalk(p.nodes, p.rules, p.start, steps, v)
    ensures Visits(p.nodes, p.rules, p.start, steps, v) == Back(s, p.start, v, fuel)
    ensures WalkCost(p.nodes, p.rules, p.start, steps, v) == s.g[v]
    decreases bound
  {
    if v == p.start {
      steps := [];
    } else {
      StepBack(p, s, v, bound);
      var u := s.parent[v];
      steps := BackIsWalk(p, s, u, s.closed[u], fuel - 1);
      assert Reached(p, s, v);
      var i :| 0 <= i && Allowed(p.nodes, p.rules, u, i) && p.nodes[u].edges[i].to == v
               && s.g[v] == s.g[u] + p.nodes[u].edges[i].cost;
      ExtendWalk(p.nodes, p.rules, p.start, steps, u, i);
      steps := steps + [Step(u, i)];
    }
  }
}
