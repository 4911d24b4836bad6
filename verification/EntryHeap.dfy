/**
 The binary min-heap of the search frontier (code/gsc_graph.cpp, 436-497).

 The sift functions are the specification: the class below runs the same steps
 in place, and the lemmas say what those steps are for: the heap order is kept,
 no entry is lost or invented, and a pop takes a least entry.
 */
module EntryHeap {

  /** A frontier entry: the key it was pushed with and the node it stands for. */
  datatype Entry = Entry(f: real, node: nat)

  function Parent(i: nat): nat
    requires i > 0
  {
    (i - 1) / 2
  }

  ghost predicate IsHeap(h: seq<Entry>) {
    forall i :: 0 < i < |h| ==> h[Parent(i)].f <= h[i].f
  }

  function Swap(h: seq<Entry>, i: nat, j: nat): (r: seq<Entry>)
    requires i < |h| && j < |h|
    ensures |r| == |h|
  {
    h[i := h[j]][j := h[i]]
  }

  function SiftUp(h: seq<Entry>, i: nat): (r: seq<Entry>)
    requires i < |h|
    ensures |r| == |h|
    decreases i
  {
    if i > 0 && h[Parent(i)].f > h[i].f
    then SiftUp(Swap(h, Parent(i), i), Parent(i))
    else h
  }

  /** The index of the least of slot i and its children; slot i wins ties, then the left child. */
  function Smallest(h: seq<Entry>, i: nat): (r: nat)
    requires i < |h|
    ensures r < |h|
    ensures r == i || (r > 0 && Parent(r) == i && h[r].f < h[i].f)
    ensures forall j :: 0 < j < |h| && Parent(j) == i ==> h[r].f <= h[j].f
  {
    var left := 2 * i + 1;
    var right := left + 1;
    var s := if left < |h| && h[left].f < h[i].f then left else i;
    if right < |h| && h[right].f < h[s].f then right else s
  }

  function SiftDown(h: seq<Entry>, i: nat): (r: seq<Entry>)
    requires i < |h|
    ensures |r| == |h|
    decreases |h| - i
  {
    var s := Smallest(h, i);
    if s == i then h else SiftDown(Swap(h, s, i), s)
  }

  lemma SwapPermutes(h: seq<Entry>, i: nat, j: nat)
    requires i < |h| && j < |h|
    ensures multiset(Swap(h, i, j)) == multiset(h)
  {
  }

  lemma {:induction false} SiftUpPermutes(h: seq<Entry>, i: nat)
    requires i < |h|
    ensures multiset(SiftUp(h, i)) == multiset(h)
    decreases i
  {
    if i > 0 && h[Parent(i)].f > h[i].f {
      SwapPermutes(h, Parent(i), i);
      SiftUpPermutes(Swap(h, Parent(i), i), Parent(i));
    }
  }

  lemma {:induction false} SiftDownPermutes(h: seq<Entry>, i: nat)
    requires i < |h|
    ensures multiset(SiftDown(h, i)) == multiset(h)
    decreases |h| - i
  {
    var s := Smallest(h, i);
    if s != i {
      SwapPermutes(h, s, i);
      SiftDownPermutes(Swap(h, s, i), s);
    }
  }

  function Push(h: seq<Entry>, e: Entry): (r: seq<Entry>)
    ensures multiset(r) == multiset(h) + multiset{e}
  {
    SiftUpPermutes(h + [e], |h|);
    SiftUp(h + [e], |h|)
  }

  /** The last entry moved to the root, the root gone. */
  function Shrink(h: seq<Entry>): (r: seq<Entry>)
    requires h != []
    ensures |r| == |h| - 1
  {
    h[0 := h[|h| - 1]][..|h| - 1]
  }

  lemma ShrinkDropsRoot(h: seq<Entry>)
    requires h != []
    ensures multiset(Shrink(h)) == multiset(h) - multiset{h[0]}
  {
    assert h == h[..|h| - 1] + [h[|h| - 1]];
    if |h| > 1 {
      assert h == [h[0]] + h[1..|h| - 1] + [h[|h| - 1]];
      assert Shrink(h) == [h[|h| - 1]] + h[1..|h| - 1];
    }
  }

  /** What is left after the root is taken. */
  function Rest(h: seq<Entry>): (r: seq<Entry>)
    requires h != []
    ensures |r| == |h| - 1
  {
    if |h| == 1 then [] else SiftDown(Shrink(h), 0)
  }

  /** A pop removes exactly the root. */
  lemma RestDropsRoot(h: seq<Entry>)
    requires h != []
    ensures multiset(Rest(h)) == multiset(h) - multiset{h[0]}
  {
    ShrinkDropsRoot(h);
    if |h| > 1 {
      SiftDownPermutes(Shrink(h), 0);
    }
  }

  lemma PushMembers(h: seq<Entry>, e: Entry)
    ensures forall x :: x in Push(h, e) <==> x in h || x == e
  {
    assert forall x :: x in Push(h, e) <==> x in multiset(Push(h, e));
  }

  lemma RestMembers(h: seq<Entry>)
    requires h != []
    ensures forall x :: x in Rest(h) ==> x in h
  {
    RestDropsRoot(h);
    assert forall x :: x in Rest(h) <==> x in multiset(Rest(h));
  }

  lemma {:induction false} SiftUpRestoresHeap(h: seq<Entry>, i: nat)
    requires i < |h|
    requires forall j :: 0 < j < |h| && j != i ==> h[Parent(j)].f <= h[j].f
    requires forall j :: 0 < j < |h| && i > 0 && Parent(j) == i ==> h[Parent(i)].f <= h[j].f
    ensures IsHeap(SiftUp(h, i)) && multiset(SiftUp(h, i)) == multiset(h)
    decreases i
  {
    SiftUpPermutes(h, i);
    if i > 0 && h[Parent(i)].f > h[i].f {
      SiftUpRestoresHeap(Swap(h, Parent(i), i), Parent(i));
    }
  }

  lemma {:induction false} SiftDownRestoresHeap(h: seq<Entry>, i: nat)
    requires i < |h|
    requires forall j :: 0 < j < |h| && Parent(j) != i ==> h[Parent(j)].f <= h[j].f
    requires forall j :: 0 < j < |h| && i > 0 && Parent(j) == i ==> h[Parent(i)].f <= h[j].f
    ensures IsHeap(SiftDown(h, i)) && multiset(SiftDown(h, i)) == multiset(h)
    decreases |h| - i
  {
    SiftDownPermutes(h, i);
    var s := Smallest(h, i);
    if s != i {
      SiftDownRestoresHeap(Swap(h, s, i), s);
    }
  }

  lemma {:induction false} RootIsLeast(h: seq<Entry>, i: nat)
    requires IsHeap(h) && i < |h|
    ensures h[0].f <= h[i].f
  {
    if i > 0 {
      RootIsLeast(h, Parent(i));
    }
  }

  /** A push keeps the heap order and adds exactly its entry. */
  lemma PushIsInsertion(h: seq<Entry>, e: Entry)
    requires IsHeap(h)
    ensures IsHeap(Push(h, e)) && multiset(Push(h, e)) == multiset(h) + multiset{e}
  {
    SiftUpRestoresHeap(h + [e], |h|);
  }

  /** A pop takes a least entry, and a heap of exactly the others remains. */
  lemma PopIsExtractMin(h: seq<Entry>)
    requires h != [] && IsHeap(h)
    ensures forall e :: e in h ==> h[0].f <= e.f
    ensures IsHeap(Rest(h)) && multiset(Rest(h)) == multiset(h) - multiset{h[0]}
  {
    RestDropsRoot(h);
    forall e | e in h ensures h[0].f <= e.f {
      var i :| 0 <= i < |h| && h[i] == e;
      RootIsLeast(h, i);
    }
    RestIsHeap(h);
  }

  lemma RestIsHeap(h: seq<Entry>)
    requires h != [] && IsHeap(h)
    ensures IsHeap(Rest(h))
  {
    if |h| > 1 {
      var moved := Shrink(h);
      forall j | 0 < j < |moved| && Parent(j) != 0 ensures moved[Parent(j)].f <= moved[j].f {
        assert h[Parent(j)].f <= h[j].f;
      }
      SiftDownRestoresHeap(moved, 0);
    }
  }

  /** The vector of entries, changed in place by the sift loops. */
  class Heap {
    var entries: seq<Entry>

    constructor ()
      ensures entries == []
    {
      entries := [];
    }

    method HeapSiftUp(start: nat)
      requires start < |entries|
      modifies this
      ensures entries == SiftUp(old(entries), start)
    {
      var i: nat := start;
      while i > 0
        invariant i < |entries|
        invariant SiftUp(entries, i) == SiftUp(old(entries), start)
      {
        var up := (i - 1) / 2;
        if entries[up].f <= entries[i].f {
          break;
        }
        entries := entries[up := entries[i]][i := entries[up]];
        i := up;
      }
    }

    method HeapSiftDown(start: nat)
      requires start < |entries|
      modifies this
      ensures entries == SiftDown(old(entries), start)
    {
      var i: nat := start;
      while true
        invariant i < |entries|
        invariant SiftDown(entries, i) == SiftDown(old(entries), start)
        decreases |entries| - i
      {
        var left := i * 2 + 1;
        var right := left + 1;
        var smallest := i;
        if left < |entries| && entries[left].f < entries[smallest].f {
          smallest := left;
        }
        if right < |entries| && entries[right].f < entries[smallest].f {
          smallest := right;
        }
        assert smallest == Smallest(entries, i);
        if smallest == i {
          break;
        }
        entries := entries[smallest := entries[i]][i := entries[smallest]];
        i := smallest;
      }
    }

    method HeapPush(f: real, node: nat)
      modifies this
      ensures entries == Push(old(entries), Entry(f, node))
    {
      entries := entries + [Entry(f, node)];
      HeapSiftUp(|entries| - 1);
    }

    method HeapPop() returns (top: Entry)
      requires entries != []
      modifies this
      ensures top == old(entries)[0]
      ensures entries == Rest(old(entries))
    {
      top := entries[0];
      entries := entries[0 := entries[|entries| - 1]];
      entries := entries[..|entries| - 1];
      if entries != [] {
        HeapSiftDown(0);
      }
    }
  }
}
