/**
 The dry run of the engine's string allocator (code/gsc_json.cpp, 252-261, 328-349):
 blocks of 2^0 to 2^16 nodes, best fit, the rest of a split block stays free.

 Taking the requests one by one succeeds exactly when a sum over each size class says
 so, so the order of the requests does not matter.
 */
module StringMemory {
  import JsonKeys

  const MT_SIZES: nat := 17

  /** How many blocks of each size are free. */
  type Blocks = b: seq<nat> | |b| == MT_SIZES witness [0, 0, 0, 0, 0, 0, 0, 0, 0, 0, 0, 0, 0, 0, 0, 0, 0]

  /** A request is for one block of 2^size nodes. */
  type Request = s: nat | s < MT_SIZES

  function Pow2(k: nat): (r: nat)
    ensures r > 0
  {
    if k == 0 then 1 else 2 * Pow2(k - 1)
  }

  // ---- block size of a string --------------------------------------------------

  function NodesFor(len: nat): nat {
    (len + 1 + 4 + 7) / 8
  }

  /** The least size from s on with at least that many nodes. */
  function SizeFrom(nodes: nat, s: nat): (size: nat)
    ensures size >= s && Pow2(size) >= nodes
    ensures forall k: nat :: s <= k < size ==> Pow2(k) < nodes
    decreases nodes - Pow2(s)
  {
    if Pow2(s) >= nodes then s else SizeFrom(nodes, s + 1)
  }

  /** The least block that holds a string with its header and terminator. */
  function BlockSize(len: nat): (size: nat)
    ensures 8 * Pow2(size) >= len + 1 + 4
    ensures forall s: nat :: s < size ==> 8 * Pow2(s) < len + 1 + 4
    ensures len < JsonKeys.MAX_STRING ==> size < MT_SIZES
  {
    var size := SizeFrom(NodesFor(len), 0);
    assert Pow2(13) == 8192;
    size
  }

  method MtSize(len: nat) returns (size: nat)
    ensures size == BlockSize(len)
  {
    var nodes := NodesFor(len);
    size := 0;
    while Pow2(size) < nodes
      invariant SizeFrom(nodes, 0) == SizeFrom(nodes, size)
      decreases nodes - Pow2(size)
    {
      size := size + 1;
    }
  }

  // ---- the allocator ------------------------------------------------------------

  datatype Placed = NoRoom | Placed(blocks: Blocks)

  /** The least size from `size` on with a free block, or MT_SIZES. */
  function FirstFree(blocks: Blocks, size: nat): (t: nat)
    requires size <= MT_SIZES
    ensures size <= t <= MT_SIZES
    ensures forall j :: size <= j < t ==> blocks[j] == 0
    ensures t < MT_SIZES ==> blocks[t] > 0
    decreases MT_SIZES - size
  {
    if size == MT_SIZES || blocks[size] > 0 then size else FirstFree(blocks, size + 1)
  }

  /** The halves of a block of size t that are left when a block of `size` is cut off. */
  function Split(blocks: Blocks, size: nat, t: nat): (r: Blocks)
    requires size <= t < MT_SIZES
    requires blocks[t] > 0
    ensures forall j :: 0 <= j < MT_SIZES ==>
      r[j] == if size <= j < t then blocks[j] + 1 else if j == t then blocks[j] - 1 else blocks[j]
  {
    seq(MT_SIZES, j requires 0 <= j < MT_SIZES =>
      if size <= j < t then blocks[j] + 1 else if j == t then blocks[j] - 1 else blocks[j])
  }

  function Take(blocks: Blocks, size: Request): Placed {
    var t := FirstFree(blocks, size);
    if t == MT_SIZES then NoRoom else Placed(Split(blocks, size, t))
  }

  function TakeAll(blocks: Blocks, sizes: seq<Request>): Placed
    decreases |sizes|
  {
    if sizes == [] then Placed(blocks)
    else
      var one := Take(blocks, sizes[0]);
      if one.NoRoom? then NoRoom else TakeAll(one.blocks, sizes[1..])
  }

  /** Free nodes in blocks of at least 2^k. */
  function FreeNodes(blocks: Blocks, k: nat): nat
    requires k <= MT_SIZES
    decreases MT_SIZES - k
  {
    if k == MT_SIZES then 0 else blocks[k] * Pow2(k) + FreeNodes(blocks, k + 1)
  }

  /** Nodes asked for in blocks of at least 2^k. */
  function AskedNodes(sizes: seq<Request>, k: nat): nat
    decreases |sizes|
  {
    if sizes == [] then 0 else (if sizes[0] >= k then Pow2(sizes[0]) else 0) + AskedNodes(sizes[1..], k)
  }

  ghost predicate ClassFits(blocks: Blocks, sizes: seq<Request>, k: nat)
    requires k < MT_SIZES
  {
    AskedNodes(sizes, k) <= FreeNodes(blocks, k)
  }

  /** In every size class the requests at least that large are covered by the blocks at least that large. */
  ghost predicate Covered(blocks: Blocks, sizes: seq<Request>) {
    forall k {:trigger ClassFits(blocks, sizes, k)} :: 0 <= k < MT_SIZES ==> ClassFits(blocks, sizes, k)
  }

  /** What json_mt_fits decides. */
  ghost predicate Fits(blocks: Blocks, sizes: seq<Request>, reserve: int) {
    Covered(blocks, sizes) && FreeNodes(blocks, 0) - AskedNodes(sizes, 0) >= reserve
  }

  // ---- the same sums in units of 2^k ------------------------------------------------

  function Units(blocks: Blocks, k: nat): nat
    requires k <= MT_SIZES
    decreases MT_SIZES - k
  {
    if k == MT_SIZES then 0 else blocks[k] + 2 * Units(blocks, k + 1)
  }

  function Asked(sizes: seq<Request>, k: nat): nat
    decreases |sizes|
  {
    if sizes == [] then 0 else (if sizes[0] >= k then Pow2(sizes[0] - k) else 0) + Asked(sizes[1..], k)
  }

  function Count(sizes: seq<Request>, k: nat): nat
    decreases |sizes|
  {
    if sizes == [] then 0 else (if sizes[0] == k then 1 else 0) + Count(sizes[1..], k)
  }

  lemma TwoPerUnit(p: nat, b: nat, u: nat)
    ensures p * (b + 2 * u) == b * p + (2 * p) * u
  {
    assert p * (b + 2 * u) == p * b + p * (2 * u);
  }

  lemma Spread(p: nat, a: nat, b: nat)
    ensures p * (a + b) == a * p + p * b
  {
  }

  lemma {:induction false} UnitsAreNodes(blocks: Blocks, k: nat)
    requires k <= MT_SIZES
    ensures FreeNodes(blocks, k) == Pow2(k) * Units(blocks, k)
    decreases MT_SIZES - k
  {
    if k < MT_SIZES {
      UnitsAreNodes(blocks, k + 1);
      TwoPerUnit(Pow2(k), blocks[k], Units(blocks, k + 1));
    }
  }

  lemma {:induction false} Pow2Adds(a: nat, b: nat)
    ensures Pow2(a + b) == Pow2(a) * Pow2(b)
  {
    if a > 0 {
      Pow2Adds(a - 1, b);
    }
  }

  lemma {:induction false} AskedAreNodes(sizes: seq<Request>, k: nat)
    ensures AskedNodes(sizes, k) == Pow2(k) * Asked(sizes, k)
    decreases |sizes|
  {
    if sizes != [] {
      AskedAreNodes(sizes[1..], k);
      if sizes[0] >= k {
        Pow2Adds(sizes[0] - k, k);
        OneMoreAsked(sizes, k);
      }
    }
  }

  lemma OneMoreAsked(sizes: seq<Request>, k: nat)
    requires sizes != [] && sizes[0] >= k
    requires Pow2(sizes[0]) == Pow2(sizes[0] - k) * Pow2(k)
    requires AskedNodes(sizes[1..], k) == Pow2(k) * Asked(sizes[1..], k)
    ensures AskedNodes(sizes, k) == Pow2(k) * Asked(sizes, k)
  {
    hide Pow2;
    Spread(Pow2(k), Pow2(sizes[0] - k), Asked(sizes[1..], k));
  }

  lemma ClassFitsInUnits(blocks: Blocks, sizes: seq<Request>, k: nat)
    requires k < MT_SIZES
    ensures ClassFits(blocks, sizes, k) <==> Asked(sizes, k) <= Units(blocks, k)
  {
    UnitsAreNodes(blocks, k);
    AskedAreNodes(sizes, k);
    Scaled(Pow2(k), Asked(sizes, k), Units(blocks, k));
  }

  lemma Scaled(f: nat, a: nat, b: nat)
    requires f > 0
    ensures f * a <= f * b <==> a <= b
  {
    if a <= b {
      assert f * (b - a) >= 0;
    } else {
      assert f * (a - b) > 0;
    }
  }

  lemma {:induction false} AskedHalves(sizes: seq<Request>, k: nat)
    ensures Asked(sizes, k) == Count(sizes, k) + 2 * Asked(sizes, k + 1)
    decreases |sizes|
  {
    if sizes != [] {
      AskedHalves(sizes[1..], k);
    }
  }

  // ---- one request -------------------------------------------------------------------

  /** Above the block that is cut nothing changes, down to the request one unit is gone, below it the request. */
  lemma {:induction false} SplitUnits(blocks: Blocks, size: nat, t: nat, k: nat)
    requires size <= t < MT_SIZES && blocks[t] > 0 && k <= MT_SIZES
    ensures var r := Split(blocks, size, t);
            Units(r, k) == if k > t then Units(blocks, k)
                           else if k > size then Units(blocks, k) - 1
                           else Units(blocks, k) - Pow2(size - k)
    decreases MT_SIZES - k
  {
    hide Split;
    hide Units;
    hide Pow2;
    if k < MT_SIZES {
      SplitUnits(blocks, size, t, k + 1);
      NextUnits(Split(blocks, size, t), k);
      NextUnits(blocks, k);
      NextPower(if k < size then size - k else 1);
    } else {
      NoUnits(Split(blocks, size, t));
      NoUnits(blocks);
    }
  }

  lemma NextUnits(blocks: Blocks, k: nat)
    requires k < MT_SIZES
    ensures Units(blocks, k) == blocks[k] + 2 * Units(blocks, k + 1)
  {
  }

  lemma NoUnits(blocks: Blocks)
    ensures Units(blocks, MT_SIZES) == 0
  {
  }

  lemma NextPower(k: nat)
    requires k > 0
    ensures Pow2(k) == 2 * Pow2(k - 1) && Pow2(0) == 1
  {
  }

  /** Between a request that fits its class and the block it is cut from, every class has a unit to spare. */
  lemma {:induction false} UnitToSpare(blocks: Blocks, sizes: seq<Request>, size: nat, t: nat, k: nat)
    requires size < k <= t < MT_SIZES
    requires forall j :: size <= j < t ==> blocks[j] == 0
    requires Count(sizes, size) > 0
    requires Asked(sizes, size) <= Units(blocks, size)
    ensures Asked(sizes, k) < Units(blocks, k)
    decreases k
  {
    AskedHalves(sizes, k - 1);
    if k - 1 > size {
      UnitToSpare(blocks, sizes, size, t, k - 1);
    }
  }

  ghost predicate UnitsCover(blocks: Blocks, sizes: seq<Request>, k: nat)
    requires k < MT_SIZES
  {
    Asked(sizes, k) <= Units(blocks, k)
  }

  lemma {:induction false} NothingFree(blocks: Blocks, k: nat)
    requires k <= MT_SIZES && forall j :: k <= j < MT_SIZES ==> blocks[j] == 0
    ensures Units(blocks, k) == 0
    decreases MT_SIZES - k
  {
    if k < MT_SIZES {
      NothingFree(blocks, k + 1);
    }
  }

  /** Taking the first request leaves the others covered exactly when all were covered. */
  lemma OneTaken(blocks: Blocks, sizes: seq<Request>, k: nat)
    requires sizes != [] && k < MT_SIZES && Take(blocks, sizes[0]).Placed?
    requires UnitsCover(blocks, sizes, sizes[0])
    ensures UnitsCover(blocks, sizes, k) <==> UnitsCover(Take(blocks, sizes[0]).blocks, sizes[1..], k)
  {
    hide Units;
    hide Asked;
    hide Count;
    hide Pow2;
    var size, t := sizes[0], FirstFree(blocks, sizes[0]);
    SplitUnits(blocks, size, t, k);
    FirstAsked(sizes, k);
    if size < k <= t {
      UnitToSpare(blocks, sizes, size, t, k);
    }
  }

  lemma FirstAsked(sizes: seq<Request>, k: nat)
    requires sizes != []
    ensures Asked(sizes, k) == (if sizes[0] >= k then Pow2(sizes[0] - k) else 0) + Asked(sizes[1..], k)
    ensures Count(sizes, sizes[0]) > 0
  {
    hide Pow2;
  }

  lemma OneTakenBack(blocks: Blocks, sizes: seq<Request>, k: nat)
    requires sizes != [] && k < MT_SIZES && Take(blocks, sizes[0]).Placed?
    requires UnitsCover(Take(blocks, sizes[0]).blocks, sizes[1..], k)
    ensures UnitsCover(blocks, sizes, k)
  {
    SplitUnits(blocks, sizes[0], FirstFree(blocks, sizes[0]), k);
  }

  lemma CoveredFirstIsPlaced(blocks: Blocks, sizes: seq<Request>)
    requires sizes != [] && UnitsCover(blocks, sizes, sizes[0])
    ensures Take(blocks, sizes[0]).Placed?
  {
    if FirstFree(blocks, sizes[0]) == MT_SIZES {
      NothingFree(blocks, sizes[0]);
    }
  }

  // ---- all requests ------------------------------------------------------------------

  ghost predicate AllCover(blocks: Blocks, sizes: seq<Request>) {
    forall k {:trigger UnitsCover(blocks, sizes, k)} :: 0 <= k < MT_SIZES ==> UnitsCover(blocks, sizes, k)
  }

  lemma {:induction false} TakeAllExactly(blocks: Blocks, sizes: seq<Request>)
    ensures TakeAll(blocks, sizes).Placed? <==> AllCover(blocks, sizes)
    ensures TakeAll(blocks, sizes).Placed? ==>
      Units(TakeAll(blocks, sizes).blocks, 0) == Units(blocks, 0) - Asked(sizes, 0)
    decreases |sizes|
  {
    hide Take;
    hide UnitsCover;
    if sizes == [] {
      NoRequests(blocks);
    } else {
      var one := Take(blocks, sizes[0]);
      if AllCover(blocks, sizes) {
        assert UnitsCover(blocks, sizes, sizes[0]);
        CoveredFirstIsPlaced(blocks, sizes);
        forall k {:trigger UnitsCover(one.blocks, sizes[1..], k)} | 0 <= k < MT_SIZES
          ensures UnitsCover(one.blocks, sizes[1..], k) {
          assert UnitsCover(blocks, sizes, k);
          OneTaken(blocks, sizes, k);
        }
      }
      if one.Placed? {
        TakeAllExactly(one.blocks, sizes[1..]);
        TakenUnits(blocks, sizes[0]);
        if AllCover(one.blocks, sizes[1..]) {
          forall k {:trigger UnitsCover(blocks, sizes, k)} | 0 <= k < MT_SIZES ensures UnitsCover(blocks, sizes, k) {
            assert UnitsCover(one.blocks, sizes[1..], k);
            OneTakenBack(blocks, sizes, k);
          }
        }
      }
    }
  }

  lemma NoRequests(blocks: Blocks)
    ensures AllCover(blocks, [])
  {
  }

  lemma TakenUnits(blocks: Blocks, size: Request)
    requires Take(blocks, size).Placed?
    ensures Units(Take(blocks, size).blocks, 0) == Units(blocks, 0) - Pow2(size)
  {
    SplitUnits(blocks, size, FirstFree(blocks, size), 0);
  }

  /** The dry run succeeds and leaves the reserve exactly when the sums say so. */
  lemma FitsExactly(blocks: Blocks, sizes: seq<Request>, reserve: int)
    ensures Fits(blocks, sizes, reserve) <==>
            TakeAll(blocks, sizes).Placed? && FreeNodes(TakeAll(blocks, sizes).blocks, 0) >= reserve
  {
    hide Units;
    hide Asked;
    hide FreeNodes;
    hide AskedNodes;
    TakeAllExactly(blocks, sizes);
    forall k | 0 <= k < MT_SIZES ensures ClassFits(blocks, sizes, k) <==> UnitsCover(blocks, sizes, k) {
      ClassFitsInUnits(blocks, sizes, k);
    }
    UnitsAreNodes(blocks, 0);
    AskedAreNodes(sizes, 0);
    if TakeAll(blocks, sizes).Placed? {
      UnitsAreNodes(TakeAll(blocks, sizes).blocks, 0);
    }
    assert Pow2(0) == 1;
  }

  // ---- order -------------------------------------------------------------------------

  lemma {:induction false} AskedNodesWithout(sizes: seq<Request>, i: nat, k: nat)
    requires i < |sizes|
    ensures AskedNodes(sizes, k) ==
            AskedNodes(sizes[..i] + sizes[i + 1..], k) + if sizes[i] >= k then Pow2(sizes[i]) else 0
    decreases i
  {
    if i == 0 {
      assert sizes[..0] + sizes[1..] == sizes[1..];
    } else {
      AskedNodesWithout(sizes[1..], i - 1, k);
      var less := sizes[..i] + sizes[i + 1..];
      assert less[0] == sizes[0] && less[1..] == sizes[1..][..i - 1] + sizes[1..][i..];
    }
  }

  lemma {:induction false} AskedIgnoresOrder(a: seq<Request>, b: seq<Request>, k: nat)
    requires multiset(a) == multiset(b)
    ensures AskedNodes(a, k) == AskedNodes(b, k)
    decreases |a|
  {
    if a == [] {
      assert |multiset(b)| == 0;
    } else {
      var i := MatchOf(a, b);
      AskedNodesWithout(b, i, k);
      AskedIgnoresOrder(a[1..], b[..i] + b[i + 1..], k);
    }
  }

  /** Where the first element of a is in b. */
  lemma MatchOf<T>(a: seq<T>, b: seq<T>) returns (i: nat)
    requires multiset(a) == multiset(b) && a != []
    ensures i < |b| && b[i] == a[0] && multiset(a[1..]) == multiset(b[..i] + b[i + 1..])
  {
    assert a[0] in multiset(b);
    i :| 0 <= i < |b| && b[i] == a[0];
    var less := b[..i] + b[i + 1..];
    assert a == [a[0]] + a[1..];
    assert multiset(a) == multiset{a[0]} + multiset(a[1..]);
    assert b == b[..i] + [b[i]] + b[i + 1..];
    assert multiset(b) == multiset(less) + multiset{b[i]};
    assert multiset(a[1..]) == multiset(a) - multiset{a[0]};
    assert multiset(less) == multiset(b) - multiset{b[i]};
  }

  /** Counting the strings in one order and interning them in another is safe. */
  lemma OrderDoesNotMatter(blocks: Blocks, a: seq<Request>, b: seq<Request>, reserve: int)
    requires multiset(a) == multiset(b)
    ensures Fits(blocks, a, reserve) <==> Fits(blocks, b, reserve)
    ensures TakeAll(blocks, a).Placed? <==> TakeAll(blocks, b).Placed?
  {
    hide AskedNodes;
    hide FreeNodes;
    forall k | 0 <= k < MT_SIZES ensures ClassFits(blocks, a, k) <==> ClassFits(blocks, b, k) {
      AskedIgnoresOrder(a, b, k);
    }
    AskedIgnoresOrder(a, b, 0);
    PlacedIsCovered(blocks, a);
    PlacedIsCovered(blocks, b);
  }

  /** A push that interns one string less than was counted has room as well. */
  lemma FewerAlsoFit(blocks: Blocks, sizes: seq<Request>, i: nat, reserve: int)
    requires i < |sizes| && Fits(blocks, sizes, reserve)
    ensures Fits(blocks, sizes[..i] + sizes[i + 1..], reserve)
  {
    hide AskedNodes;
    hide FreeNodes;
    var less := sizes[..i] + sizes[i + 1..];
    AskedNodesWithout(sizes, i, 0);
    forall k {:trigger ClassFits(blocks, less, k)} | 0 <= k < MT_SIZES ensures ClassFits(blocks, less, k) {
      AskedNodesWithout(sizes, i, k);
      assert ClassFits(blocks, sizes, k);
    }
  }

  lemma PlacedIsCovered(blocks: Blocks, sizes: seq<Request>)
    ensures TakeAll(blocks, sizes).Placed? <==> Covered(blocks, sizes)
  {
    TakeAllExactly(blocks, sizes);
    forall k | 0 <= k < MT_SIZES ensures ClassFits(blocks, sizes, k) <==> UnitsCover(blocks, sizes, k) {
      ClassFitsInUnits(blocks, sizes, k);
    }
  }

  // ---- the loops -----------------------------------------------------------------------

  method MtFits(free: Blocks, sizes: seq<Request>, reserve: int) returns (fits: bool)
    ensures fits <==> Fits(free, sizes, reserve)
  {
    hide Take;
    hide FreeNodes;
    var blocks := new nat[MT_SIZES](i requires 0 <= i < MT_SIZES => free[i]);
    assert blocks[..] == free;
    FitsExactly(free, sizes, reserve);
    for i := 0 to |sizes|
      invariant TakeAll(blocks[..], sizes[i..]) == TakeAll(free, sizes)
    {
      var placed := TakeBlock(blocks, sizes[i]);
      if !placed {
        return false;
      }
      assert sizes[i..][1..] == sizes[i + 1..];
    }
    var nodes := CountNodes(blocks);
    fits := nodes >= reserve;
  }

  /** One request on the block counts. */
  method TakeBlock(blocks: array<nat>, size: Request) returns (placed: bool)
    requires blocks.Length == MT_SIZES
    modifies blocks
    ensures placed <==> Take(old(blocks[..]), size).Placed?
    ensures placed ==> blocks[..] == Take(old(blocks[..]), size).blocks
  {
    ghost var was: Blocks := blocks[..];
    var t := size;
    while t < MT_SIZES && blocks[t] == 0
      invariant size <= t <= MT_SIZES
      invariant FirstFree(was, size) == FirstFree(was, t)
    {
      t := t + 1;
    }
    if t == MT_SIZES {
      return false;
    }
    ghost var from := t;
    blocks[t] := blocks[t] - 1;
    while t > size
      invariant size <= t <= from
      invariant forall j :: 0 <= j < MT_SIZES ==>
        blocks[j] == if t <= j < from then was[j] + 1 else if j == from then was[j] - 1 else was[j]
    {
      t := t - 1;
      blocks[t] := blocks[t] + 1;
    }
    assert blocks[..] == Split(was, size, from);
    placed := true;
  }

  method CountNodes(blocks: array<nat>) returns (nodes: nat)
    requires blocks.Length == MT_SIZES
    ensures nodes == FreeNodes(blocks[..], 0)
  {
    hide FreeNodes;
    hide Pow2;
    ghost var all: Blocks := blocks[..];
    nodes := 0;
    var s := 0;
    NoClasses(all);
    while s < MT_SIZES
      invariant 0 <= s <= MT_SIZES
      invariant nodes + FreeNodes(all, s) == FreeNodes(all, 0)
    {
      NextClass(all, s);
      nodes := nodes + blocks[s] * Pow2(s);
      s := s + 1;
    }
  }

  lemma NextClass(blocks: Blocks, k: nat)
    requires k < MT_SIZES
    ensures FreeNodes(blocks, k) == blocks[k] * Pow2(k) + FreeNodes(blocks, k + 1)
  {
  }

  lemma NoClasses(blocks: Blocks)
    ensures FreeNodes(blocks, MT_SIZES) == 0
  {
  }
}
