/**
 The buckets as the program keeps them (code/ratelimiter.cpp, 49-166): a fixed array,
 hash chains through prev and next, and what every call keeps of them. Indices stand
 for pointers.
 */
module BucketChains {
  import opened RateLimit
  import opened AddressPool

  datatype Bucket = Bucket(kind: int, adr: Address, last: nat, burst: int, hash: nat, prev: int, next: int)

  /** A bucket cleared by memset; its null pointers are NULL here. */
  const EMPTY: Bucket := Bucket(0, Address(0, 0, 0, 0), 0, 0, 0, NULL, NULL)

  function SlotOf(b: Bucket): Slot {
    if b.kind == 0 then Free else Used(b.adr, Meter(b.burst, b.last))
  }

  function Slots(bs: seq<Bucket>): (r: seq<Slot>)
    ensures |r| == |bs|
    ensures forall i :: 0 <= i < |bs| ==> r[i] == SlotOf(bs[i])
  {
    seq(|bs|, i requires 0 <= i < |bs| => SlotOf(bs[i]))
  }

  // ---- the chains ------------------------------------------------------------------

  /** Chain c of hash h is threaded right at its k-th bucket. */
  ghost predicate Linked(bs: seq<Bucket>, pos: seq<nat>, h: nat, c: seq<nat>, k: nat) {
    && k < |c| && c[k] < |bs| == |pos| && pos[c[k]] == k
    && var b := bs[c[k]];
    && b.kind != 0 && b.hash == h && HashFor(b.adr) == h
    && b.prev == (if k == 0 then NULL else c[k - 1])
    && b.next == (if k + 1 < |c| then c[k + 1] else NULL)
  }

  ghost predicate ChainOk(bs: seq<Bucket>, pos: seq<nat>, h: nat, c: seq<nat>, head: int) {
    && head == (if c == [] then NULL else c[0])
    && forall k {:trigger Linked(bs, pos, h, c, k)} :: 0 <= k < |c| ==> Linked(bs, pos, h, c, k)
  }

  /** A bucket in use is where its position says on the chain of its hash; one not in use is cleared. */
  ghost predicate Placed(bs: seq<Bucket>, pos: seq<nat>, chains: seq<seq<nat>>, i: nat)
    requires i < |bs| == |pos|
  {
    var b := bs[i];
    if b.kind == 0 then b == EMPTY
    else b.hash < |chains| && pos[i] < |chains[b.hash]| && chains[b.hash][pos[i]] == i
  }

  ghost predicate Threaded(bs: seq<Bucket>, heads: seq<int>, chains: seq<seq<nat>>, pos: seq<nat>) {
    && |pos| == |bs| && |heads| == |chains| == MAX_HASHES
    && (forall h {:trigger ChainOk(bs, pos, h, chains[h], heads[h])} :: 0 <= h < |chains| ==>
        ChainOk(bs, pos, h, chains[h], heads[h]))
    && forall i {:trigger Placed(bs, pos, chains, i)} :: 0 <= i < |bs| ==> Placed(bs, pos, chains, i)
  }

  /** Off the chain: the neighbours' pointers, or the head's, skip bucket i, and i is cleared. */
  function UnlinkBuckets(bs: seq<Bucket>, i: nat): (r: seq<Bucket>)
    requires i < |bs| && NULL <= bs[i].prev < |bs| && NULL <= bs[i].next < |bs|
    ensures |r| == |bs|
  {
    var b := bs[i];
    var s := if b.prev != NULL then bs[b.prev := bs[b.prev].(next := b.next)] else bs;
    var t := if b.next != NULL then s[b.next := s[b.next].(prev := b.prev)] else s;
    t[i := EMPTY]
  }

  function UnlinkHeads(bs: seq<Bucket>, heads: seq<int>, i: nat): (r: seq<int>)
    requires i < |bs| && bs[i].hash < |heads|
    ensures |r| == |heads|
  {
    if bs[i].prev != NULL then heads else heads[bs[i].hash := bs[i].next]
  }

  function CutAt(c: seq<nat>, k: nat): seq<nat>
    requires k < |c|
  {
    c[..k] + c[k + 1..]
  }

  /** Positions on chain h after its k-th bucket has gone. */
  function ClosedUp(bs: seq<Bucket>, pos: seq<nat>, h: nat, k: nat): (r: seq<nat>)
    requires |bs| == |pos|
    ensures |r| == |pos|
  {
    seq(|pos|, j requires 0 <= j < |pos| => if bs[j].kind != 0 && bs[j].hash == h && pos[j] > k then pos[j] - 1
        else pos[j])
  }

  /** New at the head of its chain. */
  function LinkBuckets(bs: seq<Bucket>, i: nat, b: Bucket, head: int): (r: seq<Bucket>)
    requires i < |bs| && NULL <= head < |bs|
    ensures |r| == |bs|
  {
    var s := bs[i := b.(next := head, prev := NULL)];
    if head != NULL then s[head := s[head].(prev := i)] else s
  }

  function MovedUp(bs: seq<Bucket>, pos: seq<nat>, h: nat, i: nat): (r: seq<nat>)
    requires |bs| == |pos|
    ensures |r| == |pos|
  {
    seq(|pos|, j requires 0 <= j < |pos| =>
      if j == i then 0 else if bs[j].kind != 0 && bs[j].hash == h then pos[j] + 1 else pos[j])
  }

  // ---- taking a bucket off its chain -------------------------------------------------

  /** What the invariant says about one bucket in use. */
  lemma OnItsChain(bs: seq<Bucket>, heads: seq<int>, chains: seq<seq<nat>>, pos: seq<nat>, i: nat)
    requires Threaded(bs, heads, chains, pos) && i < |bs| && bs[i].kind != 0
    ensures bs[i].hash < MAX_HASHES && ChainOk(bs, pos, bs[i].hash, chains[bs[i].hash], heads[bs[i].hash])
    ensures pos[i] < |chains[bs[i].hash]| && chains[bs[i].hash][pos[i]] == i
    ensures Linked(bs, pos, bs[i].hash, chains[bs[i].hash], pos[i])
    ensures NULL <= bs[i].prev < |bs| && NULL <= bs[i].next < |bs|
  {
    hide HashFor;
    assert Placed(bs, pos, chains, i);
    var h, c, k := bs[i].hash, chains[bs[i].hash], pos[i];
    assert ChainOk(bs, pos, h, c, heads[h]);
    assert Linked(bs, pos, h, c, k);
    assert k > 0 ==> Linked(bs, pos, h, c, k - 1);
    assert k + 1 < |c| ==> Linked(bs, pos, h, c, k + 1);
  }

  /** Linked buckets of another chain are not touched. */
  lemma UnlinkOthers(bs: seq<Bucket>, heads: seq<int>, chains: seq<seq<nat>>, pos: seq<nat>, i: nat, h: nat, k: nat)
    requires Threaded(bs, heads, chains, pos) && i < |bs| && bs[i].kind != 0
    requires h < MAX_HASHES && h != bs[i].hash && k < |chains[h]|
    requires NULL <= bs[i].prev < |bs| && NULL <= bs[i].next < |bs|
    ensures Linked(UnlinkBuckets(bs, i), ClosedUp(bs, pos, bs[i].hash, pos[i]), h, chains[h], k)
  {
    hide HashFor;
    OnItsChain(bs, heads, chains, pos, i);
    var g, c, p := bs[i].hash, chains[bs[i].hash], pos[i];
    assert p > 0 ==> Linked(bs, pos, g, c, p - 1);
    assert p + 1 < |c| ==> Linked(bs, pos, g, c, p + 1);
    assert ChainOk(bs, pos, h, chains[h], heads[h]);
    assert Linked(bs, pos, h, chains[h], k);
  }

  /** On its own chain the neighbours meet. */
  lemma UnlinkOwn(bs: seq<Bucket>, heads: seq<int>, chains: seq<seq<nat>>, pos: seq<nat>, i: nat, k: nat)
    requires Threaded(bs, heads, chains, pos) && i < |bs| && bs[i].kind != 0
    requires bs[i].hash < MAX_HASHES && pos[i] < |chains[bs[i].hash]|
    requires NULL <= bs[i].prev < |bs| && NULL <= bs[i].next < |bs|
    requires k + 1 < |chains[bs[i].hash]|
    ensures var h := bs[i].hash;
            Linked(UnlinkBuckets(bs, i), ClosedUp(bs, pos, h, pos[i]), h, CutAt(chains[h], pos[i]), k)
  {
    hide HashFor;
    OnItsChain(bs, heads, chains, pos, i);
    var h, c, p := bs[i].hash, chains[bs[i].hash], pos[i];
    assert p > 0 ==> Linked(bs, pos, h, c, p - 1);
    assert p + 1 < |c| ==> Linked(bs, pos, h, c, p + 1);
    var was := if k < p then k else k + 1;
    assert Linked(bs, pos, h, c, was);
    assert was > 0 ==> Linked(bs, pos, h, c, was - 1);
    assert was + 1 < |c| ==> Linked(bs, pos, h, c, was + 1);
    assert CutAt(c, p)[k] == c[was];
    assert k > 0 ==> CutAt(c, p)[k - 1] == if k - 1 < p then c[k - 1] else c[k];
    assert k + 2 < |c| ==> CutAt(c, p)[k + 1] == if k + 1 < p then c[k + 1] else c[k + 2];
  }

  /** Neighbours only have their pointers changed. */
  lemma UnlinkFields(bs: seq<Bucket>, heads: seq<int>, chains: seq<seq<nat>>, pos: seq<nat>, i: nat, j: nat)
    requires Threaded(bs, heads, chains, pos) && i < |bs| && bs[i].kind != 0 && j < |bs| && j != i
    requires NULL <= bs[i].prev < |bs| && NULL <= bs[i].next < |bs|
    ensures var b, r := bs[j], UnlinkBuckets(bs, i)[j];
            r.kind == b.kind && r.adr == b.adr && r.last == b.last && r.burst == b.burst && r.hash == b.hash
                && (b.kind == 0 ==> r == b)
  {
    hide HashFor;
    OnItsChain(bs, heads, chains, pos, i);
    var h, c, p := bs[i].hash, chains[bs[i].hash], pos[i];
    assert p > 0 ==> Linked(bs, pos, h, c, p - 1);
    assert p + 1 < |c| ==> Linked(bs, pos, h, c, p + 1);
  }

  lemma UnlinkPlaces(bs: seq<Bucket>, heads: seq<int>, chains: seq<seq<nat>>, pos: seq<nat>, i: nat, j: nat)
    requires Threaded(bs, heads, chains, pos) && i < |bs| && bs[i].kind != 0 && j < |bs|
    requires bs[i].hash < MAX_HASHES && pos[i] < |chains[bs[i].hash]|
    requires NULL <= bs[i].prev < |bs| && NULL <= bs[i].next < |bs|
    ensures var h := bs[i].hash;
            Placed(UnlinkBuckets(bs, i), ClosedUp(bs, pos, h, pos[i]), chains[h := CutAt(chains[h], pos[i])], j)
  {
    hide HashFor;
    if j != i {
      OnItsChain(bs, heads, chains, pos, i);
      UnlinkFields(bs, heads, chains, pos, i, j);
      assert Placed(bs, pos, chains, j);
      hide UnlinkBuckets;
    }
  }

  lemma UnlinkChain(bs: seq<Bucket>, heads: seq<int>, chains: seq<seq<nat>>, pos: seq<nat>, i: nat, g: nat)
    requires Threaded(bs, heads, chains, pos) && i < |bs| && bs[i].kind != 0 && g < MAX_HASHES
    requires bs[i].hash < MAX_HASHES && pos[i] < |chains[bs[i].hash]|
    requires NULL <= bs[i].prev < |bs| && NULL <= bs[i].next < |bs|
    ensures var h := bs[i].hash;
            ChainOk(UnlinkBuckets(bs, i), ClosedUp(bs, pos, h, pos[i]), g,
                    chains[h := CutAt(chains[h], pos[i])][g], UnlinkHeads(bs, heads, i)[g])
  {
    hide HashFor;
    OnItsChain(bs, heads, chains, pos, i);
    var h, c, p := bs[i].hash, chains[bs[i].hash], pos[i];
    var bs', pos', c' := UnlinkBuckets(bs, i), ClosedUp(bs, pos, h, p), chains[h := CutAt(c, p)][g];
    assert ChainOk(bs, pos, g, chains[g], heads[g]);
    forall k {:trigger Linked(bs', pos', g, c', k)} | 0 <= k < |c'| ensures Linked(bs', pos', g, c', k) {
      if g == h {
        UnlinkOwn(bs, heads, chains, pos, i, k);
      } else {
        UnlinkOthers(bs, heads, chains, pos, i, g, k);
      }
    }
    assert p > 0 ==> Linked(bs, pos, h, c, p - 1);
    assert p + 1 < |c| ==> Linked(bs, pos, h, c, p + 1);
    hide UnlinkBuckets;
    hide ClosedUp;
    hide Linked;
  }

  /** Taking a bucket off its chain leaves all chains threaded. */
  lemma UnlinkKeeps(bs: seq<Bucket>, heads: seq<int>, chains: seq<seq<nat>>, pos: seq<nat>, i: nat)
    requires Threaded(bs, heads, chains, pos) && i < |bs| && bs[i].kind != 0
    ensures bs[i].hash < MAX_HASHES && pos[i] < |chains[bs[i].hash]|
    ensures NULL <= bs[i].prev < |bs| && NULL <= bs[i].next < |bs|
    ensures var h := bs[i].hash;
            Threaded(UnlinkBuckets(bs, i), UnlinkHeads(bs, heads, i), chains[h := CutAt(chains[h], pos[i])],
                ClosedUp(bs, pos, h, pos[i]))
    ensures Slots(UnlinkBuckets(bs, i)) == Slots(bs)[i := Free]
  {
    hide HashFor;
    OnItsChain(bs, heads, chains, pos, i);
    var h := bs[i].hash;
    var bs', heads', chains', pos' := UnlinkBuckets(bs, i), UnlinkHeads(bs, heads, i),
        chains[h := CutAt(chains[h], pos[i])], ClosedUp(bs, pos, h, pos[i]);
    forall g {:trigger ChainOk(bs', pos', g, chains'[g], heads'[g])} | 0 <= g < |chains'|
      ensures ChainOk(bs', pos', g, chains'[g], heads'[g]) {
      UnlinkChain(bs, heads, chains, pos, i, g);
    }
    forall j {:trigger Placed(bs', pos', chains', j)} | 0 <= j < |bs'| ensures Placed(bs', pos', chains', j) {
      UnlinkPlaces(bs, heads, chains, pos, i, j);
    }
    forall j | 0 <= j < |bs| ensures Slots(bs')[j] == Slots(bs)[i := Free][j] {
      if j != i {
        UnlinkFields(bs, heads, chains, pos, i, j);
      }
    }
  }

  // ---- putting a bucket on a chain ---------------------------------------------------

  ghost predicate FreshFor(bs: seq<Bucket>, i: nat, b: Bucket) {
    i < |bs| && bs[i].kind == 0 && b.kind != 0 && b.hash == HashFor(b.adr)
  }

  lemma HeadIsFirst(bs: seq<Bucket>, heads: seq<int>, chains: seq<seq<nat>>, pos: seq<nat>, h: nat)
    requires Threaded(bs, heads, chains, pos) && h < MAX_HASHES
    ensures NULL <= heads[h] < |bs|
    ensures heads[h] != NULL ==> chains[h] != [] && heads[h] == chains[h][0] && Linked(bs, pos, h, chains[h], 0)
    ensures heads[h] == NULL ==> chains[h] == []
  {
    hide HashFor;
    assert ChainOk(bs, pos, h, chains[h], heads[h]);
    assert chains[h] != [] ==> Linked(bs, pos, h, chains[h], 0);
  }

  lemma LinkOthers(bs: seq<Bucket>, heads: seq<int>, chains: seq<seq<nat>>, pos: seq<nat>, i: nat, b: Bucket, g: nat,
      k: nat)
    requires Threaded(bs, heads, chains, pos) && FreshFor(bs, i, b)
    requires b.hash < MAX_HASHES && NULL <= heads[b.hash] < |bs|
    requires g < MAX_HASHES && g != b.hash && k < |chains[g]|
    ensures Linked(LinkBuckets(bs, i, b, heads[b.hash]), MovedUp(bs, pos, b.hash, i), g, chains[g], k)
  {
    hide HashFor;
    HeadIsFirst(bs, heads, chains, pos, b.hash);
    assert ChainOk(bs, pos, g, chains[g], heads[g]);
    assert Linked(bs, pos, g, chains[g], k);
  }

  lemma LinkOwn(bs: seq<Bucket>, heads: seq<int>, chains: seq<seq<nat>>, pos: seq<nat>, i: nat, b: Bucket, k: nat)
    requires Threaded(bs, heads, chains, pos) && FreshFor(bs, i, b)
    requires b.hash < MAX_HASHES && NULL <= heads[b.hash] < |bs|
    requires k <= |chains[b.hash]|
    ensures Linked(LinkBuckets(bs, i, b, heads[b.hash]), MovedUp(bs, pos, b.hash, i), b.hash, [i] + chains[b.hash], k)
  {
    hide HashFor;
    var h, c := b.hash, chains[b.hash];
    HeadIsFirst(bs, heads, chains, pos, h);
    assert ChainOk(bs, pos, h, c, heads[h]);
    assert k > 0 ==> Linked(bs, pos, h, c, k - 1);
    assert k > 1 ==> Linked(bs, pos, h, c, k - 2);
    assert k < |c| ==> Linked(bs, pos, h, c, k);
    assert k > 1 ==> ([i] + c)[k - 1] == c[k - 2];
    assert k > 0 ==> ([i] + c)[k] == c[k - 1];
    assert k < |c| ==> ([i] + c)[k + 1] == c[k];
  }

  lemma LinkFields(bs: seq<Bucket>, heads: seq<int>, chains: seq<seq<nat>>, pos: seq<nat>, i: nat, b: Bucket, j: nat)
    requires Threaded(bs, heads, chains, pos) && FreshFor(bs, i, b) && j < |bs| && j != i
    requires b.hash < MAX_HASHES && NULL <= heads[b.hash] < |bs|
    ensures var w, r := bs[j], LinkBuckets(bs, i, b, heads[b.hash])[j];
            r.kind == w.kind && r.adr == w.adr && r.last == w.last && r.burst == w.burst && r.hash == w.hash
                && (w.kind == 0 ==> r == w)
  {
    hide HashFor;
    HeadIsFirst(bs, heads, chains, pos, b.hash);
  }

  lemma LinkPlaces(bs: seq<Bucket>, heads: seq<int>, chains: seq<seq<nat>>, pos: seq<nat>, i: nat, b: Bucket, j: nat)
    requires Threaded(bs, heads, chains, pos) && FreshFor(bs, i, b) && j < |bs|
    requires b.hash < MAX_HASHES && NULL <= heads[b.hash] < |bs|
    ensures Placed(LinkBuckets(bs, i, b, heads[b.hash]), MovedUp(bs, pos, b.hash, i),
        chains[b.hash := [i] + chains[b.hash]], j)
  {
    hide HashFor;
    HeadIsFirst(bs, heads, chains, pos, b.hash);
    if j != i {
      LinkFields(bs, heads, chains, pos, i, b, j);
      assert Placed(bs, pos, chains, j);
      hide LinkBuckets;
    }
  }

  lemma LinkChain(bs: seq<Bucket>, heads: seq<int>, chains: seq<seq<nat>>, pos: seq<nat>, i: nat, b: Bucket, g: nat)
    requires Threaded(bs, heads, chains, pos) && FreshFor(bs, i, b) && g < MAX_HASHES
    requires b.hash < MAX_HASHES && NULL <= heads[b.hash] < |bs|
    ensures ChainOk(LinkBuckets(bs, i, b, heads[b.hash]), MovedUp(bs, pos, b.hash, i), g,
                    if g == b.hash then [i] + chains[g] else chains[g], if g == b.hash then i else heads[g])
  {
    hide HashFor;
    hide LinkBuckets;
    hide MovedUp;
    hide Linked;
    var bs', pos' := LinkBuckets(bs, i, b, heads[b.hash]), MovedUp(bs, pos, b.hash, i);
    var c' := if g == b.hash then [i] + chains[g] else chains[g];
    assert ChainOk(bs, pos, g, chains[g], heads[g]);
    forall k {:trigger Linked(bs', pos', g, c', k)} | 0 <= k < |c'| ensures Linked(bs', pos', g, c', k) {
      if g == b.hash {
        LinkOwn(bs, heads, chains, pos, i, b, k);
      } else {
        LinkOthers(bs, heads, chains, pos, i, b, g, k);
      }
    }
  }

  /** A cleared bucket put at the head of the chain of its address leaves all chains threaded. */
  lemma LinkKeeps(bs: seq<Bucket>, heads: seq<int>, chains: seq<seq<nat>>, pos: seq<nat>, i: nat, b: Bucket)
    requires Threaded(bs, heads, chains, pos) && FreshFor(bs, i, b)
    ensures b.hash < MAX_HASHES && NULL <= heads[b.hash] < |bs| && heads[b.hash] != i
    ensures Threaded(LinkBuckets(bs, i, b, heads[b.hash]), heads[b.hash := i],
        chains[b.hash := [i] + chains[b.hash]], MovedUp(bs, pos, b.hash, i))
    ensures Slots(LinkBuckets(bs, i, b, heads[b.hash])) == Slots(bs)[i := SlotOf(b)]
  {
    hide HashFor;
    HeadIsFirst(bs, heads, chains, pos, b.hash);
    var bs', heads', chains', pos' := LinkBuckets(bs, i, b, heads[b.hash]), heads[b.hash := i],
        chains[b.hash := [i] + chains[b.hash]], MovedUp(bs, pos, b.hash, i);
    forall g {:trigger ChainOk(bs', pos', g, chains'[g], heads'[g])} | 0 <= g < |chains'|
      ensures ChainOk(bs', pos', g, chains'[g], heads'[g]) {
      LinkChain(bs, heads, chains, pos, i, b, g);
    }
    forall j {:trigger Placed(bs', pos', chains', j)} | 0 <= j < |bs'| ensures Placed(bs', pos', chains', j) {
      LinkPlaces(bs, heads, chains, pos, i, b, j);
    }
    forall j | 0 <= j < |bs| ensures Slots(bs')[j] == Slots(bs)[i := SlotOf(b)][j] {
      if j != i {
        LinkFields(bs, heads, chains, pos, i, b, j);
      }
    }
  }

  // ---- finding an address ---------------------------------------------------------------

  /** None of the first k buckets of the address's chain is its own. */
  ghost predicate NotAmong(bs: seq<Bucket>, c: seq<nat>, k: nat, adr: Address) {
    k <= |c| && forall q :: 0 <= q < k ==> c[q] < |bs| && bs[c[q]].adr != adr
  }

  /** An address that is not on its chain has no bucket. */
  lemma NotOnChain(bs: seq<Bucket>, heads: seq<int>, chains: seq<seq<nat>>, pos: seq<nat>, h: nat, adr: Address)
    requires Threaded(bs, heads, chains, pos) && h == HashFor(adr)
    requires h < |chains| && NotAmong(bs, chains[h], |chains[h]|, adr)
    ensures Lookup(Slots(bs), adr) == |bs|
  {
    hide HashFor;
    forall j | 0 <= j < |bs| ensures !Matches(Slots(bs)[j], adr) {
      if bs[j].kind != 0 {
        OnItsChain(bs, heads, chains, pos, j);
      }
    }
    LookupIs(Slots(bs), adr, |bs|);
  }

  /** The k-th bucket of a chain, if it is the address's, is the only one. */
  lemma OnChain(bs: seq<Bucket>, heads: seq<int>, chains: seq<seq<nat>>, pos: seq<nat>, h: nat, k: nat, adr: Address)
    requires Threaded(bs, heads, chains, pos) && Distinct(Slots(bs)) && h < MAX_HASHES
    requires k < |chains[h]| && chains[h][k] < |bs| && bs[chains[h][k]].adr == adr
    ensures Lookup(Slots(bs), adr) == chains[h][k]
  {
    hide HashFor;
    assert ChainOk(bs, pos, h, chains[h], heads[h]);
    assert Linked(bs, pos, h, chains[h], k);
    LookupIs(Slots(bs), adr, chains[h][k]);
  }

  lemma WalkOn(bs: seq<Bucket>, heads: seq<int>, chains: seq<seq<nat>>, pos: seq<nat>, h: nat, k: nat)
    requires Threaded(bs, heads, chains, pos) && h < MAX_HASHES && k < |chains[h]|
    ensures chains[h][k] < |bs|
    ensures bs[chains[h][k]].next == if k + 1 < |chains[h]| then chains[h][k + 1] else NULL
  {
    hide HashFor;
    assert ChainOk(bs, pos, h, chains[h], heads[h]);
    assert Linked(bs, pos, h, chains[h], k);
  }

  // ---- what threaded chains mean ----------------------------------------------------

  /** A bucket in use is on one chain only, that of its address's hash, and at one place. */
  lemma OnExactlyOneChain(bs: seq<Bucket>, heads: seq<int>, chains: seq<seq<nat>>, pos: seq<nat>, i: nat)
    requires Threaded(bs, heads, chains, pos) && i < |bs| && bs[i].kind != 0
    ensures forall h, k :: 0 <= h < MAX_HASHES && 0 <= k < |chains[h]| ==>
      (chains[h][k] == i <==> h == HashFor(bs[i].adr) && k == pos[i])
  {
    hide HashFor;
    OnItsChain(bs, heads, chains, pos, i);
    forall h, k | 0 <= h < MAX_HASHES && 0 <= k < |chains[h]|
      ensures chains[h][k] == i <==> h == HashFor(bs[i].adr) && k == pos[i]
    {
      assert ChainOk(bs, pos, h, chains[h], heads[h]);
      assert Linked(bs, pos, h, chains[h], k);
    }
  }

  /** next and prev undo each other. */
  lemma PointersAreInverse(bs: seq<Bucket>, heads: seq<int>, chains: seq<seq<nat>>, pos: seq<nat>, i: nat)
    requires Threaded(bs, heads, chains, pos) && i < |bs| && bs[i].kind != 0
    ensures NULL <= bs[i].prev < |bs| && NULL <= bs[i].next < |bs|
    ensures bs[i].next != NULL ==> bs[bs[i].next].prev == i
    ensures if bs[i].prev != NULL then bs[bs[i].prev].next == i else heads[HashFor(bs[i].adr)] == i
  {
    hide HashFor;
    OnItsChain(bs, heads, chains, pos, i);
    var h, c, k := bs[i].hash, chains[bs[i].hash], pos[i];
    assert k > 0 ==> Linked(bs, pos, h, c, k - 1);
    assert k + 1 < |c| ==> Linked(bs, pos, h, c, k + 1);
  }

  // ---- the pool object ----------------------------------------------------------------

  class BucketPool {
    const buckets: array<Bucket>
    const heads: array<int>
    /** The chains as lists, and where each bucket is on its list. */
    ghost var chains: seq<seq<nat>>
    ghost var pos: seq<nat>

    ghost predicate Valid()
      reads this, buckets, heads
    {
      && buckets.Length == MAX_BUCKETS
      && Threaded(buckets[..], heads[..], chains, pos)
      && Distinct(Slots(buckets[..]))
    }

    /** The pool without its chains. */
    ghost function Pool(): seq<Slot>
      reads buckets
    {
      Slots(buckets[..])
    }

    constructor ()
      ensures Valid() && fresh(buckets) && fresh(heads)
      ensures forall i :: 0 <= i < |Pool()| ==> Pool()[i] == Free
    {
      buckets := new Bucket[MAX_BUCKETS](i => EMPTY);
      heads := new int[MAX_HASHES](i => NULL);
      chains := seq(MAX_HASHES, i => []);
      pos := seq(MAX_BUCKETS, i => 0);
      new;
      hide HashFor;
    }

    /** The walk over the chain of the address. */
    method FindOnChain(adr: Address) returns (i: int)
      requires Valid()
      ensures if i == NULL then Lookup(Pool(), adr) == |Pool()| else i == Lookup(Pool(), adr) < |Pool()|
    {
      hide HashFor;
      ghost var bs := buckets[..];
      var h := HashFor(adr);
      HeadIsFirst(bs, heads[..], chains, pos, h);
      i := heads[h];
      ghost var k := 0;
      while i != NULL
        invariant h < MAX_HASHES && k <= |chains[h]|
        invariant i == if k < |chains[h]| then chains[h][k] else NULL
        invariant NotAmong(bs, chains[h], k, adr)
        decreases |chains[h]| - k
      {
        WalkOn(bs, heads[..], chains, pos, h, k);
        if buckets[i].adr == adr {
          OnChain(bs, heads[..], chains, pos, h, k, adr);
          return;
        }
        i := buckets[i].next;
        k := k + 1;
      }
      NotOnChain(bs, heads[..], chains, pos, h, adr);
    }

    /** Takes an expired bucket off its chain and clears it. */
    method Reclaim(i: nat)
      requires Valid() && i < buckets.Length && buckets[i].kind != 0
      modifies this`chains, this`pos, buckets, heads
      ensures Valid()
      ensures buckets[i] == EMPTY && Pool() == old(Pool())[i := Free]
    {
      hide HashFor;
      hide Threaded;
      ghost var bs, hs := buckets[..], heads[..];
      UnlinkKeeps(bs, hs, chains, pos, i);
      var b := buckets[i];
      SameLength(bs, hs, chains, pos);
      if b.prev != NULL {
        buckets[b.prev] := buckets[b.prev].(next := b.next);
      } else {
        heads[b.hash] := b.next;
      }
      if b.next != NULL {
        buckets[b.next] := buckets[b.next].(prev := b.prev);
      }
      buckets[i] := EMPTY;
      assert buckets[..] == UnlinkBuckets(bs, i);
      assert heads[..] == UnlinkHeads(bs, hs, i);
      chains, pos := chains[b.hash := CutAt(chains[b.hash], pos[i])], ClosedUp(bs, pos, b.hash, pos[i]);
    }

    /** Gives a cleared bucket to an address and puts it at the head of the chain. */
    method Take(i: nat, adr: Address, kind: int, now: nat)
      requires Valid() && i < buckets.Length && buckets[i].kind == 0 && kind != 0
      requires Lookup(Pool(), adr) == |Pool()|
      modifies this`chains, this`pos, buckets, heads
      ensures Valid()
      ensures Pool() == old(Pool())[i := Used(adr, Meter(0, now))]
    {
      hide HashFor;
      hide Threaded;
      ghost var bs, hs := buckets[..], heads[..];
      var hash := HashFor(adr);
      ghost var b := Bucket(kind, adr, now, 0, hash, NULL, NULL);
      LinkKeeps(bs, hs, chains, pos, i, b);
      SameLength(bs, hs, chains, pos);
      buckets[i] := buckets[i].(kind := kind, adr := adr);
      buckets[i] := buckets[i].(last := now, burst := 0, hash := hash);
      buckets[i] := buckets[i].(next := heads[hash]);
      if heads[hash] != NULL {
        buckets[heads[hash]] := buckets[heads[hash]].(prev := i);
      }
      buckets[i] := buckets[i].(prev := NULL);
      heads[hash] := i;
      assert buckets[..] == LinkBuckets(bs, i, b, hs[hash]);
      assert heads[..] == hs[hash := i];
      chains, pos := chains[hash := [i] + chains[hash]], MovedUp(bs, pos, hash, i);
    }

    /** One step of the search for a bucket: reclaims bucket i if it has expired, and takes it if it is free. */
    method TryBucket(i: nat, adr: Address, kind: int, limit: Limit, now: nat) returns (taken: bool)
      requires Valid() && i < buckets.Length && kind != 0
      requires Lookup(Pool(), adr) == |Pool()|
      modifies this`chains, this`pos, buckets, heads
      ensures Valid()
      ensures taken <==> Available(old(Pool())[i], limit, now)
      ensures Pool() == if taken then old(Pool())[i := Used(adr, Meter(0, now))] else old(Pool())
    {
      hide HashFor;
      hide Threaded;
      hide Available;
      ghost var pool := Pool();
      var b := buckets[i];
      AvailableBucket(buckets[..], heads[..], chains, pos, i, limit, now);
      var interval := Narrow(now - b.last);
      if b.last > 0 && (interval > limit.burst * limit.period || interval < 0) {
        Reclaim(i);
      }
      taken := buckets[i].kind == 0;
      if taken {
        LookupIs(Pool(), adr, |pool|);
        Take(i, adr, kind, now);
      }
    }

    /** SVC_BucketForAddress: a bucket of the address, or NULL when all are in use by others. */
    method BucketForAddress(adr: Address, kind: int, limit: Limit, now: nat) returns (r: int)
      requires Valid() && kind != 0 && limit.Sound() && Timely(Pool(), now)
      modifies this`chains, this`pos, buckets, heads
      ensures Valid()
      ensures (Pool(), if r == NULL then |Pool()| else r) == Assign(old(Pool()), adr, limit, now)
      ensures NULL <= r < buckets.Length
    {
      hide HashFor;
      hide Threaded;
      hide Available;
      hide Distinct;
      r := FindOnChain(adr);
      if r != NULL {
        return;
      }
      ghost var pool := Pool();
      for i := 0 to MAX_BUCKETS
        invariant Valid() && Pool() == pool
        invariant forall k :: 0 <= k < i ==> !Available(pool[k], limit, now)
      {
        var taken := TryBucket(i, adr, kind, limit, now);
        if taken {
          FirstAvailableIs(pool, limit, now, i);
          return i;
        }
      }
      FirstAvailableIs(pool, limit, now, |pool|);
      r := NULL;
    }

    /** SVC_RateLimit on a bucket of the pool, or on NULL. */
    method RateLimit(i: int, limit: Limit, now: nat) returns (denied: bool)
      requires Valid() && limit.Sound() && Timely(Pool(), now) && NULL <= i < buckets.Length
      requires i != NULL ==> buckets[i].kind != 0
      modifies buckets
      ensures Valid()
      ensures i == NULL ==> denied && Pool() == old(Pool())
      ensures i != NULL ==>
        var slot := old(Pool())[i];
        && SlotTimely(slot, now)
        && denied == Denied(slot.meter, limit, now)
        && Pool() == old(Pool())[i := Used(slot.adr, Ask(slot.meter, limit, now))]
    {
      hide HashFor;
      hide Threaded;
      if i == NULL {
        return true;
      }
      ghost var bs, pool := buckets[..], Pool();
      assert SlotTimely(pool[i], now);
      var interval := Narrow(now - buckets[i].last);
      var expired := Quotient(interval, limit.period);
      var expiredRemainder := Remainder(interval, limit.period);
      LeakTime(Meter(bs[i].burst, bs[i].last), limit, now);
      if expired > buckets[i].burst || interval < 0 {
        buckets[i] := buckets[i].(burst := 0, last := now);
      } else {
        buckets[i] := buckets[i].(burst := buckets[i].burst - expired, last := now - expiredRemainder);
      }
      denied := true;
      if buckets[i].burst < limit.burst {
        buckets[i] := buckets[i].(burst := buckets[i].burst + 1);
        denied := false;
      }
      ghost var m := Ask(pool[i].meter, limit, now);
      assert buckets[..] == bs[i := bs[i].(burst := m.level, last := m.last)];
      RefillKeeps(bs, heads[..], chains, pos, i, m);
    }

    /** SVC_RateLimitAddress: the pool answers as its specification without chains does. */
    method RateLimitAddress(adr: Address, kind: int, limit: Limit, now: nat) returns (denied: bool)
      requires Valid() && kind != 0 && limit.Sound() && Timely(Pool(), now)
      modifies this`chains, this`pos, buckets, heads
      ensures Valid()
      ensures Served(Pool(), denied) == Serve(old(Pool()), adr, limit, now)
      ensures Timely(Pool(), now)
    {
      hide HashFor;
      hide Threaded;
      ghost var pool := Pool();
      ServeKeepsTimely(pool, adr, limit, now);
      AssignedTimely(pool, adr, limit, now);
      var bucket := BucketForAddress(adr, kind, limit, now);
      denied := RateLimit(bucket, limit, now);
    }
  }

  /** Whether the program may use bucket i, seen from its fields. */
  lemma AvailableBucket(bs: seq<Bucket>, heads: seq<int>, chains: seq<seq<nat>>, pos: seq<nat>, i: nat, limit: Limit,
      now: nat)
    requires Threaded(bs, heads, chains, pos) && i < |bs|
    ensures var b := bs[i];
            var interval := Narrow(now - b.last);
            var expired := b.last > 0 && (interval > limit.burst * limit.period || interval < 0);
            && (Available(Slots(bs)[i], limit, now) <==> b.kind == 0 || expired)
            && (expired ==> b.kind != 0)
  {
    hide HashFor;
    assert Placed(bs, pos, chains, i);
  }

  /** Time and level are not part of the chains. */
  lemma RefillKeeps(bs: seq<Bucket>, heads: seq<int>, chains: seq<seq<nat>>, pos: seq<nat>, i: nat, m: Meter)
    requires Threaded(bs, heads, chains, pos) && i < |bs| && bs[i].kind != 0
    ensures var r := bs[i := bs[i].(burst := m.level, last := m.last)];
            Threaded(r, heads, chains, pos) && Slots(r) == Slots(bs)[i := Used(bs[i].adr, m)]
  {
    hide HashFor;
    var r := bs[i := bs[i].(burst := m.level, last := m.last)];
    forall h {:trigger ChainOk(r, pos, h, chains[h], heads[h])} | 0 <= h < |chains|
      ensures ChainOk(r, pos, h, chains[h], heads[h]) {
      assert ChainOk(bs, pos, h, chains[h], heads[h]);
      forall k {:trigger Linked(r, pos, h, chains[h], k)} | 0 <= k < |chains[h]|
        ensures Linked(r, pos, h, chains[h], k) {
        assert Linked(bs, pos, h, chains[h], k);
      }
    }
    forall j {:trigger Placed(r, pos, chains, j)} | 0 <= j < |r| ensures Placed(r, pos, chains, j) {
      assert Placed(bs, pos, chains, j);
    }
  }

  lemma SameLength(bs: seq<Bucket>, heads: seq<int>, chains: seq<seq<nat>>, pos: seq<nat>)
    requires Threaded(bs, heads, chains, pos)
    ensures |bs| == |pos| && |heads| == |chains| == MAX_HASHES
  {
    hide HashFor;
  }
}
