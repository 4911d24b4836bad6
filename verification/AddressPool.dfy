/**
 The pool of buckets, one per address, threaded on hash chains (code/ratelimiter.cpp,
 32-166), and the bound it gives every address over whole runs of requests.
 */
module AddressPool {
  import opened RateLimit

  const MAX_BUCKETS: nat := 16384
  const MAX_HASHES: nat := 1024
  const NULL: int := -1

  datatype Address = Address(a: bv8, b: bv8, c: bv8, d: bv8)

  function HashFor(adr: Address): (r: nat)
    ensures r < MAX_HASHES
  {
    var sum: bv32 := (adr.a as bv32) * 119 + (adr.b as bv32) * 120 + (adr.c as bv32) * 121 + (adr.d as bv32) * 122;
    var hash := sum ^ (sum >> 10) ^ (sum >> 20);
    ((hash & 1023) as bv10) as nat
  }

  // ---- the pool without its chains --------------------------------------------------

  datatype Slot = Free | Used(adr: Address, meter: Meter)

  /** The slot of the address, or |slots|. */
  function Lookup(slots: seq<Slot>, adr: Address): (i: nat)
    ensures i <= |slots|
    ensures i < |slots| ==> slots[i].Used? && slots[i].adr == adr
    ensures forall k :: 0 <= k < i ==> !(slots[k].Used? && slots[k].adr == adr)
  {
    if slots == [] || (slots[0].Used? && slots[0].adr == adr) then 0 else 1 + Lookup(slots[1..], adr)
  }

  predicate Available(slot: Slot, limit: Limit, now: nat) {
    slot.Free? || Expired(slot.meter, limit, now)
  }

  /** The first slot that is free or may be taken away, or |slots|. */
  function FirstAvailable(slots: seq<Slot>, limit: Limit, now: nat): (i: nat)
    ensures i <= |slots|
    ensures i < |slots| ==> Available(slots[i], limit, now)
    ensures forall k :: 0 <= k < i ==> !Available(slots[k], limit, now)
  {
    if slots == [] || Available(slots[0], limit, now) then 0 else 1 + FirstAvailable(slots[1..], limit, now)
  }

  /** A slot for the address: its own, else the first available one, else none. */
  function Assign(slots: seq<Slot>, adr: Address, limit: Limit, now: nat): (r: (seq<Slot>, nat))
    ensures |r.0| == |slots| && r.1 <= |slots|
  {
    var own := Lookup(slots, adr);
    if own < |slots| then (slots, own)
    else
      var i := FirstAvailable(slots, limit, now);
      if i == |slots| then (slots, i) else (slots[i := Used(adr, Meter(0, now))], i)
  }

  ghost predicate SlotWithin(slot: Slot, limit: Limit, now: nat) {
    slot.Used? ==> slot.meter.Within(limit, now)
  }

  /** Every bucket is within the limit: all requests so far were under it. */
  ghost predicate AllWithin(slots: seq<Slot>, limit: Limit, now: nat) {
    forall i {:trigger slots[i]} :: 0 <= i < |slots| ==> SlotWithin(slots[i], limit, now)
  }

  predicate SlotTimely(slot: Slot, now: nat) {
    slot.Used? ==> 0 <= slot.meter.level <= 127 && slot.meter.last <= now
  }

  /** The clock has not gone back; requests may have been under different limits. */
  ghost predicate Timely(slots: seq<Slot>, now: nat) {
    forall i {:trigger slots[i]} :: 0 <= i < |slots| ==> SlotTimely(slots[i], now)
  }

  datatype Served = Served(slots: seq<Slot>, denied: bool)

  /** A request of an address at a time; without a slot it is denied. */
  function Serve(slots: seq<Slot>, adr: Address, limit: Limit, now: nat): Served
    requires limit.Sound() && Timely(slots, now)
  {
    var (after, i) := Assign(slots, adr, limit, now);
    if i == |slots| then Served(after, true)
    else
      AssignedTimely(slots, adr, limit, now);
      var m := after[i].meter;
      Served(after[i := Used(adr, Ask(m, limit, now))], Denied(m, limit, now))
  }

  lemma AssignedTimely(slots: seq<Slot>, adr: Address, limit: Limit, now: nat)
    requires Timely(slots, now)
    ensures var (after, i) := Assign(slots, adr, limit, now);
            Timely(after, now) && (i < |slots| ==> after[i].Used? && after[i].adr == adr && SlotTimely(after[i], now))
  {
    var (after, i) := Assign(slots, adr, limit, now);
    forall k {:trigger after[k]} | 0 <= k < |after| ensures SlotTimely(after[k], now) {
      assert SlotTimely(slots[k], now);
    }
  }

  /** Any limit may be used next. */
  lemma ServeKeepsTimely(slots: seq<Slot>, adr: Address, limit: Limit, now: nat)
    requires limit.Sound() && Timely(slots, now)
    ensures Timely(Serve(slots, adr, limit, now).slots, now)
  {
    var (after, i) := Assign(slots, adr, limit, now);
    var r := Serve(slots, adr, limit, now).slots;
    AssignedTimely(slots, adr, limit, now);
    if i < |slots| {
      AskStaysTimely(after[i].meter, limit, now);
    }
    forall k {:trigger r[k]} | 0 <= k < |r| ensures SlotTimely(r[k], now) {
      assert SlotTimely(after[k], now);
    }
  }

  lemma AskStaysTimely(m: Meter, limit: Limit, now: nat)
    requires limit.Sound() && 0 <= m.level <= 127 && m.last <= now
    ensures 0 <= Ask(m, limit, now).level <= 127 && Ask(m, limit, now).last <= now
  {
    LeakTime(m, limit, now);
    var interval := Narrow(now - m.last);
    if interval >= 0 {
      QuotientBounds(interval, limit.period);
    }
  }

  lemma WithinIsTimely(slots: seq<Slot>, limit: Limit, now: nat)
    requires limit.Sound() && AllWithin(slots, limit, now)
    ensures Timely(slots, now)
  {
    forall k {:trigger slots[k]} | 0 <= k < |slots| ensures SlotTimely(slots[k], now) {
      assert SlotWithin(slots[k], limit, now);
    }
  }

  lemma AssignedWithin(slots: seq<Slot>, adr: Address, limit: Limit, top: Limit, now: nat)
    requires top.Sound() && AllWithin(slots, top, now)
    ensures var (after, i) := Assign(slots, adr, limit, now);
            i < |slots| ==> after[i].Used? && after[i].adr == adr && after[i].meter.Within(top, now)
  {
    var (after, i) := Assign(slots, adr, limit, now);
    if i < |slots| {
      assert SlotWithin(slots[i], top, now);
    }
  }

  ghost predicate Distinct(slots: seq<Slot>) {
    forall i, k :: 0 <= i < k < |slots| && slots[i].Used? && slots[k].Used? ==> slots[i].adr != slots[k].adr
  }

  /** A request under a smaller limit keeps every bucket within the largest. */
  lemma ServeKeeps(slots: seq<Slot>, adr: Address, limit: Limit, top: Limit, now: nat)
    requires Under(limit, top) && AllWithin(slots, top, now) && Timely(slots, now) && Distinct(slots)
    ensures var r := Serve(slots, adr, limit, now);
            |r.slots| == |slots| && AllWithin(r.slots, top, now) && Distinct(r.slots)
  {
    var (after, i) := Assign(slots, adr, limit, now);
    if i < |slots| {
      AssignedWithin(slots, adr, limit, top, now);
      AskUnder(after[i].meter, limit, top, now);
      var r := Serve(slots, adr, limit, now).slots;
      forall k {:trigger r[k]} | 0 <= k < |r| ensures SlotWithin(r[k], top, now) {
        assert k != i ==> SlotWithin(slots[k], top, now);
      }
    }
  }

  // ---- the bound for one address among all ---------------------------------------------

  /** The charge of the address's bucket; an address without one has leaked everything. */
  function ChargeOf(slots: seq<Slot>, adr: Address, top: Limit, now: nat): int {
    var i := Lookup(slots, adr);
    if i < |slots| then Charge(slots[i].meter, top) else now
  }

  datatype Arrival = Arrival(adr: Address, now: nat, limit: Limit)

  /** Times do not go back, and all limits are under the largest. */
  ghost predicate InOrder(start: nat, arrivals: seq<Arrival>, top: Limit)
    decreases |arrivals|
  {
    arrivals == [] || (
      && start <= arrivals[0].now && Under(arrivals[0].limit, top)
      && InOrder(arrivals[0].now, arrivals[1..], top))
  }

  ghost predicate Sane(slots: seq<Slot>, top: Limit, now: nat) {
    top.Sound() && AllWithin(slots, top, now) && Timely(slots, now) && Distinct(slots)
  }

  lemma LaterIsSane(slots: seq<Slot>, top: Limit, now: nat, later: nat)
    requires Sane(slots, top, now) && now <= later
    ensures Sane(slots, top, later)
  {
    forall i {:trigger slots[i]} | 0 <= i < |slots| ensures SlotWithin(slots[i], top, later) {
      assert SlotWithin(slots[i], top, now);
    }
    WithinIsTimely(slots, top, later);
  }

  /** The request takes the bucket of `adr` away for another address. */
  predicate TakesFrom(slots: seq<Slot>, a: Arrival, adr: Address) {
    a.adr != adr && Assign(slots, a.adr, a.limit, a.now).1 == Lookup(slots, adr) < |slots|
  }

  /** What the address had not leaked yet when its bucket was taken away. */
  function Loss(slots: seq<Slot>, a: Arrival, adr: Address, top: Limit): nat {
    if TakesFrom(slots, a, adr) && !Spent(slots[Lookup(slots, adr)].meter, top, a.now)
    then Charge(slots[Lookup(slots, adr)].meter, top) - a.now
    else 0
  }

  /** How many requests of `adr` the pool lets through. */
  ghost function LetThroughFor(slots: seq<Slot>, adr: Address, top: Limit, arrivals: seq<Arrival>, start: nat): nat
    requires Sane(slots, top, start) && InOrder(start, arrivals, top)
    decreases |arrivals|
  {
    if arrivals == [] then 0
    else
      var a := arrivals[0];
      ServeStaysSane(slots, a, top, start);
      var r := Serve(slots, a.adr, a.limit, a.now);
      (if a.adr == adr && !r.denied then 1 else 0) + LetThroughFor(r.slots, adr, top, arrivals[1..], a.now)
  }

  /** The sum of its losses. */
  ghost function LossFor(slots: seq<Slot>, adr: Address, top: Limit, arrivals: seq<Arrival>, start: nat): nat
    requires Sane(slots, top, start) && InOrder(start, arrivals, top)
    decreases |arrivals|
  {
    if arrivals == [] then 0
    else
      var a := arrivals[0];
      ServeStaysSane(slots, a, top, start);
      Loss(slots, a, adr, top) + LossFor(Serve(slots, a.adr, a.limit, a.now).slots, adr, top, arrivals[1..], a.now)
  }

  lemma ServeStaysSane(slots: seq<Slot>, a: Arrival, top: Limit, start: nat)
    requires Sane(slots, top, start) && start <= a.now && Under(a.limit, top)
    ensures Sane(slots, top, a.now) && Sane(Serve(slots, a.adr, a.limit, a.now).slots, top, a.now)
  {
    LaterIsSane(slots, top, start, a.now);
    ServeKeeps(slots, a.adr, a.limit, top, a.now);
    ServeKeepsTimely(slots, a.adr, a.limit, a.now);
  }

  predicate Matches(slot: Slot, adr: Address) {
    slot.Used? && slot.adr == adr
  }

  lemma LookupIs(slots: seq<Slot>, adr: Address, i: nat)
    requires i <= |slots| && (i < |slots| ==> Matches(slots[i], adr))
    requires forall k :: 0 <= k < i ==> !Matches(slots[k], adr)
    ensures Lookup(slots, adr) == i
  {
    var l := Lookup(slots, adr);
    assert l < |slots| ==> Matches(slots[l], adr);
  }

  lemma LookupAfter(slots: seq<Slot>, i: nat, slot: Slot, adr: Address)
    requires i < |slots| && Distinct(slots)
    requires slot.Used? && slot.adr != adr
    ensures var k, l := Lookup(slots, adr), Lookup(slots[i := slot], adr);
            if k == i then l == |slots| else l == k
  {
    var k := Lookup(slots, adr);
    LookupIs(slots[i := slot], adr, if k == i then |slots| else k);
  }

  lemma LookupOwn(slots: seq<Slot>, i: nat, slot: Slot)
    requires i < |slots| && slot.Used?
    requires forall k :: 0 <= k < |slots| && k != i ==> !Matches(slots[k], slot.adr)
    ensures Lookup(slots[i := slot], slot.adr) == i
  {
    LookupIs(slots[i := slot], slot.adr, i);
  }

  lemma AssignsOwn(slots: seq<Slot>, adr: Address, limit: Limit, now: nat)
    requires Distinct(slots)
    ensures var (after, i) := Assign(slots, adr, limit, now);
            i < |slots| ==> forall k :: 0 <= k < |slots| && k != i ==> !Matches(slots[k], adr)
  {
  }

  /** Only a loss lowers the charge of an address, and a request of it that is let through raises it by a period. */
  lemma ServeRaises(slots: seq<Slot>, adr: Address, a: Arrival, top: Limit, before: nat)
    requires Sane(slots, top, before) && before <= a.now && Sane(slots, top, a.now) && Under(a.limit, top)
    ensures var r := Serve(slots, a.adr, a.limit, a.now);
            ChargeOf(r.slots, adr, top, a.now) + Loss(slots, a, adr, top) >=
            ChargeOf(slots, adr, top, before) + if a.adr == adr && !r.denied then top.period else 0
  {
    var (after, i) := Assign(slots, a.adr, a.limit, a.now);
    var r := Serve(slots, a.adr, a.limit, a.now);
    if i < |slots| {
      AssignedWithin(slots, a.adr, a.limit, top, a.now);
      var m := after[i].meter;
      AskUnder(m, a.limit, top, a.now);
      assert r.slots == slots[i := Used(a.adr, Ask(m, a.limit, a.now))];
      if a.adr == adr {
        AssignsOwn(slots, adr, a.limit, a.now);
        LookupOwn(slots, i, Used(adr, Ask(m, a.limit, a.now)));
        assert Charge(Meter(0, a.now), top) == a.now;
      } else {
        LookupAfter(slots, i, Used(a.adr, Ask(m, a.limit, a.now)), adr);
      }
    }
  }

  lemma ChargeIsCapped(slots: seq<Slot>, adr: Address, top: Limit, now: nat)
    requires Sane(slots, top, now)
    ensures ChargeOf(slots, adr, top, now) <= top.burst * top.period + now
  {
    var i := Lookup(slots, adr);
    Grows(0, top.burst, top.period);
    if i < |slots| {
      assert SlotWithin(slots[i], top, now);
      Grows(slots[i].meter.level, top.burst, top.period);
    }
  }

  function LastTime(arrivals: seq<Arrival>, start: nat): nat {
    if arrivals == [] then start else arrivals[|arrivals| - 1].now
  }

  lemma {:induction false} ChargeOfRises(slots: seq<Slot>, adr: Address, top: Limit, arrivals: seq<Arrival>, start: nat)
    requires Sane(slots, top, start) && InOrder(start, arrivals, top)
    ensures ChargeOf(slots, adr, top, start) + LetThroughFor(slots, adr, top, arrivals, start) * top.period <=
            top.burst * top.period + LastTime(arrivals, start) + LossFor(slots, adr, top, arrivals, start)
    decreases |arrivals|
  {
    hide Serve;
    hide Sane;
    hide ChargeOf;
    hide Loss;
    if arrivals == [] {
      ChargeIsCapped(slots, adr, top, start);
    } else {
      var a, rest := arrivals[0], arrivals[1..];
      ServeStaysSane(slots, a, top, start);
      ServeRaises(slots, adr, a, top, start);
      var r := Serve(slots, a.adr, a.limit, a.now);
      ChargeOfRises(r.slots, adr, top, rest, a.now);
      AddUp(LetThroughFor(r.slots, adr, top, rest, a.now), if a.adr == adr && !r.denied then 1 else 0, 0, top.period);
    }
  }

  /** After its first request that is let through the charge of an address is above the time. */
  lemma FirstServed(slots: seq<Slot>, a: Arrival, top: Limit)
    requires Sane(slots, top, a.now) && Under(a.limit, top) && !Serve(slots, a.adr, a.limit, a.now).denied
    ensures ChargeOf(Serve(slots, a.adr, a.limit, a.now).slots, a.adr, top, a.now) > a.now
  {
    var (after, i) := Assign(slots, a.adr, a.limit, a.now);
    AssignedWithin(slots, a.adr, a.limit, top, a.now);
    AssignsOwn(slots, a.adr, a.limit, a.now);
    AskUnder(after[i].meter, a.limit, top, a.now);
    var asked := Used(a.adr, Ask(after[i].meter, a.limit, a.now));
    assert Serve(slots, a.adr, a.limit, a.now).slots == slots[i := asked];
    LookupOwn(slots, i, asked);
  }

  /**
   Whatever limits of one period the requests are under, and whatever the other addresses
   send: in T milliseconds the pool lets n requests of an address through only if
   n * period < (burst + 1) * period + T + loss, where burst is the largest of the limits
   and loss what the address had not leaked when its buckets were taken away.
   */
  lemma {:induction false} AddressBoundWithLoss(slots: seq<Slot>, adr: Address, top: Limit, arrivals: seq<Arrival>,
      start: nat)
    requires Sane(slots, top, start) && InOrder(start, arrivals, top) && arrivals != []
    ensures LetThroughFor(slots, adr, top, arrivals, start) * top.period <
            (top.burst + 1) * top.period + LastTime(arrivals, start) - arrivals[0].now
            + LossFor(slots, adr, top, arrivals, start)
    decreases |arrivals|
  {
    hide Serve;
    hide ChargeOf;
    hide Sane;
    hide Loss;
    var a, rest := arrivals[0], arrivals[1..];
    LastIsLater(a.now, rest, top);
    SoundProduct(slots, top, start);
    ServeStaysSane(slots, a, top, start);
    var r := Serve(slots, a.adr, a.limit, a.now);
    if a.adr == adr && !r.denied {
      FirstServed(slots, a, top);
      ChargeOfRises(r.slots, adr, top, rest, a.now);
      AddUp(LetThroughFor(r.slots, adr, top, rest, a.now), 1, top.burst, top.period);
    } else if rest != [] {
      AddressBoundWithLoss(r.slots, adr, top, rest, a.now);
    }
  }

  lemma SoundProduct(slots: seq<Slot>, top: Limit, now: nat)
    requires Sane(slots, top, now)
    ensures (top.burst + 1) * top.period > 0
  {
    Grows(1, top.burst + 1, top.period);
  }

  lemma {:induction false} LastIsLater(start: nat, arrivals: seq<Arrival>, top: Limit)
    requires InOrder(start, arrivals, top)
    ensures LastTime(arrivals, start) >= start
    decreases |arrivals|
  {
    if arrivals != [] {
      LastIsLater(arrivals[0].now, arrivals[1..], top);
    }
  }

  // ---- runs without loss ------------------------------------------------------------------

  ghost predicate AllFair(arrivals: seq<Arrival>, top: Limit) {
    forall i :: 0 <= i < |arrivals| ==> ReclaimsFairly(arrivals[i].limit, top)
  }

  lemma FairTakesNothing(slots: seq<Slot>, a: Arrival, adr: Address, top: Limit)
    requires Sane(slots, top, a.now) && Under(a.limit, top) && ReclaimsFairly(a.limit, top)
    ensures Loss(slots, a, adr, top) == 0
  {
    if TakesFrom(slots, a, adr) {
      var i := Lookup(slots, adr);
      assert SlotWithin(slots[i], top, a.now);
      ExpiredIsSpent(slots[i].meter, a.limit, top, a.now);
    }
  }

  lemma {:induction false} FairRunsLoseNothing(slots: seq<Slot>, adr: Address, top: Limit, arrivals: seq<Arrival>,
      start: nat)
    requires Sane(slots, top, start) && InOrder(start, arrivals, top) && AllFair(arrivals, top)
    ensures LossFor(slots, adr, top, arrivals, start) == 0
    decreases |arrivals|
  {
    hide Serve;
    hide Sane;
    hide Loss;
    hide ReclaimsFairly;
    if arrivals != [] {
      var a := arrivals[0];
      ServeStaysSane(slots, a, top, start);
      FairTakesNothing(slots, a, adr, top);
      FairRunsLoseNothing(Serve(slots, a.adr, a.limit, a.now).slots, adr, top, arrivals[1..], a.now);
    }
  }

  /** Where all limits reclaim fairly, as under one limit, each address keeps to the bound of a single bucket. */
  lemma AddressBound(slots: seq<Slot>, adr: Address, top: Limit, arrivals: seq<Arrival>, start: nat)
    requires Sane(slots, top, start) && InOrder(start, arrivals, top) && arrivals != [] && AllFair(arrivals, top)
    ensures LetThroughFor(slots, adr, top, arrivals, start) * top.period <
            (top.burst + 1) * top.period + LastTime(arrivals, start) - arrivals[0].now
  {
    FairRunsLoseNothing(slots, adr, top, arrivals, start);
    AddressBoundWithLoss(slots, adr, top, arrivals, start);
  }

  // ---- a run with loss -----------------------------------------------------------------------

  /** What one request can take is less than the periods by which its burst falls short. */
  lemma LossIsBounded(slots: seq<Slot>, a: Arrival, adr: Address, top: Limit)
    requires Sane(slots, top, a.now) && Under(a.limit, top)
    ensures Loss(slots, a, adr, top) > 0 ==>
      Loss(slots, a, adr, top) < top.burst * top.period - a.limit.burst * top.period
  {
    if TakesFrom(slots, a, adr) {
      var m := slots[Lookup(slots, adr)].meter;
      assert SlotWithin(slots[Lookup(slots, adr)], top, a.now);
      Grows(m.level, top.burst, top.period);
      var d := a.now - m.last;
      if Narrow(d) < 0 {
        BackwardsIsLong(d);
      } else {
        assert d % TWO32 <= d;
      }
    }
  }

  lemma {:induction false} BurstInOrder(a: Arrival, k: nat, rest: seq<Arrival>, top: Limit)
    requires Under(a.limit, top) && InOrder(a.now, rest, top)
    ensures InOrder(a.now, Together(a, k) + rest, top)
    decreases k
  {
    if k == 0 {
      assert Together(a, 0) + rest == rest;
    } else {
      assert (Together(a, k) + rest)[1..] == Together(a, k - 1) + rest;
      BurstInOrder(a, k - 1, rest, top);
    }
  }

  /** A bucket of the address at this level, filled at this time. */
  ghost predicate Holds(slots: seq<Slot>, i: nat, adr: Address, level: int, last: nat) {
    i < |slots| && Lookup(slots, adr) == i && slots[i] == Used(adr, Meter(level, last))
  }

  /** While there is room, a request at the same time fills the bucket by one. */
  lemma OneMoreFills(slots: seq<Slot>, i: nat, level: nat, a: Arrival)
    requires a.limit.Sound() && Timely(slots, a.now) && Holds(slots, i, a.adr, level, a.now) && level < a.limit.burst
    ensures var r := Serve(slots, a.adr, a.limit, a.now);
            !r.denied && r.slots == slots[i := Used(a.adr, Meter(level + 1, a.now))]
            && Holds(r.slots, i, a.adr, level + 1, a.now)
  {
    QuotientBelow(0, a.limit.period);
    var filled := Used(a.adr, Meter(level + 1, a.now));
    LookupIs(slots[i := filled], a.adr, i);
  }

  /** So k of them are all let through. */
  lemma {:induction false} BurstFills(slots: seq<Slot>, i: nat, level: nat, a: Arrival, k: nat, rest: seq<Arrival>,
      top: Limit)
    requires Sane(slots, top, a.now) && Under(a.limit, top) && Holds(slots, i, a.adr, level, a.now)
    requires level + k <= a.limit.burst && InOrder(a.now, rest, top) && InOrder(a.now, Together(a, k) + rest, top)
    ensures var filled := slots[i := Used(a.adr, Meter(level + k, a.now))];
            && Sane(filled, top, a.now) && Holds(filled, i, a.adr, level + k, a.now)
            && LetThroughFor(slots, a.adr, top, Together(a, k) + rest, a.now) ==
               k + LetThroughFor(filled, a.adr, top, rest, a.now)
    decreases k
  {
    hide Serve;
    hide Sane;
    if k == 0 {
      assert slots[i := slots[i]] == slots;
      assert Together(a, 0) + rest == rest;
    } else {
      var all := Together(a, k) + rest;
      assert all[1..] == Together(a, k - 1) + rest && all[0] == a;
      ServeStaysSane(slots, a, top, a.now);
      IsTimely(slots, top, a.now);
      OneMoreFills(slots, i, level, a);
      var next := Serve(slots, a.adr, a.limit, a.now).slots;
      BurstInOrder(a, k - 1, rest, top);
      BurstFills(next, i, level + 1, a, k - 1, rest, top);
      assert next[i := Used(a.adr, Meter(level + k, a.now))] == slots[i := Used(a.adr, Meter(level + k, a.now))];
    }
  }

  lemma IsTimely(slots: seq<Slot>, top: Limit, now: nat)
    requires Sane(slots, top, now)
    ensures Timely(slots, now)
  {
  }

  lemma AskNew(limit: Limit, now: nat)
    requires limit.Sound()
    ensures Ask(Meter(0, now), limit, now) == Meter(1, now) && !Denied(Meter(0, now), limit, now)
  {
    QuotientBelow(0, limit.period);
  }

  /** The first request of an address without a bucket makes one. */
  lemma FirstFills(slots: seq<Slot>, i: nat, a: Arrival)
    requires a.limit.Sound() && Timely(slots, a.now)
    requires Lookup(slots, a.adr) == |slots| && FirstAvailable(slots, a.limit, a.now) == i < |slots|
    ensures var r := Serve(slots, a.adr, a.limit, a.now);
            !r.denied && r.slots == slots[i := Used(a.adr, Meter(1, a.now))] && Holds(r.slots, i, a.adr, 1, a.now)
  {
    hide Lookup;
    hide FirstAvailable;
    hide Ask;
    hide Denied;
    AskNew(a.limit, a.now);
    var made := slots[i := Used(a.adr, Meter(0, a.now))];
    var filled := Used(a.adr, Meter(1, a.now));
    assert made[i := filled] == slots[i := filled];
    LookupIs(slots[i := filled], a.adr, i);
  }

  lemma BurstFillsNew(slots: seq<Slot>, i: nat, a: Arrival, k: nat, rest: seq<Arrival>, top: Limit)
    requires Sane(slots, top, a.now) && Under(a.limit, top) && 0 < k <= a.limit.burst
    requires Lookup(slots, a.adr) == |slots| && FirstAvailable(slots, a.limit, a.now) == i < |slots|
    requires InOrder(a.now, rest, top) && InOrder(a.now, Together(a, k) + rest, top)
    ensures var filled := slots[i := Used(a.adr, Meter(k, a.now))];
            && Sane(filled, top, a.now)
            && LetThroughFor(slots, a.adr, top, Together(a, k) + rest, a.now) ==
               k + LetThroughFor(filled, a.adr, top, rest, a.now)
  {
    hide Serve;
    hide Sane;
    hide FirstAvailable;
    var all := Together(a, k) + rest;
    assert all[1..] == Together(a, k - 1) + rest && all[0] == a;
    ServeStaysSane(slots, a, top, a.now);
    IsTimely(slots, top, a.now);
    FirstFills(slots, i, a);
    var next := Serve(slots, a.adr, a.limit, a.now).slots;
    BurstInOrder(a, k - 1, rest, top);
    BurstFills(next, i, 1, a, k - 1, rest, top);
    assert next[i := Used(a.adr, Meter(k, a.now))] == slots[i := Used(a.adr, Meter(k, a.now))];
  }

  // ---- the exact condition for the bound ---------------------------------------------------

  /** No bucket is in use. */
  function Unused(): (r: seq<Slot>)
    ensures |r| == MAX_BUCKETS && forall i :: 0 <= i < |r| ==> r[i] == Free
  {
    seq(MAX_BUCKETS, i => Free)
  }

  lemma UnusedIsSane(top: Limit, now: nat)
    requires top.Sound()
    ensures Sane(Unused(), top, now)
  {
  }

  lemma FirstAvailableIs(slots: seq<Slot>, limit: Limit, now: nat, i: nat)
    requires i <= |slots| && (i < |slots| ==> Available(slots[i], limit, now))
    requires forall k :: 0 <= k < i ==> !Available(slots[k], limit, now)
    ensures FirstAvailable(slots, limit, now) == i
  {
    var f := FirstAvailable(slots, limit, now);
    assert f < |slots| ==> Available(slots[f], limit, now);
  }

  /** The first request of another address makes it a bucket, in place of whichever was there. */
  lemma OtherFills(slots: seq<Slot>, i: nat, a: Arrival, rest: seq<Arrival>, adr: Address, top: Limit, start: nat)
    requires Sane(slots, top, start) && InOrder(start, [a] + rest, top) && a.adr != adr
    requires Lookup(slots, a.adr) == |slots| && FirstAvailable(slots, a.limit, a.now) == i < |slots|
    ensures start <= a.now && Under(a.limit, top) && InOrder(a.now, rest, top)
    ensures var filled := slots[i := Used(a.adr, Meter(1, a.now))];
            && Sane(filled, top, a.now)
            && LetThroughFor(slots, adr, top, [a] + rest, start) == LetThroughFor(filled, adr, top, rest, a.now)
  {
    hide Serve;
    hide Sane;
    hide FirstAvailable;
    var all := [a] + rest;
    assert all[0] == a && all[1..] == rest;
    ServeStaysSane(slots, a, top, start);
    IsTimely(slots, top, a.now);
    FirstFills(slots, i, a);
  }

  /** As soon as a full bucket may be taken away under this limit. */
  function Later(t: nat, limit: Limit): nat
    requires limit.Sound()
  {
    Grows(0, limit.burst, limit.period);
    t + limit.burst * limit.period + 1
  }

  /** Under this limit and a larger one: who sends, who is in the way, and when it starts. */
  datatype Scene = Scene(mine: Address, other: Address, third: Address, limit: Limit, top: Limit, t: nat) {
    ghost predicate Unfair() {
      Under(limit, top) && !ReclaimsFairly(limit, top) && mine != other && mine != third && other != third && t > 0
    }

    function Second(): nat
      requires limit.Sound()
    {
      Later(t, limit)
    }

    function Third(): nat
      requires limit.Sound()
    {
      Later(Second(), limit)
    }

    /** A full burst under the larger limit. */
    function Full(now: nat): seq<Arrival>
      requires top.Sound()
    {
      Together(Arrival(mine, now, top), top.burst)
    }

    /** A request under the smaller limit. */
    function Small(adr: Address, now: nat): Arrival {
      Arrival(adr, now, limit)
    }

    /** The run from the second taking of the bucket on. */
    function Ending(): seq<Arrival>
      requires limit.Sound() && top.Sound()
    {
      [Small(third, Third())] + ([Small(other, Third())] + Full(Third()))
    }

    /** The run from the first taking of the bucket on. */
    function Middle(): seq<Arrival>
      requires limit.Sound() && top.Sound()
    {
      [Small(other, Second())] + (Full(Second()) + Ending())
    }

    /** A full burst, the bucket taken away, another, the bucket taken away again, and a third. */
    function Run(): seq<Arrival>
      requires limit.Sound() && top.Sound()
    {
      Full(t) + Middle()
    }
  }

  lemma RunInOrder(c: Scene)
    requires c.Unfair()
    ensures InOrder(c.Third(), c.Full(c.Third()), c.top) && InOrder(c.Second(), c.Ending(), c.top)
    ensures InOrder(c.Second(), c.Full(c.Second()) + c.Ending(), c.top)
    ensures InOrder(c.t, c.Middle(), c.top) && InOrder(c.t, c.Run(), c.top)
  {
    UnderItself(c);
    hide Under;
    Waits(c);
    assert c.Full(c.Third()) + [] == c.Full(c.Third());
    BurstInOrder(Arrival(c.mine, c.Third(), c.top), c.top.burst, [], c.top);
    var two := [c.Small(c.other, c.Third())] + c.Full(c.Third());
    assert two[1..] == c.Full(c.Third());
    assert c.Ending()[1..] == two;
    BurstInOrder(Arrival(c.mine, c.Second(), c.top), c.top.burst, c.Ending(), c.top);
    assert c.Middle()[1..] == c.Full(c.Second()) + c.Ending();
    BurstInOrder(Arrival(c.mine, c.t, c.top), c.top.burst, c.Middle(), c.top);
  }

  lemma UnderItself(c: Scene)
    requires c.Unfair()
    ensures Under(c.limit, c.top) && Under(c.top, c.top) && c.limit.Sound() && c.top.Sound()
  {
  }

  lemma Waits(c: Scene)
    requires c.limit.Sound()
    ensures c.Second() == c.t + c.limit.burst * c.limit.period + 1
    ensures c.Third() == c.Second() + c.limit.burst * c.limit.period + 1
    ensures c.Second() >= c.t && c.Third() >= c.Second()
  {
    Grows(0, c.limit.burst, c.limit.period);
  }

  /** A full bucket left alone since then may be taken away, and one just made may not. */
  lemma TakenWhenLater(c: Scene, level: int, t: nat, now: nat)
    requires c.Unfair() && t > 0 && now == Later(t, c.limit)
    ensures Expired(Meter(level, t), c.limit, now)
    ensures !Expired(Meter(1, now), c.limit, now) && !Expired(Meter(1, now), c.top, now)
  {
    Grows(0, c.limit.burst, c.limit.period);
    Grows(0, c.top.burst, c.top.period);
    Grows(c.limit.burst + 1, c.top.burst, c.top.period);
    AddUp(0, 0, c.limit.burst, c.top.period);
  }

  /** The pool after the first burst, after another address took its bucket, and so on to the third. */
  function PoolAfter(c: Scene, k: nat): (r: seq<Slot>)
    requires c.limit.Sound()
    ensures |r| == MAX_BUCKETS
  {
    if k == 0 then Unused()
    else if k == 1 then Unused()[0 := Used(c.mine, Meter(c.top.burst, c.t))]
    else if k == 2 then PoolAfter(c, 1)[0 := Used(c.other, Meter(1, c.Second()))]
    else if k == 3 then PoolAfter(c, 2)[1 := Used(c.mine, Meter(c.top.burst, c.Second()))]
    else if k == 4 then PoolAfter(c, 3)[0 := Used(c.third, Meter(1, c.Third()))]
    else PoolAfter(c, 4)[1 := Used(c.other, Meter(1, c.Third()))]
  }

  /** Each request on the way finds its bucket where the run has it. */
  lemma EachHasItsPlace(c: Scene)
    requires c.Unfair()
    ensures Lookup(PoolAfter(c, 0), c.mine) == MAX_BUCKETS && FirstAvailable(PoolAfter(c, 0), c.top, c.t) == 0
    ensures Lookup(PoolAfter(c, 1), c.other) == MAX_BUCKETS && FirstAvailable(PoolAfter(c, 1), c.limit, c.Second()) == 0
    ensures Lookup(PoolAfter(c, 2), c.mine) == MAX_BUCKETS && FirstAvailable(PoolAfter(c, 2), c.top, c.Second()) == 1
    ensures Lookup(PoolAfter(c, 3), c.third) == MAX_BUCKETS && FirstAvailable(PoolAfter(c, 3), c.limit, c.Third()) == 0
    ensures Lookup(PoolAfter(c, 4), c.other) == MAX_BUCKETS && FirstAvailable(PoolAfter(c, 4), c.limit, c.Third()) == 1
    ensures Lookup(PoolAfter(c, 5), c.mine) == MAX_BUCKETS && FirstAvailable(PoolAfter(c, 5), c.top, c.Third()) == 2
  {
    hide Lookup;
    hide FirstAvailable;
    hide Expired;
    hide Later;
    UnderItself(c);
    Waits(c);
    TakenWhenLater(c, c.top.burst, c.t, c.Second());
    TakenWhenLater(c, c.top.burst, c.Second(), c.Third());
    TakenWhenLater(c, 1, c.Second(), c.Third());
    LookupIs(PoolAfter(c, 0), c.mine, MAX_BUCKETS);
    LookupIs(PoolAfter(c, 1), c.other, MAX_BUCKETS);
    LookupIs(PoolAfter(c, 2), c.mine, MAX_BUCKETS);
    LookupIs(PoolAfter(c, 3), c.third, MAX_BUCKETS);
    LookupIs(PoolAfter(c, 4), c.other, MAX_BUCKETS);
    LookupIs(PoolAfter(c, 5), c.mine, MAX_BUCKETS);
    FirstAvailableIs(PoolAfter(c, 0), c.top, c.t, 0);
    FirstAvailableIs(PoolAfter(c, 1), c.limit, c.Second(), 0);
    FirstAvailableIs(PoolAfter(c, 2), c.top, c.Second(), 1);
    FirstAvailableIs(PoolAfter(c, 3), c.limit, c.Third(), 0);
    FirstAvailableIs(PoolAfter(c, 4), c.limit, c.Third(), 1);
    FirstAvailableIs(PoolAfter(c, 5), c.top, c.Third(), 2);
  }

  lemma ThirdBurst(c: Scene)
    requires c.Unfair() && Sane(PoolAfter(c, 3), c.top, c.Second())
    ensures InOrder(c.Second(), c.Ending(), c.top)
    ensures LetThroughFor(PoolAfter(c, 3), c.mine, c.top, c.Ending(), c.Second()) == c.top.burst
  {
    hide Sane;
    hide Lookup;
    hide FirstAvailable;
    hide Later;
    UnderItself(c);
    RunInOrder(c);
    EachHasItsPlace(c);
    var last := c.Full(c.Third());
    OtherFills(PoolAfter(c, 3), 0, c.Small(c.third, c.Third()), [c.Small(c.other, c.Third())] + last, c.mine, c.top,
        c.Second());
    OtherFills(PoolAfter(c, 4), 1, c.Small(c.other, c.Third()), last, c.mine, c.top, c.Third());
    assert last + [] == last;
    BurstFillsNew(PoolAfter(c, 5), 2, Arrival(c.mine, c.Third(), c.top), c.top.burst, [], c.top);
  }

  lemma SecondBurst(c: Scene)
    requires c.Unfair() && Sane(PoolAfter(c, 1), c.top, c.t)
    ensures InOrder(c.t, c.Middle(), c.top)
    ensures LetThroughFor(PoolAfter(c, 1), c.mine, c.top, c.Middle(), c.t) == 2 * c.top.burst
  {
    hide Sane;
    hide Lookup;
    hide FirstAvailable;
    hide Later;
    UnderItself(c);
    RunInOrder(c);
    EachHasItsPlace(c);
    OtherFills(PoolAfter(c, 1), 0, c.Small(c.other, c.Second()), c.Full(c.Second()) + c.Ending(), c.mine, c.top, c.t);
    BurstFillsNew(PoolAfter(c, 2), 1, Arrival(c.mine, c.Second(), c.top), c.top.burst, c.Ending(), c.top);
    ThirdBurst(c);
  }

  /** Three full bursts get through. */
  lemma AllGetThrough(c: Scene)
    requires c.Unfair()
    ensures Sane(Unused(), c.top, c.t) && InOrder(c.t, c.Run(), c.top)
    ensures LetThroughFor(Unused(), c.mine, c.top, c.Run(), c.t) == 3 * c.top.burst
  {
    hide Sane;
    hide Lookup;
    hide FirstAvailable;
    hide Later;
    UnderItself(c);
    UnusedIsSane(c.top, c.t);
    RunInOrder(c);
    EachHasItsPlace(c);
    BurstFillsNew(Unused(), 0, Arrival(c.mine, c.t, c.top), c.top.burst, c.Middle(), c.top);
    SecondBurst(c);
  }

  /** What three bursts come to, where the smaller limit does not reclaim fairly. */
  lemma ThreeBursts(b: int, burst: int, p: int)
    requires 0 <= b <= burst && p > 0 && b * p + 1 < burst * p
    ensures 3 * burst * p >= (burst + 1) * p + 2 * (b * p + 1)
  {
    if burst <= b + 1 {
      assert burst * p == b * p + p || burst == b;
    } else {
      Grows(2, burst - b, p);
      Regroup(burst, b, p);
    }
    assert 3 * burst * p == 3 * (burst * p);
    AddUp(0, 0, burst, p);
  }

  /** Whatever limits of the two a run is under, on every pool each address keeps to the bound of a single bucket. */
  ghost predicate MixKeepsBound(limit: Limit, top: Limit) {
    forall slots, adr, arrivals: seq<Arrival>, start {:trigger LetThroughFor(slots, adr, top, arrivals, start)} ::
      |slots| == MAX_BUCKETS && Sane(slots, top, start) && InOrder(start, arrivals, top) && arrivals != []
      && Mixes(arrivals, limit, top) ==>
        LetThroughFor(slots, adr, top, arrivals, start) * top.period <
        (top.burst + 1) * top.period + LastTime(arrivals, start) - arrivals[0].now
  }

  ghost predicate Mixes(arrivals: seq<Arrival>, limit: Limit, top: Limit) {
    forall i :: 0 <= i < |arrivals| ==> arrivals[i].limit == limit || arrivals[i].limit == top
  }

  /**
   Where the smaller limit does not reclaim fairly, three full larger bursts of an address
   get through in twice the time the smaller one takes to leak, from the empty pool on:
   more than the bound of a single bucket allows.
   */
  lemma MixedLimitsLoosen(c: Scene)
    requires c.Unfair()
    ensures Sane(Unused(), c.top, c.t) && InOrder(c.t, c.Run(), c.top) && Mixes(c.Run(), c.limit, c.top)
    ensures c.Run() != [] && LetThroughFor(Unused(), c.mine, c.top, c.Run(), c.t) == 3 * c.top.burst
    ensures 3 * c.top.burst * c.top.period >=
            (c.top.burst + 1) * c.top.period + LastTime(c.Run(), c.t) - c.Run()[0].now
  {
    hide Sane;
    AllGetThrough(c);
    Waits(c);
    ThreeBursts(c.limit.burst, c.top.burst, c.top.period);
    var last := c.Full(c.Third());
    assert c.Run()[|c.Run()| - 1] == last[|last| - 1] && c.Run()[0] == c.Full(c.t)[0];
  }

  /** Runs that mix two limits of one period keep to the bound exactly when the smaller one reclaims fairly. */
  lemma MixKeepsBoundExactly(limit: Limit, top: Limit)
    requires Under(limit, top)
    ensures MixKeepsBound(limit, top) <==> ReclaimsFairly(limit, top)
  {
    if ReclaimsFairly(limit, top) {
      forall slots, adr, arrivals: seq<Arrival>, start {:trigger LetThroughFor(slots, adr, top, arrivals, start)} |
        |slots| == MAX_BUCKETS && Sane(slots, top, start) && InOrder(start, arrivals, top) && arrivals != []
        && Mixes(arrivals, limit, top)
        ensures LetThroughFor(slots, adr, top, arrivals, start) * top.period <
                (top.burst + 1) * top.period + LastTime(arrivals, start) - arrivals[0].now
      {
        assert AllFair(arrivals, top);
        AddressBound(slots, adr, top, arrivals, start);
      }
    } else {
      var c := Scene(Address(1, 0, 0, 0), Address(2, 0, 0, 0), Address(3, 0, 0, 0), limit, top, 1);
      MixedLimitsLoosen(c);
      hide Sane;
      hide InOrder;
      assert !(LetThroughFor(Unused(), c.mine, top, c.Run(), c.t) * top.period <
               (top.burst + 1) * top.period + LastTime(c.Run(), c.t) - c.Run()[0].now);
    }
  }
}
