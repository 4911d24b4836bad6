/**
 The leaky bucket of the rate limiter (code/ratelimiter.cpp, 67-141): how many requests
 one bucket lets through in any stretch of time, and what taking an expired bucket away
 does to that.

 Times are milliseconds and never go back. The program keeps an interval in 32 bits.
 */
module RateLimit {

  const TWO31: int := 0x8000_0000
  const TWO32: int := 0x1_0000_0000

  /** The value a 64-bit difference has once it is stored in a 32-bit int. */
  function Narrow(n: int): (r: int)
    ensures -TWO31 <= r < TWO31
    ensures 0 <= n < TWO31 ==> r == n
  {
    var low := n % TWO32;
    if low < TWO31 then low else low - TWO32
  }

  /** Division that truncates toward zero. */
  function Quotient(a: int, b: int): int
    requires b > 0
  {
    if a >= 0 then a / b else -((-a) / b)
  }

  function Remainder(a: int, b: int): int
    requires b > 0
  {
    a - Quotient(a, b) * b
  }

  /** Limit and period; the level is a signed char and burst * period an int. */
  datatype Limit = Limit(burst: int, period: int) {
    predicate Sound() {
      1 <= burst <= 127 && period > 0 && burst * period < TWO31
    }
  }

  /** What a bucket remembers: how full it is, and up to when it has leaked. */
  datatype Meter = Meter(level: int, last: nat) {
    predicate Within(limit: Limit, now: nat) {
      0 <= level <= limit.burst && last <= now
    }
  }

  /** The bucket after the leak up to now. */
  function Leak(m: Meter, limit: Limit, now: nat): Meter
    requires limit.period > 0 && m.level >= 0 && m.last <= now
  {
    var interval := Narrow(now - m.last);
    var expired := Quotient(interval, limit.period);
    if expired > m.level || interval < 0 then Meter(0, now)
    else
      LeakTime(m, limit, now);
      Meter(m.level - expired, now - Remainder(interval, limit.period))
  }

  predicate Denied(m: Meter, limit: Limit, now: nat)
    requires limit.period > 0 && m.level >= 0 && m.last <= now
  {
    Leak(m, limit, now).level >= limit.burst
  }

  /** The bucket after a request. */
  function Ask(m: Meter, limit: Limit, now: nat): Meter
    requires limit.period > 0 && m.level >= 0 && m.last <= now
  {
    var leaked := Leak(m, limit, now);
    if leaked.level < limit.burst then leaked.(level := leaked.level + 1) else leaked
  }

  lemma LeakTime(m: Meter, limit: Limit, now: nat)
    requires limit.period > 0 && m.last <= now
    ensures var interval := Narrow(now - m.last);
            interval >= 0 ==>
                && 0 <= Remainder(interval, limit.period) < limit.period
                && Remainder(interval, limit.period) <= interval <= now - m.last
  {
    var d := now - m.last;
    assert d % TWO32 <= d;
    var interval := Narrow(d);
    if interval >= 0 {
      QuotientBounds(interval, limit.period);
    }
  }

  lemma QuotientBounds(a: nat, b: nat)
    requires b > 0
    ensures 0 <= Quotient(a, b)
    ensures 0 <= Remainder(a, b) < b && Remainder(a, b) <= a
  {
    assert a == a / b * b + a % b;
    var q := a / b;
    assert q * b >= 0;
  }

  // ---- the window bound ----------------------------------------------------------

  /** Level and time in one number: it rises by a period with each request let through and never falls. */
  function Charge(m: Meter, limit: Limit): int {
    m.level * limit.period + m.last
  }

  lemma LeakKeepsCharge(m: Meter, limit: Limit, now: nat)
    requires limit.Sound() && m.Within(limit, now)
    ensures var r := Leak(m, limit, now);
            && r.Within(limit, now)
            && Charge(r, limit) >= Charge(m, limit)
            && now - limit.period < r.last <= now
  {
    var d := now - m.last;
    var interval := Narrow(d);
    LeakTime(m, limit, now);
    var p := limit.period;
    var expired := Quotient(interval, p);
    if interval < 0 {
      BackwardsIsLong(d);
      Grows(m.level, limit.burst, p);
    } else {
      QuotientBounds(interval, p);
      if expired > m.level {
        Grows(m.level, expired, p);
      } else {
        Regroup(m.level, expired, p);
      }
    }
  }

  lemma BackwardsIsLong(d: nat)
    requires Narrow(d) < 0
    ensures d >= TWO31
  {
  }

  lemma Grows(a: int, b: int, p: int)
    requires 0 <= a <= b && p > 0
    ensures a * p <= b * p
  {
  }

  lemma Regroup(a: int, b: int, p: int)
    ensures (a - b) * p == a * p - b * p
  {
  }

  lemma AskStaysWithin(m: Meter, limit: Limit, now: nat)
    requires limit.Sound() && m.Within(limit, now)
    ensures Ask(m, limit, now).Within(limit, now)
    ensures Charge(Ask(m, limit, now), limit) >= Charge(m, limit) + if Denied(m, limit, now) then 0 else limit.period
  {
    LeakKeepsCharge(m, limit, now);
    Regroup(Leak(m, limit, now).level, -1, limit.period);
  }

  /** After a request at `now` the charge is above now - period, and above now if it was let through. */
  lemma FirstCharge(m: Meter, limit: Limit, now: nat)
    requires limit.Sound() && m.Within(limit, now)
    ensures Charge(Ask(m, limit, now), limit) > now - limit.period + if Denied(m, limit, now) then 0 else limit.period
  {
    LeakKeepsCharge(m, limit, now);
    var leaked := Leak(m, limit, now);
    Regroup(leaked.level, -1, limit.period);
    Grows(0, leaked.level, limit.period);
  }

  // ---- requests under different limits -------------------------------------------------

  /** A limit of the same period and no larger burst. */
  predicate Under(limit: Limit, top: Limit) {
    limit.Sound() && top.Sound() && limit.period == top.period && limit.burst <= top.burst
  }

  /** A request under a smaller limit leaks and charges like one under the largest. */
  lemma AskUnder(m: Meter, limit: Limit, top: Limit, now: nat)
    requires Under(limit, top) && m.Within(top, now)
    ensures Ask(m, limit, now).Within(top, now)
    ensures Charge(Ask(m, limit, now), top) >= Charge(m, top) + if Denied(m, limit, now) then 0 else top.period
    ensures Charge(Ask(m, limit, now), top) > now - top.period + if Denied(m, limit, now) then 0 else top.period
  {
    assert Leak(m, limit, now) == Leak(m, top, now);
    LeakKeepsCharge(m, top, now);
    var leaked := Leak(m, top, now);
    Regroup(leaked.level, -1, top.period);
    Grows(0, leaked.level, top.period);
  }

  ghost predicate Rising(start: nat, times: seq<nat>)
    decreases |times|
  {
    times == [] || (start <= times[0] && Rising(times[0], times[1..]))
  }

  /** Requests of these times that one bucket lets through. */
  ghost function LetThrough(m: Meter, limit: Limit, times: seq<nat>, start: nat): nat
    requires limit.Sound() && m.Within(limit, start) && Rising(start, times)
    decreases |times|
  {
    if times == [] then 0
    else
      AskStaysWithin(m, limit, times[0]);
      (if Denied(m, limit, times[0]) then 0 else 1) + LetThrough(Ask(m, limit, times[0]), limit, times[1..], times[0])
  }

  lemma {:induction false} ChargeRises(m: Meter, limit: Limit, times: seq<nat>, start: nat)
    requires limit.Sound() && m.Within(limit, start) && Rising(start, times)
    ensures Charge(m, limit) + LetThrough(m, limit, times, start) * limit.period <=
            limit.burst * limit.period + (if times == [] then start else times[|times| - 1])
    decreases |times|
  {
    if times == [] {
      Grows(m.level, limit.burst, limit.period);
    } else {
      AskStaysWithin(m, limit, times[0]);
      ChargeRises(Ask(m, limit, times[0]), limit, times[1..], times[0]);
      Regroup(LetThrough(m, limit, times, start), if Denied(m, limit, times[0]) then 0 else 1, limit.period);
    }
  }

  /** In T milliseconds a bucket lets through n requests only if n * period < (burst + 1) * period + T. */
  lemma WindowBound(m: Meter, limit: Limit, times: seq<nat>, start: nat)
    requires limit.Sound() && m.Within(limit, start) && Rising(start, times) && times != []
    ensures LetThrough(m, limit, times, start) * limit.period <
            (limit.burst + 1) * limit.period + times[|times| - 1] - times[0]
  {
    var first := times[0];
    AskStaysWithin(m, limit, first);
    FirstCharge(m, limit, first);
    var asked := Ask(m, limit, first);
    ChargeRises(asked, limit, times[1..], first);
    AddUp(LetThrough(asked, limit, times[1..], first), if Denied(m, limit, first) then 0 else 1, limit.burst,
        limit.period);
  }

  lemma AddUp(rest: int, one: int, burst: int, p: int)
    ensures (rest + one) * p == rest * p + one * p && (burst + 1) * p == burst * p + p
  {
  }

  /** The bucket after requests at these times. */
  ghost function After(m: Meter, limit: Limit, times: seq<nat>, start: nat): (r: Meter)
    requires limit.Sound() && m.Within(limit, start) && Rising(start, times)
    ensures r.Within(limit, if times == [] then start else times[|times| - 1])
    decreases |times|
  {
    if times == [] then m
    else
      AskStaysWithin(m, limit, times[0]);
      After(Ask(m, limit, times[0]), limit, times[1..], times[0])
  }

  // ---- waiting ---------------------------------------------------------------------

  /** A request is denied exactly when the bucket is full and the low 32 bits of its age are below a period. */
  lemma DeniedExactly(m: Meter, limit: Limit, now: nat)
    requires limit.Sound() && m.Within(limit, now)
    ensures Denied(m, limit, now) <==> m.level == limit.burst && (now - m.last) % TWO32 < limit.period
  {
    var d := now - m.last;
    var interval := Narrow(d);
    Grows(1, limit.burst, limit.period);
    LeakTime(m, limit, now);
    if interval >= 0 {
      assert interval == d % TWO32;
      QuotientBelow(interval, limit.period);
    }
  }

  lemma QuotientBelow(a: nat, b: nat)
    requires b > 0
    ensures Quotient(a, b) == 0 <==> a < b
    ensures Quotient(a, b) >= 0
  {
    QuotientBounds(a, b);
  }

  /** A pause whose low 32 bits are at least a period, and as far from 2^32. */
  predicate LongEnough(limit: Limit, pause: nat) {
    limit.period <= pause % TWO32 <= TWO32 - limit.period
  }

  /** After a request before the pause, the one after it is let through. */
  ghost predicate Answered(m: Meter, limit: Limit, before: nat, pause: nat)
    requires limit.Sound() && m.Within(limit, before)
  {
    AskStaysWithin(m, limit, before);
    !Denied(Ask(m, limit, before), limit, before + pause)
  }

  /** Such a pause is answered, whatever the bucket was like. */
  lemma PauseIsAnswered(m: Meter, limit: Limit, before: nat, pause: nat)
    requires limit.Sound() && m.Within(limit, before) && LongEnough(limit, pause)
    ensures Answered(m, limit, before, pause)
  {
    var now := before + pause;
    var asked := Ask(m, limit, before);
    LeakKeepsCharge(m, limit, before);
    AskStaysWithin(m, limit, before);
    DeniedExactly(asked, limit, now);
    LowBits(pause, before - asked.last);
  }

  /** The low bits of a sum that does not carry. */
  lemma LowBits(a: nat, b: nat)
    requires a % TWO32 + b < TWO32
    ensures (a + b) % TWO32 == a % TWO32 + b
  {
  }

  /** After any other pause it is denied to a full bucket that had leaked up to this much before the last request. */
  function Lag(limit: Limit, pause: nat): nat
    requires limit.Sound() && !LongEnough(limit, pause)
  {
    if pause % TWO32 < limit.period then 0 else TWO32 - pause % TWO32
  }

  lemma LagIsLow(limit: Limit, pause: nat)
    requires limit.Sound() && !LongEnough(limit, pause)
    ensures Lag(limit, pause) < limit.period && (pause + Lag(limit, pause)) % TWO32 < limit.period
  {
  }

  lemma OtherPauseIsDenied(limit: Limit, pause: nat, before: nat)
    requires limit.Sound() && !LongEnough(limit, pause) && before >= limit.period
    ensures var lag := Lag(limit, pause);
            lag <= before && var m := Meter(limit.burst, before - lag);
            m.Within(limit, before) && !Answered(m, limit, before, pause)
  {
    hide Lag;
    hide LongEnough;
    LagIsLow(limit, pause);
    var lag := Lag(limit, pause);
    var m := Meter(limit.burst, before - lag);
    Grows(1, limit.burst, limit.period);
    QuotientBelow(lag, limit.period);
    assert Ask(m, limit, before) == m;
    DeniedExactly(m, limit, before + pause);
  }

  /** A pause after which every bucket lets a request through. */
  ghost predicate AlwaysAnswered(limit: Limit, pause: nat)
    requires limit.Sound()
  {
    forall m: Meter, before: nat :: m.Within(limit, before) ==> Answered(m, limit, before, pause)
  }

  /** Exactly the pauses that are long enough in their low 32 bits are. */
  lemma PauseIsAnsweredExactly(limit: Limit, pause: nat)
    requires limit.Sound()
    ensures AlwaysAnswered(limit, pause) <==> LongEnough(limit, pause)
  {
    hide Answered;
    hide LongEnough;
    if LongEnough(limit, pause) {
      forall m: Meter, before: nat | m.Within(limit, before)
        ensures Answered(m, limit, before, pause)
      {
        PauseIsAnswered(m, limit, before, pause);
      }
    } else {
      OtherPauseIsDenied(limit, pause, limit.period);
    }
  }

  /** k requests at one time, given by the time or with all that belongs to a request. */
  function Together<T>(t: T, k: nat): (r: seq<T>)
    ensures |r| == k && forall i :: 0 <= i < k ==> r[i] == t
  {
    seq(k, i => t)
  }

  /** After k <= burst requests at one time a new bucket holds k. */
  lemma {:induction false} Filled(limit: Limit, t: nat, k: nat)
    requires limit.Sound() && k <= limit.burst
    ensures Rising(t, Together(t, k)) && After(Meter(0, t), limit, Together(t, k), t) == Meter(k, t)
  {
    FilledFrom(limit, t, 0, k);
  }

  lemma {:induction false} FilledFrom(limit: Limit, t: nat, level: nat, k: nat)
    requires limit.Sound() && level + k <= limit.burst
    ensures Rising(t, Together(t, k)) && After(Meter(level, t), limit, Together(t, k), t) == Meter(level + k, t)
    decreases k
  {
    if k > 0 {
      var times := Together(t, k);
      assert times[1..] == Together(t, k - 1);
      QuotientBelow(0, limit.period);
      assert Ask(Meter(level, t), limit, t) == Meter(level + 1, t);
      FilledFrom(limit, t, level + 1, k - 1);
    }
  }

  /** Every limit has such a pause: a full bucket left alone for 2^32 ms still denies. */
  lemma LongPauseIsDenied(limit: Limit, t: nat)
    requires limit.Sound()
    ensures var times := Together(t, limit.burst);
            && Rising(t, times)
            && Denied(After(Meter(0, t), limit, times, t), limit, t + TWO32)
            && TWO32 >= limit.period
  {
    Filled(limit, t, limit.burst);
    Grows(1, limit.burst, limit.period);
    DeniedExactly(Meter(limit.burst, t), limit, t + TWO32);
  }

  // ---- taking a bucket away ----------------------------------------------------------

  /** The program may take this bucket away. */
  predicate Expired(m: Meter, limit: Limit, now: nat) {
    var interval := Narrow(now - m.last);
    m.last > 0 && (interval > limit.burst * limit.period || interval < 0)
  }

  /** The bucket has leaked all it held. */
  predicate Spent(m: Meter, limit: Limit, now: nat) {
    Charge(m, limit) <= now
  }

  /** What taking a bucket away under `limit` can lose of one filled under `top` is nothing. */
  predicate ReclaimsFairly(limit: Limit, top: Limit) {
    limit.burst * top.period + 1 >= top.burst * top.period
  }

  /** Under one limit, or two that differ this little, a bucket that may be taken away has leaked all it held. */
  lemma ExpiredIsSpent(m: Meter, limit: Limit, top: Limit, now: nat)
    requires Under(limit, top) && ReclaimsFairly(limit, top)
    requires m.Within(top, now) && Expired(m, limit, now)
    ensures Spent(m, top, now)
  {
    var d := now - m.last;
    Grows(m.level, top.burst, top.period);
    if Narrow(d) < 0 {
      BackwardsIsLong(d);
    } else {
      assert d % TWO32 <= d;
    }
  }

  /** Under a smaller limit than that a full bucket may be taken away too early. */
  lemma EarlyReclaim(limit: Limit, top: Limit, t: nat)
    requires Under(limit, top) && !ReclaimsFairly(limit, top) && t > 0
    ensures var now := t + limit.burst * limit.period + 1;
            var m := Meter(top.burst, t);
            m.Within(top, now) && Expired(m, limit, now) && !Spent(m, top, now)
  {
    Grows(0, limit.burst, limit.period);
  }

  /** Whether a limit may take away only what has leaked, for every bucket at every time. */
  ghost predicate TakesOnlySpent(limit: Limit, top: Limit) {
    forall m: Meter, now: nat {:trigger Expired(m, limit, now)} ::
      m.Within(top, now) && Expired(m, limit, now) ==> Spent(m, top, now)
  }

  /**
   A limit takes away only buckets that have leaked all they held exactly when its burst is that
   close to the largest.
   */
  lemma ReclaimIsFairExactly(limit: Limit, top: Limit)
    requires Under(limit, top)
    ensures TakesOnlySpent(limit, top) <==> ReclaimsFairly(limit, top)
  {
    if ReclaimsFairly(limit, top) {
      forall m: Meter, now: nat {:trigger Expired(m, limit, now)} | m.Within(top, now) && Expired(m, limit, now)
        ensures Spent(m, top, now)
      {
        ExpiredIsSpent(m, limit, top, now);
      }
    } else {
      EarlyReclaim(limit, top, 1);
    }
  }
}
