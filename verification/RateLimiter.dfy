/** The token bucket. Times are in nanoseconds; it counts in whole seconds. */
module RateLimiter {

  const SECOND := 1_000_000_000

  datatype Bucket = Bucket(capacity: nat, tokens: nat, refillRate: nat, lastRefill: nat)

  function Seconds(from: nat, to: nat): (s: nat)
    ensures from <= to ==> s * SECOND <= to - from < (s + 1) * SECOND
  {
    if from <= to then (to - from) / SECOND else 0
  }

  function Min(a: nat, b: nat): nat {
    if a <= b then a else b
  }

  function Refilled(b: Bucket, now: nat): Bucket {
    var newTokens := Seconds(b.lastRefill, now) * b.refillRate;
    if newTokens > 0 then b.(tokens := Min(b.capacity, b.tokens + newTokens), lastRefill := now) else b
  }

  predicate Grants(b: Bucket, now: nat) {
    Refilled(b, now).tokens > 0
  }

  function After(b: Bucket, now: nat): Bucket {
    var r := Refilled(b, now);
    if r.tokens > 0 then r.(tokens := r.tokens - 1) else r
  }

  function New(capacity: nat, refillRate: nat, now: nat): Bucket {
    Bucket(capacity, capacity, refillRate, now)
  }

  /** The bucket after the first `k` calls, at any times. */
  function StateAfter(b: Bucket, times: seq<nat>, k: nat): Bucket
    requires k <= |times|
  {
    if k == 0 then b else After(StateAfter(b, times, k - 1), times[k - 1])
  }

  /** How many of the calls `i` to `j - 1` are granted. */
  function Granted(b: Bucket, times: seq<nat>, i: nat, j: nat): nat
    requires i <= j <= |times|
  {
    if i == j then 0
    else Granted(b, times, i, j - 1) + if Grants(StateAfter(b, times, j - 1), times[j - 1]) then 1 else 0
  }

  ghost predicate InTime(start: nat, times: seq<nat>) {
    && (forall k :: 0 <= k < |times| ==> start <= times[k])
    && (forall k, l :: 0 <= k < l < |times| ==> times[k] <= times[l])
  }

  lemma SecondsAdd(a: nat, b: nat, c: nat)
    requires a <= b <= c
    ensures Seconds(a, b) + Seconds(b, c) <= Seconds(a, c)
  {}

  /** The length of a window in seconds, rounded up. */
  function Ceiling(from: nat, to: nat): (s: nat)
    ensures from <= to ==> Seconds(from, to) <= s <= Seconds(from, to) + 1
    ensures from <= to ==> to - from <= s * SECOND < to - from + SECOND
  {
    if from <= to then (to - from + SECOND - 1) / SECOND else 0
  }

  /** Whole seconds that start up to a second earlier are no more than that. */
  lemma SecondsEarlier(last: nat, a: nat, now: nat)
    requires last <= a <= now && a < last + SECOND
    ensures Seconds(last, now) <= Ceiling(a, now)
  {}

  lemma CeilingAdds(a: nat, b: nat, c: nat)
    requires a <= b <= c
    ensures Ceiling(a, b) + Seconds(b, c) <= Ceiling(a, c)
  {}

  lemma Distribute(rate: nat, x: nat, y: nat, z: nat)
    requires x + y <= z
    ensures rate * x + y * rate <= rate * z
  {}

  lemma MulMonotone(rate: nat, x: nat, y: nat)
    requires x <= y
    ensures rate * x <= rate * y
  {}

  /** What a bucket knows of its past: never more than its capacity, last refilled no later than the last call. */
  lemma {:induction false} StaysBounded(capacity: nat, rate: nat, start: nat, times: seq<nat>, k: nat)
    requires InTime(start, times) && k <= |times|
    ensures var s := StateAfter(New(capacity, rate, start), times, k);
            && s.capacity == capacity && s.refillRate == rate && s.tokens <= capacity
            && start <= s.lastRefill
            && (k == 0 ==> s.lastRefill == start)
            && (k > 0 ==> s.lastRefill <= times[k - 1])
  {
    if k > 0 {
      StaysBounded(capacity, rate, start, times, k - 1);
    }
  }

  /** A refill adds what the whole seconds since the last one bring, up to the capacity, and takes nothing away. */
  lemma RefillAdds(b: Bucket, now: nat)
    requires b.tokens <= b.capacity && b.lastRefill <= now
    ensures var r, more := Refilled(b, now), b.tokens + b.refillRate * ((now - b.lastRefill) / 1_000_000_000);
            && r.tokens == (if more <= b.capacity then more else b.capacity)
            && r.lastRefill == (if more > b.tokens then now else b.lastRefill)
            && r.capacity == b.capacity && r.refillRate == b.refillRate
  {
    hide SECOND;
    var e := Seconds(b.lastRefill, now);
    SecondsIs(b.lastRefill, now);
    assert e * b.refillRate == b.refillRate * e;
  }

  lemma SecondsIs(from: nat, to: nat)
    requires from <= to
    ensures Seconds(from, to) == (to - from) / 1_000_000_000
  {}

  /** Tokens leave by grants alone: nobody is refused before the whole capacity has been granted. */
  lemma {:induction false} RefusedOnlyWhenSpent(capacity: nat, rate: nat, start: nat, times: seq<nat>, k: nat)
    requires InTime(start, times) && k <= |times|
    ensures StateAfter(New(capacity, rate, start), times, k).tokens + Granted(New(capacity, rate, start), times, 0, k) >= capacity
    ensures k < |times| && !Grants(StateAfter(New(capacity, rate, start), times, k), times[k]) ==>
              Granted(New(capacity, rate, start), times, 0, k) >= capacity
  {
    var b := New(capacity, rate, start);
    if k > 0 {
      RefusedOnlyWhenSpent(capacity, rate, start, times, k - 1);
      StaysBounded(capacity, rate, start, times, k - 1);
      RefillAdds(StateAfter(b, times, k - 1), times[k - 1]);
    }
    if k < |times| {
      StaysBounded(capacity, rate, start, times, k);
      RefillAdds(StateAfter(b, times, k), times[k]);
    }
  }

  // ----- a second never brings more than the capacity -----

  /** The rate that shows. */
  function Effective(capacity: nat, rate: nat): (r: nat)
    ensures r <= rate && r <= capacity
  {
    Min(rate, capacity)
  }

  lemma SameStep(s: Bucket, t: Bucket, now: nat)
    requires s.tokens <= s.capacity && t == s.(refillRate := Effective(s.capacity, s.refillRate), lastRefill := t.lastRefill)
    requires s.capacity > 0 ==> s.lastRefill == t.lastRefill
    ensures Grants(s, now) == Grants(t, now)
    ensures var u, v := After(s, now), After(t, now);
            && u.tokens <= u.capacity && v == u.(refillRate := t.refillRate, lastRefill := v.lastRefill)
            && u.capacity == s.capacity && u.refillRate == s.refillRate
            && (s.capacity > 0 ==> u.lastRefill == v.lastRefill)
  {
    var e := Seconds(s.lastRefill, now);
    if s.capacity > 0 && e > 0 {
      AtLeastOnce(e, s.refillRate);
      AtLeastOnce(e, t.refillRate);
    }
  }

  lemma AtLeastOnce(e: nat, rate: nat)
    requires e > 0
    ensures e * rate >= rate
  {}

  /** A bucket that refills faster than its capacity grants the same calls as one that just fills up. */
  lemma {:induction false} OnlyEffectiveRateShows(capacity: nat, rate: nat, start: nat, times: seq<nat>, i: nat, j: nat)
    requires i <= j <= |times|
    ensures var b, d := New(capacity, rate, start), New(capacity, Effective(capacity, rate), start);
            && Granted(b, times, i, j) == Granted(d, times, i, j)
            && var s, t := StateAfter(b, times, j), StateAfter(d, times, j);
               && s.capacity == capacity && s.refillRate == rate && s.tokens <= capacity
               && t == s.(refillRate := Effective(capacity, rate), lastRefill := t.lastRefill)
               && (capacity > 0 ==> s.lastRefill == t.lastRefill)
    decreases j
  {
    hide After, Grants, Effective;
    if j > 0 {
      var b, d := New(capacity, rate, start), New(capacity, Effective(capacity, rate), start);
      OnlyEffectiveRateShows(capacity, rate, start, times, if i < j then i else j - 1, j - 1);
      SameStep(StateAfter(b, times, j - 1), StateAfter(d, times, j - 1), times[j - 1]);
    }
  }

  lemma StartStep(s: Bucket, granted: nat, start: nat, now: nat)
    requires s.tokens + granted <= s.capacity + s.refillRate * Seconds(start, s.lastRefill)
    requires start <= s.lastRefill <= now
    ensures var r := After(s, now);
            r.tokens + granted + (if Grants(s, now) then 1 else 0) <= r.capacity + r.refillRate * Seconds(start, r.lastRefill)
  {
    SecondsAdd(start, s.lastRefill, now);
    Distribute(s.refillRate, Seconds(start, s.lastRefill), Seconds(s.lastRefill, now), Seconds(start, now));
  }

  lemma {:induction false} GrantedFromStart(capacity: nat, rate: nat, start: nat, times: seq<nat>, k: nat)
    requires InTime(start, times) && k <= |times|
    ensures var b := New(capacity, rate, start);
            var s := StateAfter(b, times, k);
            && s.capacity == capacity && s.refillRate == rate
            && s.tokens + Granted(b, times, 0, k) <= capacity + rate * Seconds(start, s.lastRefill)
  {
    hide After, Grants;
    var b := New(capacity, rate, start);
    StaysBounded(capacity, rate, start, times, k);
    if k > 0 {
      GrantedFromStart(capacity, rate, start, times, k - 1);
      StaysBounded(capacity, rate, start, times, k - 1);
      StartStep(StateAfter(b, times, k - 1), Granted(b, times, 0, k - 1), start, times[k - 1]);
    }
  }

  /**
   * In the first T seconds at most capacity + rate * floor(T) calls are granted, however they come;
   * and of the rate only what the capacity can hold counts.
   */
  lemma AtMostFromStart(capacity: nat, rate: nat, start: nat, times: seq<nat>, end: nat)
    requires InTime(start, times) && start <= end && forall k :: 0 <= k < |times| ==> times[k] <= end
    ensures var granted := Granted(New(capacity, rate, start), times, 0, |times|);
            && granted <= capacity + Effective(capacity, rate) * Seconds(start, end)
            && granted <= capacity + rate * Seconds(start, end)
  {
    hide Granted, StateAfter, Effective;
    var r := Effective(capacity, rate);
    OnlyEffectiveRateShows(capacity, rate, start, times, 0, |times|);
    GrantedFromStart(capacity, r, start, times, |times|);
    StaysBounded(capacity, r, start, times, |times|);
    var s := StateAfter(New(capacity, r, start), times, |times|);
    SecondsAdd(start, s.lastRefill, end);
    MulMonotone(r, Seconds(start, s.lastRefill), Seconds(start, end));
    MulMonotone(Seconds(start, end), r, rate);
  }

  /** Inside a window: before its first refill only what was there, afterwards what its length rounded up brings. */
  ghost predicate WindowBound(s: Bucket, granted: nat, from: nat) {
    if s.lastRefill < from then
      && s.tokens + granted <= s.capacity
      && (granted > 0 && s.refillRate > 0 ==> from < s.lastRefill + SECOND)
    else s.tokens + granted <= s.capacity + s.refillRate * Ceiling(from, s.lastRefill)
  }

  lemma WindowStep(s: Bucket, granted: nat, from: nat, now: nat)
    requires WindowBound(s, granted, from) && from <= now && s.lastRefill <= now && s.tokens <= s.capacity
    ensures WindowBound(After(s, now), granted + if Grants(s, now) then 1 else 0, from)
  {
    var e := Seconds(s.lastRefill, now);
    if e * s.refillRate > 0 {
      if s.lastRefill < from {
        if granted == 0 {
          MulMonotone(s.refillRate, 0, Ceiling(from, now));
        } else {
          SecondsEarlier(s.lastRefill, from, now);
          MulMonotone(s.refillRate, e, Ceiling(from, now));
        }
      } else {
        CeilingAdds(from, s.lastRefill, now);
        Distribute(s.refillRate, Ceiling(from, s.lastRefill), e, Ceiling(from, now));
      }
    } else if s.refillRate > 0 {
      NoWholeSecond(e, s.refillRate);
    }
  }

  lemma NoWholeSecond(e: nat, rate: nat)
    requires e * rate == 0 && rate > 0
    ensures e == 0
  {}

  lemma {:induction false} GrantedInWindow(
    capacity: nat, rate: nat, start: nat, times: seq<nat>, i: nat, j: nat, from: nat)
    requires InTime(start, times) && i <= j <= |times|
    requires forall k :: i <= k < j ==> from <= times[k]
    requires i > 0 ==> times[i - 1] <= from
    requires start <= from
    ensures var b := New(capacity, rate, start);
            WindowBound(StateAfter(b, times, j), Granted(b, times, i, j), from)
    decreases j
  {
    hide After, Grants;
    var b := New(capacity, rate, start);
    StaysBounded(capacity, rate, start, times, j);
    if i < j {
      GrantedInWindow(capacity, rate, start, times, i, j - 1, from);
      StaysBounded(capacity, rate, start, times, j - 1);
      WindowStep(StateAfter(b, times, j - 1), Granted(b, times, i, j - 1), from, times[j - 1]);
    } else {
      var s := StateAfter(b, times, j);
      MulMonotone(rate, 0, Ceiling(from, s.lastRefill));
    }
  }

  /**
   * In any window of T seconds at most capacity + rate * ceil(T) calls are granted, and so at
   * most capacity + rate * (floor(T) + 1); of the rate only what the capacity can hold counts.
   */
  lemma AtMostInWindow(
    capacity: nat, rate: nat, start: nat, times: seq<nat>, i: nat, j: nat, from: nat, end: nat)
    requires InTime(start, times) && i <= j <= |times| && start <= from <= end
    requires forall k :: i <= k < j ==> from <= times[k] <= end
    requires i > 0 ==> times[i - 1] <= from
    ensures var granted := Granted(New(capacity, rate, start), times, i, j);
            && granted <= capacity + Effective(capacity, rate) * Ceiling(from, end)
            && granted <= capacity + rate * Ceiling(from, end)
            && granted <= capacity + rate * (Seconds(from, end) + 1)
  {
    hide Granted, StateAfter, Effective;
    var r := Effective(capacity, rate);
    OnlyEffectiveRateShows(capacity, rate, start, times, i, j);
    GrantedInWindow(capacity, r, start, times, i, j, from);
    StaysBounded(capacity, r, start, times, j);
    var s := StateAfter(New(capacity, r, start), times, j);
    MulMonotone(r, 0, Ceiling(from, end));
    MulMonotone(Ceiling(from, end), r, rate);
    MulMonotone(rate, Ceiling(from, end), Seconds(from, end) + 1);
    if s.lastRefill >= from && i < j {
      CeilingAdds(from, s.lastRefill, end);
      MulMonotone(r, Ceiling(from, s.lastRefill), Ceiling(from, end));
    } else if i == j {
      NothingInNothing(New(capacity, r, start), times, i);
    }
  }

  lemma NothingInNothing(b: Bucket, times: seq<nat>, i: nat)
    requires i <= |times|
    ensures Granted(b, times, i, i) == 0
  {}

  // ----- both bounds are reached -----

  function Burst(t: nat, q: nat): seq<nat> {
    seq(q, _ => t)
  }

  /** As many calls as there are tokens, then every whole second as many as it brings. */
  function Greedy(first: nat, capacity: nat, rate: nat, m: nat): seq<nat> {
    if m == 0 then Burst(first, capacity) else Greedy(first, capacity, rate, m - 1) + Burst(m * SECOND, rate)
  }

  lemma {:induction false} GrantedOneMore(b: Bucket, times: seq<nat>, now: nat, j: nat)
    requires j <= |times|
    ensures Granted(b, times + [now], 0, j) == Granted(b, times, 0, j)
  {
    if j > 0 {
      OneMoreCall(b, times, now, j - 1);
      GrantedOneMore(b, times, now, j - 1);
    }
  }

  /** One call after the others. */
  lemma CallAfter(b: Bucket, times: seq<nat>, now: nat)
    ensures var all, s := times + [now], StateAfter(b, times, |times|);
            && StateAfter(b, all, |all|) == After(s, now)
            && Granted(b, all, 0, |all|) == Granted(b, times, 0, |times|) + if Grants(s, now) then 1 else 0
  {
    OneMoreCall(b, times, now, |times|);
    GrantedOneMore(b, times, now, |times|);
  }

  /** A burst no greater than what is there is granted whole. */
  lemma {:induction false} BurstIsGranted(b: Bucket, times: seq<nat>, t: nat, q: nat)
    requires Refilled(StateAfter(b, times, |times|), t).tokens >= q
    ensures var all := times + Burst(t, q);
            var s := StateAfter(b, times, |times|);
            && Granted(b, all, 0, |all|) == Granted(b, times, 0, |times|) + q
            && StateAfter(b, all, |all|) == if q == 0 then s else Refilled(s, t).(tokens := Refilled(s, t).tokens - q)
    decreases q
  {
    hide StateAfter, Granted, Refilled;
    if q == 0 {
      assert times + Burst(t, 0) == times;
    } else {
      BurstIsGranted(b, times, t, q - 1);
      assert times + Burst(t, q) == times + Burst(t, q - 1) + [t];
      CallAfter(b, times + Burst(t, q - 1), t);
      RefilledOnce(StateAfter(b, times, |times|), t, q - 1);
    }
  }

  lemma RefilledOnce(s: Bucket, t: nat, q: nat)
    requires Refilled(s, t).tokens >= q
    ensures var r := Refilled(s, t).(tokens := Refilled(s, t).tokens - q);
            Refilled(r, t) == r
  {}

  lemma {:induction false} GreedyIsGranted(first: nat, capacity: nat, rate: nat, m: nat)
    requires first < SECOND && rate <= capacity
    ensures var b, times := New(capacity, rate, 0), Greedy(first, capacity, rate, m);
            && Granted(b, times, 0, |times|) == capacity + rate * m
            && StateAfter(b, times, |times|) == Bucket(capacity, 0, rate, if rate == 0 then 0 else m * SECOND)
    decreases m
  {
    hide StateAfter, Granted;
    var b := New(capacity, rate, 0);
    if m == 0 {
      NothingYet(b);
      BurstIsGranted(b, [], first, capacity);
      assert [] + Burst(first, capacity) == Burst(first, capacity);
    } else {
      GreedyIsGranted(first, capacity, rate, m - 1);
      var before := Greedy(first, capacity, rate, m - 1);
      SecondBrings(capacity, rate, m);
      BurstIsGranted(b, before, m * SECOND, rate);
      assert rate * m == rate * (m - 1) + rate;
    }
  }

  lemma NothingYet(b: Bucket)
    ensures StateAfter(b, [], 0) == b && Granted(b, [], 0, 0) == 0
  {}

  lemma SecondBrings(capacity: nat, rate: nat, m: nat)
    requires rate <= capacity && m > 0
    ensures Refilled(Bucket(capacity, 0, rate, if rate == 0 then 0 else (m - 1) * SECOND), m * SECOND)
            == Bucket(capacity, rate, rate, if rate == 0 then 0 else m * SECOND)
  {
    assert rate > 0 ==> Seconds((m - 1) * SECOND, m * SECOND) == 1;
  }

  lemma {:induction false} GreedyIsInTime(first: nat, capacity: nat, rate: nat, m: nat)
    requires first < SECOND
    ensures var times := Greedy(first, capacity, rate, m);
            && InTime(0, times)
            && forall k :: 0 <= k < |times| ==> first <= times[k] && (times[k] == first || times[k] <= m * SECOND)
  {
    if m > 0 {
      GreedyIsInTime(first, capacity, rate, m - 1);
    }
  }

  /** For every bucket and every T, both bounds are reached. */
  lemma BoundsAreReached(capacity: nat, rate: nat, T: nat) returns (fromStart: seq<nat>, inWindow: seq<nat>)
    ensures InTime(0, fromStart) && forall k :: 0 <= k < |fromStart| ==> fromStart[k] <= T
    ensures Granted(New(capacity, rate, 0), fromStart, 0, |fromStart|)
            == capacity + Effective(capacity, rate) * Seconds(0, T)
    ensures InTime(0, inWindow) && forall k :: 0 <= k < |inWindow| ==> SECOND - 1 <= inWindow[k] <= SECOND - 1 + T
    ensures Granted(New(capacity, rate, 0), inWindow, 0, |inWindow|)
            == capacity + Effective(capacity, rate) * Ceiling(SECOND - 1, SECOND - 1 + T)
  {
    hide Granted, Greedy, InTime, Effective, StateAfter;
    var r := Effective(capacity, rate);
    var m, n := Seconds(0, T), Ceiling(SECOND - 1, SECOND - 1 + T);
    fromStart, inWindow := Greedy(0, capacity, r, m), Greedy(SECOND - 1, capacity, r, n);
    GreedyIsGranted(0, capacity, r, m);
    GreedyIsInTime(0, capacity, r, m);
    GreedyIsGranted(SECOND - 1, capacity, r, n);
    GreedyIsInTime(SECOND - 1, capacity, r, n);
    OnlyEffectiveRateShows(capacity, rate, 0, fromStart, 0, |fromStart|);
    OnlyEffectiveRateShows(capacity, rate, 0, inWindow, 0, |inWindow|);
  }

  /** The source's object; `times` is the history of its calls. */
  class Limiter {
    const capacity: nat
    const refillRate: nat
    var tokens: nat
    var lastRefill: nat
    ghost const start: nat
    ghost var times: seq<nat>

    ghost function Contents(): Bucket
      reads this
    {
      Bucket(capacity, tokens, refillRate, lastRefill)
    }

    ghost predicate Valid()
      reads this
    {
      InTime(start, times) && Contents() == StateAfter(New(capacity, refillRate, start), times, |times|)
    }

    constructor (capacity: nat, refillRate: nat, now: nat)
      ensures Valid() && this.capacity == capacity && this.refillRate == refillRate && start == now && times == []
    {
      this.capacity := capacity;
      this.refillRate := refillRate;
      tokens, lastRefill := capacity, now;
      start, times := now, [];
    }

    method TryAcquire(now: nat) returns (ok: bool)
      requires Valid() && start <= now && (|times| > 0 ==> times[|times| - 1] <= now)
      modifies this
      ensures Valid() && times == old(times) + [now]
      ensures ok <==> Grants(old(Contents()), now)
      ensures Contents() == After(old(Contents()), now)
    {
      OneMoreCall(New(capacity, refillRate, start), times, now, |times|);
      times := times + [now];
      Refill(now);
      ok := tokens > 0;
      if ok {
        tokens := tokens - 1;
      }
    }

    method Refill(now: nat)
      modifies this`tokens, this`lastRefill
      ensures Contents() == Refilled(old(Contents()), now)
    {
      var newTokens := Seconds(lastRefill, now) * refillRate;
      if newTokens > 0 {
        tokens := Min(capacity, tokens + newTokens);
        lastRefill := now;
      }
    }
  }

  lemma {:induction false} OneMoreCall(b: Bucket, times: seq<nat>, now: nat, k: nat)
    requires k <= |times|
    ensures StateAfter(b, times + [now], k) == StateAfter(b, times, k)
  {
    if k > 0 {
      OneMoreCall(b, times, now, k - 1);
    }
  }
}
