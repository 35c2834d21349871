/** The smooth bursty rate limiter of coro_io's rate_limiter.hpp. Times are nanoseconds,
    permits are real numbers; the clock is a parameter. */
module RateLimiter {
  const NANOS_PER_MILLI: int := 1_000_000

  /** stored_permits_, max_permits_, stable_internal_micros_ (in milliseconds) and
      next_free_ticket_micros_. */
  datatype State = State(stored: real, max: real, interval: real, next: int)

  function Least(a: real, b: real): real {
    if b < a then b else a
  }

  /** duration_cast<milliseconds>, which truncates toward zero. */
  function ToMillis(nanos: int): int {
    if nanos >= 0 then nanos / NANOS_PER_MILLI else 0 - (0 - nanos) / NANOS_PER_MILLI
  }

  // ---- the steps as functions ---------------------------------------------------------------

  /** What has been saved up by now. Division by the interval 0 of a new limiter gives an
      infinite or undefined number, and the smaller one is then the maximum. */
  function Saved(s: State, now: int): real {
    if s.interval == 0.0 then s.max
    else Least(s.max, s.stored + ToMillis(now - s.next) as real / s.interval)
  }

  function Resynced(s: State, now: int): State {
    if now > s.next then s.(stored := Saved(s, now), next := now) else s
  }

  function Spent(s: State, permits: int): real {
    Least(permits as real, s.stored)
  }

  /** The price of the permits that are not stored. */
  function Cost(s: State, permits: int): real {
    (permits as real - Spent(s, permits)) * s.interval
  }

  /** The same cut to whole milliseconds. */
  function Wait(s: State, permits: int): int {
    if Cost(s, permits) >= 0.0 then Cost(s, permits).Floor else 0 - (0.0 - Cost(s, permits)).Floor
  }

  function Reserved(s: State, permits: int, now: int): State {
    var r := Resynced(s, now);
    r.(next := r.next + Wait(r, permits) * NANOS_PER_MILLI, stored := r.stored - Spent(r, permits))
  }

  function Rerated(s: State, rate: real, now: int): State
    requires rate > 0.0
  {
    var r := Resynced(s, now);
    State(if r.max == 0.0 then 0.0 else r.stored * rate / r.max, rate, 1000.0 / rate, r.next)
  }

  // ---- the class ---------------------------------------------------------------------------------

  class Limiter {
    var storedPermits: real
    var maxPermits: real
    var interval: real
    var nextFreeTicket: int

    ghost function Now(): State
      reads this
    {
      State(storedPermits, maxPermits, interval, nextFreeTicket)
    }

    constructor (rate: real, now: int)
      requires rate > 0.0 && now >= 0
      ensures Now() == Rerated(State(0.0, 0.0, 0.0, 0), rate, now)
      ensures Sound(Now()) && maxPermits == rate && storedPermits == 0.0
    {
      storedPermits, maxPermits, interval, nextFreeTicket := 0.0, 0.0, 0.0, 0;
      new;
      SetRate(rate, now);
      RatePositive(rate);
    }

    method Resync(now: int)
      modifies this
      ensures Now() == Resynced(old(Now()), now)
    {
      if now > nextFreeTicket {
        var diffMills := ToMillis(now - nextFreeTicket);
        if interval == 0.0 {
          storedPermits := maxPermits;
        } else {
          var newPermits := diffMills as real / interval;
          storedPermits := Least(maxPermits, storedPermits + newPermits);
        }
        nextFreeTicket := now;
      }
    }

    method SetRate(rate: real, now: int)
      requires rate > 0.0
      modifies this
      ensures Now() == Rerated(old(Now()), rate, now)
    {
      Resync(now);
      interval := 1000.0 / rate;
      var oldMaxPermits := maxPermits;
      maxPermits := rate;
      storedPermits := if oldMaxPermits == 0.0 then 0.0 else storedPermits * maxPermits / oldMaxPermits;
    }

    method ReserveEarliestAvailable(permits: int, now: int) returns (ticket: int)
      modifies this
      ensures Now() == Reserved(old(Now()), permits, now)
      ensures ticket == Resynced(old(Now()), now).next
    {
      hide Resynced;
      Resync(now);
      ghost var r := Now();
      ticket := nextFreeTicket;
      var toSpend := Least(permits as real, storedPermits);
      var freshPermits := permits as real - toSpend;
      var cost := freshPermits * interval;
      var wait := if cost >= 0.0 then cost.Floor else 0 - (0.0 - cost).Floor;
      assert toSpend == Spent(r, permits);
      assert cost == Cost(r, permits);
      assert wait == Wait(r, permits);
      nextFreeTicket := nextFreeTicket + wait * NANOS_PER_MILLI;
      storedPermits := storedPermits - toSpend;
    }

    /** acquire: how many milliseconds the caller sleeps. */
    method Acquire(permits: int, now: int) returns (sleep: int)
      requires permits >= 0 && Sound(Now())
      modifies this
      ensures Sound(Now()) && Now() == Reserved(old(Now()), permits, now)
      ensures sleep >= 0
      ensures now + (sleep + 1) * NANOS_PER_MILLI > Resynced(old(Now()), now).next >= now + sleep * NANOS_PER_MILLI
    {
      ReserveSound(Now(), permits, now);
      var ticket := ReserveEarliestAvailable(permits, now);
      sleep := ToMillis(ticket - now);
      sleep := if sleep > 0 then sleep else 0;
    }
  }

  // ---- what every step keeps ---------------------------------------------------------------------

  /** A working limiter: never more than max permits are stored, and never a negative number. */
  predicate Sound(s: State) {
    0.0 <= s.stored <= s.max && s.max > 0.0 && s.interval > 0.0
  }

  lemma {:induction false} RatePositive(rate: real)
    requires rate > 0.0
    ensures 1000.0 / rate > 0.0
  {
    assert 1000.0 / rate * rate == 1000.0;
  }

  lemma {:induction false} QuotientAtLeastZero(a: real, b: real)
    requires a >= 0.0 && b > 0.0
    ensures a / b >= 0.0 && a / b * b == a
  {
    assert a / b * b == a;
  }

  lemma {:induction false} ResyncSound(s: State, now: int)
    requires Sound(s)
    ensures Sound(Resynced(s, now)) && Resynced(s, now).next >= s.next && Resynced(s, now).next >= now
    ensures Resynced(s, now).stored >= s.stored
  {
    if now > s.next { QuotientAtLeastZero(ToMillis(now - s.next) as real, s.interval); }
  }

  lemma {:induction false} ProductAtLeastZero(a: real, b: real)
    requires a >= 0.0 && b >= 0.0
    ensures a * b >= 0.0
  {
  }

  lemma {:induction false} SpentBounds(r: State, permits: int)
    requires Sound(r) && permits >= 0
    ensures 0.0 <= Spent(r, permits) <= r.stored && Spent(r, permits) <= permits as real
  {
  }

  lemma {:induction false} FloorBounds(x: real)
    requires x >= 0.0
    ensures 0 <= x.Floor && x.Floor as real <= x < x.Floor as real + 1.0
  {
  }

  lemma {:induction false} CostOf(r: State, permits: int)
    requires Sound(r) && permits >= 0
    ensures 0 <= Wait(r, permits)
    ensures Wait(r, permits) as real <= Cost(r, permits) < Wait(r, permits) as real + 1.0
    ensures Cost(r, permits) == permits as real * r.interval - Spent(r, permits) * r.interval
    ensures 0.0 <= Spent(r, permits) <= r.stored
  {
    hide Spent;
    SpentBounds(r, permits);
    var unsaved := permits as real - Spent(r, permits);
    ProductAtLeastZero(unsaved, r.interval);
    assert Cost(r, permits) == unsaved * r.interval;
    Distribute(permits as real, Spent(r, permits), r.interval);
    FloorBounds(Cost(r, permits));
  }

  /** An acquire of no negative number of permits keeps the bounds, and the time of the next
      free ticket never goes back. */
  lemma {:induction false} ReserveSound(s: State, permits: int, now: int)
    requires Sound(s) && permits >= 0
    ensures Sound(Reserved(s, permits, now)) && Reserved(s, permits, now).next >= Resynced(s, now).next >= s.next
  {
    hide Resynced, Wait, Cost;
    ResyncSound(s, now);
    var r := Resynced(s, now);
    CostOf(r, permits);
  }

  /** The upper bound needs that: a negative number of permits adds to the stored ones. */
  lemma {:induction false} NegativePermits(s: State, permits: int, now: int)
    requires Sound(s) && permits < 0
    ensures Reserved(s, permits, now).stored == Resynced(s, now).stored + (0 - permits) as real
    ensures Sound(Reserved(s, permits, now)) <==> Resynced(s, now).stored + (0 - permits) as real <= s.max
  {
    hide Resynced;
    ResyncSound(s, now);
    ResyncKeepsRate(s, now);
  }

  lemma {:induction false} ResyncKeepsRate(s: State, now: int)
    ensures Resynced(s, now).max == s.max && Resynced(s, now).interval == s.interval
  {
  }

  /** A ticket in the past moves to now, and every whole millisecond saves its share of a permit as
      long as there is room; a ticket in the future stays. */
  lemma {:induction false} ResyncExact(s: State, now: int)
    requires Sound(s)
    ensures now <= s.next ==> Resynced(s, now) == s
    ensures now > s.next ==>
              var r, saved := Resynced(s, now), s.stored + ((now - s.next) / NANOS_PER_MILLI) as real / s.interval;
              r == s.(next := now, stored := r.stored) && r.stored == (if saved <= s.max then saved else s.max)
  {
  }

  /** The price of the permits beyond the stored ones. */
  function Missing(s: State, permits: int): real {
    (permits as real - s.stored) * s.interval
  }

  /** Stored permits are free: a request that they cover costs no time. One that they do not cover
      takes them all and pays for the others, in whole milliseconds. */
  lemma {:induction false} ReserveExact(s: State, permits: int, now: int)
    requires Sound(s) && permits >= 0
    ensures var r, t := Resynced(s, now), Reserved(s, permits, now);
            if permits as real <= r.stored then t == r.(stored := r.stored - permits as real)
            else
              t == r.(stored := 0.0, next := r.next + Missing(r, permits).Floor * NANOS_PER_MILLI)
  {
    hide Resynced, Wait, Spent, Missing;
    ResyncSound(s, now);
    ResyncKeepsRate(s, now);
    var r := Resynced(s, now);
    if permits as real <= r.stored {
      FreeOfCharge(r, permits);
    } else {
      PaidFor(r, permits);
    }
  }

  lemma {:induction false} FreeOfCharge(r: State, permits: int)
    requires 0.0 <= permits as real <= r.stored
    ensures Spent(r, permits) == permits as real && Wait(r, permits) == 0
  {
    TimesZero(permits as real - Spent(r, permits), r.interval);
    assert Cost(r, permits) == 0.0;
    assert (0.0).Floor == 0;
  }

  lemma {:induction false} TimesZero(a: real, b: real)
    requires a == 0.0
    ensures a * b == 0.0
  {
  }

  lemma {:induction false} PaidFor(r: State, permits: int)
    requires Sound(r) && permits as real > r.stored
    ensures Spent(r, permits) == r.stored && Wait(r, permits) == Missing(r, permits).Floor
  {
    assert Spent(r, permits) == r.stored;
    SamePrice(r, permits);
    ProductAtLeastZero(permits as real - r.stored, r.interval);
    assert Missing(r, permits) >= 0.0;
    hide Cost, Missing;
  }

  lemma {:induction false} SamePrice(r: State, permits: int)
    requires Spent(r, permits) == r.stored
    ensures Cost(r, permits) == Missing(r, permits)
  {
    hide Spent;
  }

  /** A new rate keeps the bounds and the filled share of the bucket. */
  lemma {:induction false} SetRateSound(s: State, rate: real, now: int)
    requires Sound(s) && rate > 0.0
    ensures Sound(Rerated(s, rate, now))
    ensures Rerated(s, rate, now).stored * s.max == Resynced(s, now).stored * Rerated(s, rate, now).max
    ensures var t := Rerated(s, rate, now);
            t.max == rate && t.interval * rate == 1000.0 && t.next == Resynced(s, now).next
  {
    hide Resynced;
    RatePositive(rate);
    assert 1000.0 / rate * rate == 1000.0;
    ResyncSound(s, now);
    ResyncKeepsRate(s, now);
    Scaled(Resynced(s, now).stored, rate, s.max);
  }

  lemma {:induction false} Scaled(stored: real, rate: real, max: real)
    requires 0.0 <= stored <= max && max > 0.0 && rate > 0.0
    ensures 0.0 <= stored * rate / max <= rate
    ensures stored * rate / max * max == stored * rate
  {
    var x := stored * rate / max;
    assert x * max == stored * rate;
    ProductAtLeastZero(stored, rate);
    ProductAtLeastZero(max - stored, rate);
    assert (rate - x) * max >= 0.0;
  }

  // ---- the budget -----------------------------------------------------------------------------------

  /** s.next in milliseconds */
  function NextMillis(s: State): real {
    s.next as real / NANOS_PER_MILLI as real
  }

  /** Stored permits are paid for by the time that passed. */
  lemma {:induction false} ResyncBudget(s: State, now: int)
    requires Sound(s)
    ensures (Resynced(s, now).stored - s.stored) * s.interval <= NextMillis(Resynced(s, now)) - NextMillis(s)
  {
    if now > s.next {
      var millis := ToMillis(now - s.next);
      QuotientAtLeastZero(millis as real, s.interval);
      var gain := Saved(s, now) - s.stored;
      ProductAtLeastZero(millis as real / s.interval - gain, s.interval);
      Distribute(millis as real / s.interval, gain, s.interval);
      assert millis as real <= (now - s.next) as real / NANOS_PER_MILLI as real;
    }
  }

  lemma {:induction false} Distribute(a: real, b: real, c: real)
    ensures (a - b) * c == a * c - b * c
  {
  }

  /** One acquire: permits and stored permits together cost no more than the time by which
      the next free ticket moves on and one millisecond of rounding. */
  lemma {:induction false} ReserveBudget(s: State, permits: int, now: int)
    requires Sound(s) && permits >= 0
    ensures var t := Reserved(s, permits, now);
            permits as real * s.interval + t.stored * s.interval
            <= s.stored * s.interval + (NextMillis(t) - NextMillis(s)) + 1.0
  {
    hide Resynced, Sound, Spent, Wait, Cost;
    ResyncBudget(s, now);
    ResyncSound(s, now);
    ResyncKeepsRate(s, now);
    var r := Resynced(s, now);
    CostOf(r, permits);
    MillisAdd(r.next, Wait(r, permits));
    var i := s.interval;
    assert r.interval == i;
    Distribute(r.stored, s.stored, i);
    Distribute(r.stored, Spent(r, permits), i);
  }

  lemma {:induction false} MillisAdd(nanos: int, millis: int)
    ensures (nanos + millis * NANOS_PER_MILLI) as real / NANOS_PER_MILLI as real
            == nanos as real / NANOS_PER_MILLI as real + millis as real
  {
  }

  /** A request for some permits at some time. */
  datatype Request = Request(permits: nat, now: int)

  function Run(s: State, requests: seq<Request>): State
    decreases |requests|
  {
    if |requests| == 0 then s
    else Run(Reserved(s, requests[0].permits, requests[0].now), requests[1..])
  }

  function Permits(requests: seq<Request>): nat {
    if |requests| == 0 then 0 else requests[0].permits + Permits(requests[1..])
  }

  /** Over any run at a fixed rate, however the clock reads: the permits granted cost no more
      than what was stored, the advance of the next free ticket and a millisecond a request. */
  lemma {:induction false} RunBudget(s: State, requests: seq<Request>)
    requires Sound(s)
    decreases |requests|
    ensures var t := Run(s, requests);
            && Sound(t) && t.max == s.max && t.interval == s.interval && t.next >= s.next
            && Permits(requests) as real * s.interval + t.stored * s.interval
               <= s.stored * s.interval + (NextMillis(t) - NextMillis(s)) + |requests| as real
  {
    hide Reserved, Sound;
    if |requests| > 0 {
      var q := requests[0];
      ReserveSound(s, q.permits, q.now);
      ReserveBudget(s, q.permits, q.now);
      ReserveKeepsRate(s, q.permits, q.now);
      RunBudget(Reserved(s, q.permits, q.now), requests[1..]);
      assert Permits(requests) as real == q.permits as real + Permits(requests[1..]) as real;
      Distribute(Permits(requests) as real, q.permits as real, s.interval);
    }
  }

  lemma {:induction false} ReserveKeepsRate(s: State, permits: int, now: int)
    ensures Reserved(s, permits, now).max == s.max && Reserved(s, permits, now).interval == s.interval
  {
  }

  /** The permits that a full bucket lets go by now. */
  function Overflow(s: State, now: int): real
    requires s.interval > 0.0
  {
    if now <= s.next then 0.0
    else
      var saved := s.stored + ((now - s.next) / NANOS_PER_MILLI) as real / s.interval;
      if saved <= s.max then 0.0 else saved - s.max
  }

  function Wasted(s: State, requests: seq<Request>): real
    requires Sound(s)
    decreases |requests|
  {
    if |requests| == 0 then 0.0
    else
      ReserveSound(s, requests[0].permits, requests[0].now);
      Overflow(s, requests[0].now) + Wasted(Reserved(s, requests[0].permits, requests[0].now), requests[1..])
  }

  /** What is saved and what overflows is the time that passed, but for less than a millisecond. */
  lemma {:induction false} ResyncSaves(s: State, now: int)
    requires Sound(s)
    ensures (Resynced(s, now).stored - s.stored) * s.interval + Overflow(s, now) * s.interval + 1.0
            >= NextMillis(Resynced(s, now)) - NextMillis(s)
  {
    ResyncExact(s, now);
    if now > s.next {
      var millis := (now - s.next) / NANOS_PER_MILLI;
      QuotientAtLeastZero(millis as real, s.interval);
      var gain, over := Resynced(s, now).stored - s.stored, Overflow(s, now);
      assert gain + over == millis as real / s.interval;
      Distribute(gain, 0.0 - over, s.interval);
      PartOfMilli(s.next, now);
    }
  }

  lemma {:induction false} PartOfMilli(first: int, second: int)
    requires first <= second
    ensures second as real / NANOS_PER_MILLI as real - first as real / NANOS_PER_MILLI as real
            < ((second - first) / NANOS_PER_MILLI) as real + 1.0
  {
    var q, r := (second - first) / NANOS_PER_MILLI, (second - first) % NANOS_PER_MILLI;
    assert second - first == q * NANOS_PER_MILLI + r;
    assert (second - first) as real == q as real * 1_000_000.0 + r as real;
  }

  lemma {:induction false} ReserveUses(s: State, permits: int, now: int)
    requires Sound(s) && permits >= 0
    ensures var t := Reserved(s, permits, now);
            permits as real * s.interval + t.stored * s.interval + Overflow(s, now) * s.interval + 1.0
            >= s.stored * s.interval + (NextMillis(t) - NextMillis(s))
  {
    hide Resynced, Sound, Spent, Wait, Cost, Overflow;
    ResyncSaves(s, now);
    ResyncSound(s, now);
    ResyncKeepsRate(s, now);
    var r := Resynced(s, now);
    CostOf(r, permits);
    MillisAdd(r.next, Wait(r, permits));
    Distribute(r.stored, s.stored, s.interval);
    Distribute(r.stored, Spent(r, permits), s.interval);
  }

  /** The other side of the budget: over any run at a fixed rate nothing is lost but what a full
      bucket lets go and a millisecond a request. No ticket is later than it has to be. */
  lemma {:induction false} RunUses(s: State, requests: seq<Request>)
    requires Sound(s)
    decreases |requests|
    ensures var t := Run(s, requests);
            Permits(requests) as real * s.interval + t.stored * s.interval + Wasted(s, requests) * s.interval + |requests| as real
            >= s.stored * s.interval + (NextMillis(t) - NextMillis(s))
  {
    hide Reserved, Overflow;
    if |requests| > 0 {
      var q := requests[0];
      var t := Reserved(s, q.permits, q.now);
      ReserveSound(s, q.permits, q.now);
      ReserveUses(s, q.permits, q.now);
      ReserveKeepsRate(s, q.permits, q.now);
      RunUses(t, requests[1..]);
      assert Permits(requests) as real == q.permits as real + Permits(requests[1..]) as real;
      Distribute(Permits(requests) as real, q.permits as real, s.interval);
      Distribute(Wasted(s, requests), Overflow(s, q.now), s.interval);
    }
  }

  /** Requests whose tickets are due by time `end` cannot take more than a full bucket and
      what the elapsed time allows. */
  lemma {:induction false} GrantedBy(s: State, requests: seq<Request>, last: Request, end: int)
    requires Sound(s) && Resynced(Run(s, requests), last.now).next <= end
    ensures Permits(requests) as real * s.interval
            <= s.max * s.interval + (end - s.next) as real / NANOS_PER_MILLI as real + |requests| as real
  {
    hide Resynced, Run, Permits, Sound;
    RunBudget(s, requests);
    var t := Run(s, requests);
    ResyncSound(t, last.now);
    assert t.stored * s.interval >= 0.0 && s.stored * s.interval <= s.max * s.interval by { BucketBounds(t, s); }
    MillisBetween(s.next, t.next, end);
  }

  lemma {:induction false} BucketBounds(t: State, s: State)
    requires Sound(t) && Sound(s)
    ensures t.stored * s.interval >= 0.0 && s.stored * s.interval <= s.max * s.interval
  {
    ProductAtLeastZero(t.stored, s.interval);
    ProductAtLeastZero(s.max - s.stored, s.interval);
    Distribute(s.max, s.stored, s.interval);
  }

  lemma {:induction false} MillisBetween(first: int, second: int, end: int)
    requires second <= end
    ensures second as real / NANOS_PER_MILLI as real - first as real / NANOS_PER_MILLI as real
            <= (end - first) as real / NANOS_PER_MILLI as real
  {
  }

  /** A request moves the next free ticket by its price at most. */
  lemma {:induction false} ReserveNoSlower(s: State, permits: int, now: int)
    requires Sound(s) && permits >= 0
    ensures NextMillis(Reserved(s, permits, now)) - NextMillis(Resynced(s, now)) <= permits as real * s.interval
  {
    hide Resynced, Spent, Wait, Cost;
    ResyncSound(s, now);
    ResyncKeepsRate(s, now);
    var r := Resynced(s, now);
    CostOf(r, permits);
    ProductAtLeastZero(Spent(r, permits), s.interval);
    MillisAdd(r.next, Wait(r, permits));
  }
}
