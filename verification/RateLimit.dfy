/**
 * The shared token bucket. Time and tokens are reals: rounding of float64 is not modelled,
 * that of timer durations is. Each poll is one pass through the mutex-protected section; waiters interleave freely.
 */
module RateLimit {
  import opened Basics

  datatype Bucket = Bucket(rate: real, cap: real, tokens: real, last: real) {
    predicate Valid() {
      rate > 0.0 && 0.0 <= tokens <= cap
    }
  }

  /** newLimiter: no bucket without a limit; the capacity is at least one second's worth. */
  function NewBucket(bytesPerSec: int, burst: int, now: real): (b: Option<Bucket>)
    ensures b.None? <==> bytesPerSec <= 0
    ensures b.Some? ==> b.value.Valid() && b.value.cap >= burst as real && b.value.cap >= b.value.rate
    ensures b.Some? ==> && b.value.rate == bytesPerSec as real && b.value.tokens == b.value.cap && b.value.last == now
                        && (b.value.cap == burst as real || b.value.cap == b.value.rate)
  {
    if bytesPerSec <= 0 then None
    else
      var c := if burst < bytesPerSec then bytesPerSec as real else burst as real;
      Some(Bucket(bytesPerSec as real, c, c, now))
  }

  /** Tokens earned in dt seconds. */
  function Earned(rate: real, dt: real): (e: real)
    requires rate > 0.0
    ensures dt >= 0.0 ==> e >= 0.0
  {
    dt * rate
  }

  function Refill(b: Bucket, now: real): Bucket
    requires b.rate > 0.0
  {
    var t := b.tokens + Earned(b.rate, now - b.last);
    b.(tokens := if t > b.cap then b.cap else t, last := now)
  }

  /** One poll at time `now` for n bytes. */
  datatype Poll = Poll(now: real, n: nat)

  function Granted(b: Bucket, p: Poll): bool
    requires b.rate > 0.0
  {
    Refill(b, p.now).tokens >= p.n as real
  }

  function After(b: Bucket, p: Poll): (r: Bucket)
    requires b.rate > 0.0
    ensures r.rate == b.rate && r.cap == b.cap && r.last == p.now
  {
    var r := Refill(b, p.now);
    if r.tokens >= p.n as real then r.(tokens := r.tokens - p.n as real) else r
  }

  function Run(b: Bucket, ps: seq<Poll>): (r: Bucket)
    requires b.rate > 0.0
    ensures r.rate == b.rate && r.cap == b.cap && r.last == Latest(b.last, ps)
    decreases |ps|
  {
    if ps == [] then b else Run(After(b, ps[0]), ps[1..])
  }

  /** Bytes granted over a run of polls. */
  function Total(b: Bucket, ps: seq<Poll>): nat
    requires b.rate > 0.0
    decreases |ps|
  {
    if ps == [] then 0
    else (if Granted(b, ps[0]) then ps[0].n else 0) + Total(After(b, ps[0]), ps[1..])
  }

  /** The clock does not run backwards. */
  predicate Ordered(from: real, ps: seq<Poll>)
    decreases |ps|
  {
    ps == [] || (from <= ps[0].now && Ordered(ps[0].now, ps[1..]))
  }

  function Latest(from: real, ps: seq<Poll>): real
    decreases |ps|
  {
    if ps == [] then from else Latest(ps[0].now, ps[1..])
  }

  lemma RefillBounds(b: Bucket, now: real)
    requires b.Valid() && b.last <= now
    ensures Refill(b, now).Valid() && Refill(b, now).tokens <= b.tokens + Earned(b.rate, now - b.last)
  {
  }

  lemma EarnedAdds(rate: real, x: real, y: real)
    requires rate > 0.0
    ensures Earned(rate, x) + Earned(rate, y) == Earned(rate, x + y)
  {
  }

  lemma EarnedGrows(rate: real, x: real, y: real)
    requires rate > 0.0 && x <= y
    ensures Earned(rate, x) <= Earned(rate, y)
  {
    EarnedAdds(rate, x, y - x);
  }

  lemma PollIsPaid(b: Bucket, p: Poll)
    requires b.Valid() && b.last <= p.now
    ensures After(b, p).Valid()
    ensures (if Granted(b, p) then p.n as real else 0.0) + After(b, p).tokens <= b.tokens
            + Earned(b.rate, p.now - b.last)
  {
    RefillBounds(b, p.now);
  }

  /** Tokens stay within [0, cap], and grants are paid from the tokens held plus what time has earned. */
  lemma {:induction false} GrantsArePaid(b: Bucket, ps: seq<Poll>)
    requires b.Valid() && Ordered(b.last, ps)
    ensures Run(b, ps).Valid() && b.last <= Latest(b.last, ps)
    ensures Total(b, ps) as real + Run(b, ps).tokens <= b.tokens + Earned(b.rate, Latest(b.last, ps) - b.last)
    decreases |ps|
  {
    if ps != [] {
      var p := ps[0];
      PollIsPaid(b, p);
      GrantsArePaid(After(b, p), ps[1..]);
      EarnedAdds(b.rate, Latest(p.now, ps[1..]) - p.now, p.now - b.last);
    }
  }

  lemma {:induction false} RunConcat(b: Bucket, xs: seq<Poll>, ys: seq<Poll>)
    requires b.rate > 0.0
    ensures Run(b, xs + ys) == Run(Run(b, xs), ys)
    ensures Total(b, xs + ys) == Total(b, xs) + Total(Run(b, xs), ys)
    ensures Ordered(b.last, xs + ys) ==> Ordered(b.last, xs) && Ordered(Latest(b.last, xs), ys)
    decreases |xs|
  {
    if xs == [] {
      assert xs + ys == ys;
    } else {
      assert (xs + ys)[1..] == xs[1..] + ys;
      RunConcat(After(b, xs[0]), xs[1..], ys);
    }
  }

  /**
   * The bandwidth bound: in any interleaving of waiters, the polls of any time window of length t
   * together grant at most cap + rate * t bytes.
   */
  lemma WindowBound(b: Bucket, before: seq<Poll>, window: seq<Poll>, start: real, t: real)
    requires b.Valid() && Ordered(b.last, before + window)
    requires forall p | p in window :: start <= p.now <= start + t
    requires t >= 0.0
    ensures Total(Run(b, before), window) as real <= b.cap + b.rate * t
  {
    RunConcat(b, before, window);
    GrantsArePaid(b, before);
    assert Earned(b.rate, t) == b.rate * t >= 0.0;
    if window != [] {
      WindowFrom(Run(b, before), window, start, t);
    }
  }

  lemma WindowFrom(c: Bucket, window: seq<Poll>, start: real, t: real)
    requires c.Valid() && window != [] && Ordered(c.last, window)
    requires forall p | p in window :: start <= p.now <= start + t
    ensures Total(c, window) as real <= c.cap + Earned(c.rate, t)
  {
    var p := window[0];
    var q := After(c, p);
    RefillBounds(c, p.now);
    GrantsArePaid(q, window[1..]);
    LatestIn(p.now, window[1..], start, t);
    EarnedGrows(c.rate, Latest(p.now, window[1..]) - p.now, t);
  }

  lemma {:induction false} LatestIn(from: real, ps: seq<Poll>, start: real, t: real)
    requires start <= from <= start + t && forall p | p in ps :: start <= p.now <= start + t
    ensures start <= Latest(from, ps) <= start + t
    decreases |ps|
  {
    if ps != [] {
      LatestIn(ps[0].now, ps[1..], start, t);
    }
  }

  const NANOSECOND: real := 0.000000001
  const MILLISECOND: real := 0.001

  /** How long it takes until the deficit has been refilled. */
  function Due(b: Bucket, n: nat): real
    requires b.rate > 0.0
  {
    (n as real - b.tokens) / b.rate
  }

  /** How long a refused poll sleeps: that, rounded down to whole nanoseconds, or a millisecond if that is none. */
  function Delay(b: Bucket, n: nat): real
    requires b.rate > 0.0
  {
    var ns := (Due(b, n) * 1000000000.0).Floor;
    if ns <= 0 then MILLISECOND else ns as real * NANOSECOND
  }

  /** A pause is never longer than needed, nor a nanosecond shorter; below a nanosecond it is a millisecond. */
  lemma DelayIsDue(b: Bucket, n: nat)
    requires b.rate > 0.0 && b.tokens < n as real
    ensures if Due(b, n) < NANOSECOND then Delay(b, n) == 0.001
            else Due(b, n) - NANOSECOND < Delay(b, n) <= Due(b, n)
    ensures Due(b, n) * b.rate == n as real - b.tokens
  {
    DueIsDeficit(b, n);
  }

  lemma DueIsDeficit(b: Bucket, n: nat)
    requires b.rate > 0.0
    ensures Earned(b.rate, Due(b, n)) == n as real - b.tokens
    ensures n as real > b.tokens <==> Due(b, n) > 0.0
  {
    var d := Due(b, n);
    assert d * b.rate == n as real - b.tokens;
    if d > 0.0 {
      assert d * b.rate > 0.0;
    } else {
      assert -d * b.rate >= 0.0;
    }
  }

  /** A poll that comes no earlier than the deficit is refilled is granted. */
  lemma LateIsGranted(b: Bucket, n: nat, pause: real)
    requires b.Valid() && b.tokens < n as real <= b.cap && pause >= Due(b, n)
    ensures Granted(b, Poll(b.last + pause, n))
  {
    DueIsDeficit(b, n);
    EarnedAdds(b.rate, Due(b, n), pause - Due(b, n));
    assert b.last + pause - b.last == Due(b, n) + (pause - Due(b, n));
  }

  /** One that comes less than a nanosecond early is granted, or lacks less than a nanosecond's tokens. */
  lemma EarlyIsClose(b: Bucket, n: nat, pause: real)
    requires b.Valid() && b.tokens < n as real <= b.cap && pause > Due(b, n) - NANOSECOND && pause >= 0.0
    ensures var p := Poll(b.last + pause, n); Granted(b, p) || Due(After(b, p), n) < NANOSECOND
  {
    var p := Poll(b.last + pause, n);
    if !Granted(b, p) {
      var c := After(b, p);
      DueIsDeficit(b, n);
      DueIsDeficit(c, n);
      assert b.last + pause - b.last == pause;
      EarnedAdds(b.rate, pause, Due(c, n));
      EarnedIsInjective(b.rate, pause + Due(c, n), Due(b, n));
    }
  }

  lemma EarnedIsInjective(rate: real, x: real, y: real)
    requires rate > 0.0 && Earned(rate, x) == Earned(rate, y)
    ensures x == y
  {
    assert (x - y) * rate == 0.0;
  }

  /** The poll after a refused one, `late` behind its timer. */
  function Again(b: Bucket, n: nat, late: real): Poll
    requires b.rate > 0.0
  {
    Poll(b.last + Delay(b, n) + late, n)
  }

  lemma AgainIsClose(b: Bucket, n: nat, late: real)
    requires b.Valid() && b.tokens < n as real <= b.cap && late >= 0.0
    ensures Again(b, n, late).now >= b.last
    ensures Granted(b, Again(b, n, late)) || Due(After(b, Again(b, n, late)), n) < NANOSECOND
    ensures Due(b, n) < NANOSECOND ==> Granted(b, Again(b, n, late))
  {
    DueIsDeficit(b, n);
    var pause := Delay(b, n) + late;
    assert b.last + pause == Again(b, n, late).now;
    if pause >= Due(b, n) {
      LateIsGranted(b, n, pause);
    } else {
      EarlyIsClose(b, n, pause);
    }
  }

  /** A request larger than the bucket is refused by every poll of every run. */
  lemma {:induction false} TooLargeIsNeverGranted(b: Bucket, before: seq<Poll>, p: Poll)
    requires b.Valid() && Ordered(b.last, before + [p]) && p.n as real > b.cap
    ensures !Granted(Run(b, before), p)
  {
    RunConcat(b, before, [p]);
    GrantsArePaid(b, before);
    RefillBounds(Run(b, before), p.now);
  }

  /**
   * A lone waiter for n bytes, polling again whenever its timer fires (never early), is granted by its third
   * poll if n fits the bucket, and by no poll at all otherwise. (The second can come a nanosecond early.)
   */
  lemma LoneWaiterGrantedIff(b: Bucket, now: real, n: nat, late: real, later: real)
    requires b.Valid() && b.last <= now && late >= 0.0 && later >= 0.0
    ensures var first := Poll(now, n);
            var second := Again(After(b, first), n, late);
            var third := Again(After(After(b, first), second), n, later);
            Granted(b, first) || Granted(After(b, first), second) || Granted(After(After(b, first), second), third)
            <==> n as real <= b.cap
  {
    var first := Poll(now, n);
    RefillBounds(b, now);
    var c := After(b, first);
    if !Granted(b, first) && n as real <= b.cap {
      AgainIsClose(c, n, late);
      RefillBounds(c, Again(c, n, late).now);
      if !Granted(c, Again(c, n, late)) {
        AgainIsClose(After(c, Again(c, n, late)), n, later);
      }
    }
  }

  class Limiter {
    const rate: real
    const cap: real
    var tokens: real
    var last: real

    ghost function State(): Bucket
      reads this
    {
      Bucket(rate, cap, tokens, last)
    }

    constructor (bytesPerSec: int, burst: int, now: real)
      requires bytesPerSec > 0
      ensures NewBucket(bytesPerSec, burst, now) == Some(State())
    {
      var c := burst as real;
      if c < bytesPerSec as real {
        c := bytesPerSec as real;
      }
      rate, cap, tokens, last := bytesPerSec as real, c, c, now;
    }

    /** The section under the mutex: refill, cap, and take n tokens if they are there. */
    method Take(now: real, n: nat) returns (granted: bool)
      requires rate > 0.0
      modifies this
      ensures granted == Granted(old(State()), Poll(now, n)) && State() == After(old(State()), Poll(now, n))
    {
      tokens := tokens + Earned(rate, now - last);
      last := now;
      if tokens > cap {
        tokens := cap;
      }
      if tokens >= n as real {
        tokens := tokens - n as real;
        return true;
      }
      return false;
    }

    /** When the timer fires that a refused poll has set: how long until n tokens are there, in whole nanoseconds. */
    method Pause(n: nat, late: real) returns (end: real)
      requires State().Valid() && tokens < n as real && late >= 0.0
      ensures end == Again(State(), n, late).now && end >= last
    {
      var ns := ((n as real - tokens) / rate * 1000000000.0).Floor;
      var pause := ns as real * NANOSECOND;
      if ns <= 0 {
        pause := MILLISECOND;
      }
      end := last + pause + late;
    }

    /** The next poll for n bytes, at `end`, is the last one needed, or the one after it is. */
    ghost predicate Nearly(n: nat, end: real, left: int)
      requires rate > 0.0
      reads this
    {
      var p := Poll(end, n);
      Granted(State(), p) || (left > 1 && (left > 2 || Due(After(State(), p), n) < NANOSECOND))
    }

    /** One poll of a waiter, and the time of the next. */
    method PollOnce(n: nat, now: real, late: real, ghost left: int) returns (granted: bool, end: real)
      requires State().Valid() && last <= now && late >= 0.0 && (n as real <= cap ==> left > 0 && Nearly(n, now, left))
      modifies this
      ensures State().Valid() && end >= last
      ensures granted ==> end == last && State().tokens + n as real <= cap
      ensures !granted && n as real <= cap ==> left > 1 && Nearly(n, end, left - 1)
      ensures n as real > cap ==> !granted
    {
      RefillBounds(State(), now);
      granted := Take(now, n);
      end := now;
      if !granted {
        end := Pause(n, late);
        if n as real <= cap {
          AgainIsClose(State(), n, late);
        }
      }
    }

    /**
     * wait, for a lone waiter whose i-th timer fires late(i) after its time, unless the transfer is cancelled
     * while it waits for it. A request that fits the bucket is granted by the third poll at the latest; a
     * larger one waits until it is cancelled, so it ends only if that happens.
     */
    method Wait(n: nat, start: real, late: nat -> real, cancelled: nat -> bool, ghost stop: nat)
      returns (granted: bool, polls: nat, end: real)
      requires State().Valid() && last <= start && forall i :: late(i) >= 0.0
      requires n as real <= cap || (stop > 0 && cancelled(stop))
      modifies this
      ensures State().Valid() && (granted ==> end == if n == 0 then start else last)
      ensures n == 0 ==> granted && polls == 0 && State() == old(State())
      ensures n > 0 && granted ==> 1 <= polls <= 3 && State().tokens + n as real <= cap
      ensures !granted ==> polls > 0 && cancelled(polls) && forall i | 0 < i < polls :: !cancelled(i)
      ensures n as real <= cap ==> granted || polls <= 2
    {
      granted, polls, end := n == 0, 0, start;
      while !granted
        invariant State().Valid() && last <= end
        invariant !granted && n as real <= cap ==> polls <= 2 && Nearly(n, end, 3 - polls)
        invariant if n == 0 then granted && polls == 0 && State() == old(State()) && end == start
                  else granted ==> 1 <= polls <= 3 && State().tokens + n as real <= cap && end == last
        invariant !granted ==> forall i | 0 < i <= polls :: !cancelled(i)
        decreases !granted, if n as real <= cap then 3 - polls else stop - polls
      {
        granted, end := PollOnce(n, end, late(polls + 1), 3 - polls);
        polls := polls + 1;
        if !granted && cancelled(polls) {
          return;
        }
      }
    }
  }
}
