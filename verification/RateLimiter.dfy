/**
  The token-bucket rate limiter of benchmarks/disagg_benchmarks/rate_limiter.py, with an integer
  rate. Each round of acquire runs under the lock, so a run is a sequence of rounds at the times
  they read from the monotone clock, whichever task they belong to.
 */
module RateLimiting {
  datatype State = State(available: int, lastRefill: real)

  /** One round of acquire: a token, or the time to sleep before the next round. */
  datatype Reply = Granted | Wait(time: real)

  /** Refill when more than a second has passed since the last refill. */
  function Refill(rate: int, s: State, now: real): State {
    if now - s.lastRefill > 1.0 then State(rate, now) else s
  }

  function Round(rate: int, s: State, now: real): (State, Reply) {
    var t := Refill(rate, s, now);
    if t.available > 0 then (t.(available := t.available - 1), Granted)
    else (t, Wait(1.0 - (now - s.lastRefill)))
  }

  function Fresh(rate: int, now: real): State { State(rate, now) }

  class RateLimiter {
    const rateLimit: int
    var numAvailableTokens: int
    var lastRefill: real

    function Contents(): State
      reads this
    {
      State(numAvailableTokens, lastRefill)
    }

    constructor (rateLimit: int, now: real)
      ensures this.rateLimit == rateLimit && Contents() == Fresh(rateLimit, now)
    {
      this.rateLimit := rateLimit;
      numAvailableTokens, lastRefill := rateLimit, now;
    }

    /** The body of the loop in acquire, with the clock read inside the lock. */
    method TryAcquire(now: real) returns (reply: Reply)
      modifies this
      ensures (Contents(), reply) == Round(rateLimit, old(Contents()), now)
    {
      var elapsed := now - lastRefill;
      if elapsed > 1.0 {
        numAvailableTokens := rateLimit;
        lastRefill := now;
      }
      if numAvailableTokens > 0 {
        numAvailableTokens := numAvailableTokens - 1;
        return Granted;
      }
      var waitTime := 1.0 - elapsed;
      return Wait(waitTime);
    }
  }

  // ---------- runs ----------

  /** The state behind the first n rounds. */
  function After(rate: int, s: State, times: seq<real>, n: nat): State
    requires n <= |times|
  {
    if n == 0 then s else Round(rate, After(rate, s, times, n - 1), times[n - 1]).0
  }

  function ReplyAt(rate: int, s: State, times: seq<real>, n: nat): Reply
    requires n < |times|
  {
    Round(rate, After(rate, s, times, n), times[n]).1
  }

  /** Tokens granted by the rounds from i up to j. */
  function Grants(rate: int, s: State, times: seq<real>, i: nat, j: nat): nat
    requires i <= j <= |times|
  {
    if i == j then 0
    else Grants(rate, s, times, i, j - 1) + if ReplyAt(rate, s, times, j - 1).Granted? then 1 else 0
  }

  /** The clock never goes back, and the first round is not before the last refill. */
  ghost predicate Monotone(s: State, times: seq<real>) {
    && (forall i, j :: 0 <= i <= j < |times| ==> times[i] <= times[j])
    && forall i :: 0 <= i < |times| ==> s.lastRefill <= times[i]
  }

  ghost predicate InRange(rate: int, s: State) { 0 <= s.available <= rate }

  /** The smallest integer that is not below x. */
  function Ceil(x: real): int { -(-x).Floor }

  // ---------- single rounds ----------

  /** Every round keeps the number of tokens between 0 and the rate. */
  lemma RoundKeepsRange(rate: int, s: State, now: real)
    requires rate >= 0 && InRange(rate, s)
    ensures InRange(rate, Round(rate, s, now).0)
  {}

  /** A wait is never negative exactly when it is no refill that failed to bring a token. */
  lemma WaitIsNonNegativeIff(rate: int, s: State, now: real)
    requires Round(rate, s, now).1.Wait?
    ensures Round(rate, s, now).1.time >= 0.0 <==> now - s.lastRefill <= 1.0
    ensures rate >= 1 ==> Round(rate, s, now).1.time >= 0.0
  {}

  /** If nobody comes in between, a later round is served exactly when it comes after more than the wait. */
  lemma LaterRoundIsServedIff(rate: int, s: State, now: real, later: real)
    requires rate >= 1 && Round(rate, s, now).1.Wait?
    ensures Round(rate, Round(rate, s, now).0, later).1.Granted? <==> later > now + Round(rate, s, now).1.time
  {}

  /** In particular sleeping for exactly the wait is not enough: elapsed is 1.0, and the refill asks for more. */
  lemma ExactWaitIsRefused(rate: int, s: State, now: real)
    requires Round(rate, s, now).1.Wait? && rate >= 1
    ensures Round(rate, Round(rate, s, now).0, now + Round(rate, s, now).1.time).1 == Wait(0.0)
  {}

  // ---------- the rate over whole runs ----------

  lemma {:induction false} AvailableStaysInRange(rate: int, s: State, times: seq<real>, n: nat)
    requires rate >= 0 && InRange(rate, s) && n <= |times|
    ensures InRange(rate, After(rate, s, times, n))
  {
    if n > 0 {
      AvailableStaysInRange(rate, s, times, n - 1);
      RoundKeepsRange(rate, After(rate, s, times, n - 1), times[n - 1]);
    }
  }

  /**
    Whenever it is made, a limiter serves `rate` rounds of its first second at once, and tells all
    others to wait for the end of that second.
   */
  lemma {:induction false} FirstSecond(rate: nat, start: real, times: seq<real>, n: nat)
    requires n < |times| && forall i :: 0 <= i < |times| ==> start <= times[i] <= start + 1.0
    ensures ReplyAt(rate, Fresh(rate, start), times, n)
         == if n < rate then Granted else Wait(start + 1.0 - times[n])
    ensures After(rate, Fresh(rate, start), times, n) == State(if n < rate then rate - n else 0, start)
  {
    if n > 0 { FirstSecond(rate, start, times, n - 1); }
  }

  /** The last refill is never ahead of the clock. */
  lemma {:induction false} RefillIsInThePast(rate: int, s: State, times: seq<real>, n: nat, i: nat)
    requires Monotone(s, times) && n <= i < |times|
    ensures After(rate, s, times, n).lastRefill <= times[i]
  {
    if n > 0 { RefillIsInThePast(rate, s, times, n - 1, i); }
  }

  /**
    From round i on, every refill takes more than a second of the window: r refills span more than
    r - 1 seconds, and each of them pays for at most `rate` tokens.
   */
  lemma {:induction false} RefillsPayForGrants(rate: int, s: State, times: seq<real>, i: nat, j: nat) returns (r: nat)
    requires rate >= 1 && InRange(rate, s) && Monotone(s, times) && i < j <= |times|
    ensures Grants(rate, s, times, i, j) + After(rate, s, times, j).available <= rate * (r + 1)
    ensures r == 0 || After(rate, s, times, j).lastRefill >= times[i] + (r - 1) as real
    ensures r > 1 ==> After(rate, s, times, j).lastRefill > times[i] + (r - 1) as real
    ensures r > 0 ==> After(rate, s, times, j).lastRefill <= times[j - 1]
  {
    var before := After(rate, s, times, j - 1);
    var refilled := times[j - 1] - before.lastRefill > 1.0;
    AvailableStaysInRange(rate, s, times, j - 1);
    assert Grants(rate, s, times, i, i) == 0;
    if j == i + 1 {
      r := if refilled then 1 else 0;
    } else {
      r := RefillsPayForGrants(rate, s, times, i, j - 1);
      assert rate * (r + 2) == rate * (r + 1) + rate;
      if refilled { r := r + 1; }
    }
  }

  lemma TimesMonotone(rate: int, a: int, b: int)
    requires rate >= 0 && a <= b
    ensures rate * a <= rate * b
  {}

  /** In any window of length L > 0, at most rate * (ceil(L) + 1) tokens are granted. */
  lemma RateBound(rate: int, s: State, times: seq<real>, i: nat, j: nat, L: real)
    requires rate >= 1 && InRange(rate, s) && Monotone(s, times) && i < j <= |times| && L > 0.0
    requires times[j - 1] - times[i] <= L
    ensures Grants(rate, s, times, i, j) <= rate * (Ceil(L) + 1)
  {
    var r := RefillsPayForGrants(rate, s, times, i, j);
    var c := Ceil(L);
    AvailableStaysInRange(rate, s, times, j);
    assert L <= c as real;
    assert r <= c;
    TimesMonotone(rate, r + 1, c + 1);
  }

  // ---------- the bound is reached ----------

  /** n rounds at one instant with enough tokens and no refill due are all served. */
  lemma {:induction false} BurstIsServed(rate: int, s: State, times: seq<real>, i: nat, n: nat, t: State)
    requires i + n <= |times| && After(rate, s, times, i) == t && n <= t.available
    requires forall k :: i <= k < i + n ==> times[k] - t.lastRefill <= 1.0
    ensures Grants(rate, s, times, i, i + n) == n
    ensures After(rate, s, times, i + n) == State(t.available - n, t.lastRefill)
  {
    if n > 0 { BurstIsServed(rate, s, times, i, n - 1, t); }
  }

  lemma {:induction false} GrantsSplit(rate: int, s: State, times: seq<real>, i: nat, j: nat, k: nat)
    requires i <= j <= k <= |times|
    ensures Grants(rate, s, times, i, k) == Grants(rate, s, times, i, j) + Grants(rate, s, times, j, k)
  {
    if j < k { GrantsSplit(rate, s, times, i, j, k - 1); }
  }

  lemma {:induction false} AfterPrefix(rate: int, s: State, times: seq<real>, more: seq<real>, n: nat)
    requires n <= |times|
    ensures After(rate, s, times + more, n) == After(rate, s, times, n)
    ensures Grants(rate, s, times + more, 0, n) == Grants(rate, s, times, 0, n)
  {
    if n > 0 { AfterPrefix(rate, s, times, more, n - 1); }
  }

  /** An empty bucket that is due for a refill serves the next round. */
  lemma RefillServesAgain(rate: nat, s: State, times: seq<real>, i: nat, now: real)
    requires rate >= 1 && i < |times| && times[i] == now
    requires After(rate, s, times, i).available == 0 && now - After(rate, s, times, i).lastRefill > 1.0
    ensures After(rate, s, times, i + 1) == State(rate - 1, now) && Grants(rate, s, times, i, i + 1) == 1
  {
    assert Grants(rate, s, times, i, i) == 0;
    assert ReplyAt(rate, s, times, i) == Granted;
  }

  /** The first burst comes one second after the start, the others at the multiples of step. */
  function BurstTime(step: real, q: nat): real {
    if q == 0 then 1.0 else if q == 1 then step else BurstTime(step, q - 1) + step
  }

  /** `rate` rounds at each of the burst times 0 to q. */
  function Bursts(rate: nat, step: real, q: nat): (times: seq<real>) {
    (if q == 0 then [] else Bursts(rate, step, q - 1)) + seq(rate, _ => BurstTime(step, q))
  }

  lemma {:induction false} BurstsAreOrdered(rate: nat, step: real, q: nat)
    requires rate >= 1 && step > 1.0
    ensures var times := Bursts(rate, step, q);
            && |times| > 0 && times[0] == 1.0 && times[|times| - 1] == BurstTime(step, q)
            && Monotone(Fresh(rate, 0.0), times)
    ensures forall i :: 0 <= i < |Bursts(rate, step, q)| ==> Bursts(rate, step, q)[i] <= BurstTime(step, q)
  {
    if q > 0 { BurstsAreOrdered(rate, step, q - 1); }
  }

  lemma {:induction false} NumberOfRounds(rate: nat, step: real, q: nat)
    ensures |Bursts(rate, step, q)| == rate * (q + 1)
  {
    if q > 0 { NumberOfRounds(rate, step, q - 1); }
    assert rate * (q + 1) == rate * q + rate;
  }

  /** A burst at the end of the run, more than a second after the last refill, empties the bucket again. */
  lemma FullBurst(rate: nat, s: State, times: seq<real>, i: nat, last: real, now: real)
    requires rate >= 1 && i + rate == |times| && forall k :: i <= k < |times| ==> times[k] == now
    requires After(rate, s, times, i) == State(0, last) && Grants(rate, s, times, 0, i) == i && now - last > 1.0
    ensures After(rate, s, times, |times|) == State(0, now) && Grants(rate, s, times, 0, |times|) == |times|
  {
    RefillServesAgain(rate, s, times, i, now);
    BurstIsServed(rate, s, times, i + 1, rate - 1, State(rate - 1, now));
    GrantsSplit(rate, s, times, 0, i, |times|);
    GrantsSplit(rate, s, times, i, i + 1, |times|);
  }

  /** Every burst but the first finds the bucket empty and due for a refill, and empties it again. */
  lemma {:induction false} BurstsAreServed(rate: nat, step: real, q: nat)
    requires rate >= 1 && step > 1.0
    ensures var s, times := Fresh(rate, 0.0), Bursts(rate, step, q);
            && After(rate, s, times, |times|) == State(0, if q == 0 then 0.0 else BurstTime(step, q))
            && Grants(rate, s, times, 0, |times|) == |times|
  {
    var s, times, now := Fresh(rate, 0.0), Bursts(rate, step, q), BurstTime(step, q);
    if q == 0 {
      BurstIsServed(rate, s, times, 0, rate, s);
    } else {
      var before := Bursts(rate, step, q - 1);
      var i := |before|;
      BurstsAreServed(rate, step, q - 1);
      AfterPrefix(rate, s, before, seq(rate, _ => now), i);
      FullBurst(rate, s, times, i, if q == 1 then 0.0 else BurstTime(step, q - 1), now);
    }
  }

  lemma {:induction false} BurstTimeIsProduct(step: real, q: nat)
    requires q >= 1
    ensures BurstTime(step, q) == q as real * step
  {
    if q > 1 {
      BurstTimeIsProduct(step, q - 1);
      assert (q - 1) as real * step + step == q as real * step;
    }
  }

  lemma StepForWindow(L: real, c: nat) returns (step: real)
    requires c >= 1 && (c - 1) as real < L
    ensures step > 1.0 && BurstTime(step, c) - 1.0 == L
  {
    var d := (L - (c - 1) as real) / c as real;
    step := 1.0 + d;
    BurstTimeIsProduct(step, c);
    assert c as real * d == L - (c - 1) as real;
    assert c as real * step == c as real + c as real * d;
  }

  /** For every window length there is a run that reaches the bound, so it cannot be lowered. */
  lemma RateBoundIsReached(rate: nat, L: real) returns (times: seq<real>)
    requires rate >= 1 && L > 0.0
    ensures Monotone(Fresh(rate, 0.0), times) && |times| > 0 && times[|times| - 1] - times[0] == L
    ensures Grants(rate, Fresh(rate, 0.0), times, 0, |times|) == rate * (Ceil(L) + 1)
  {
    var c := Ceil(L);
    var step := StepForWindow(L, c);
    times := Bursts(rate, step, c);
    BurstsAreOrdered(rate, step, c);
    BurstsAreServed(rate, step, c);
    NumberOfRounds(rate, step, c);
  }
}
