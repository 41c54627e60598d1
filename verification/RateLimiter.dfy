/** The token bucket of the fixture transports
    (internal/authz/fixture_distribution_transport.go).  Time is in seconds. */
module RateLimiter {

  datatype Bucket = Bucket(tokens: int, lastRefill: real)

  /** Tokens earned in a span of time, fractions included. */
  function Earned(rate: nat, span: real): real {
    span * rate as real
  }

  /** Tokens after the refill of a call at `now`: the elapsed time earns whole tokens only, and
      no more than the bucket holds. */
  function Refilled(rate: nat, b: Bucket, now: real): int {
    var earned := Earned(rate, now - b.lastRefill).Floor;
    if earned <= 0 then b.tokens
    else if b.tokens + earned > rate then rate
    else b.tokens + earned
  }

  predicate Granted(rate: nat, b: Bucket, now: real) {
    Refilled(rate, b, now) > 0
  }

  function After(rate: nat, b: Bucket, now: real): Bucket {
    Bucket(if Granted(rate, b, now) then Refilled(rate, b, now) - 1 else Refilled(rate, b, now), now)
  }

  class Limiter {
    var tokens: int
    const maxTokens: nat
    const refillRate: nat
    var lastRefill: real

    ghost predicate Valid()
      reads this
    {
      0 < maxTokens == refillRate && 0 <= tokens <= maxTokens
    }

    function Abstract(): Bucket
      reads this
    {
      Bucket(tokens, lastRefill)
    }

    constructor (ratePerSecond: nat, now: real)
      requires 0 < ratePerSecond
      ensures Valid() && refillRate == ratePerSecond && Abstract() == Bucket(ratePerSecond, now)
    {
      tokens, maxTokens, refillRate, lastRefill := ratePerSecond, ratePerSecond, ratePerSecond, now;
    }

    method Allow(now: real) returns (granted: bool)
      requires Valid()
      modifies `tokens, `lastRefill
      ensures Valid()
      ensures granted == Granted(refillRate, old(Abstract()), now)
      ensures Abstract() == After(refillRate, old(Abstract()), now)
    {
      var elapsed := now - lastRefill;
      lastRefill := now;
      var tokensToAdd := (elapsed * refillRate as real).Floor;
      if tokensToAdd > 0 {
        tokens := tokens + tokensToAdd;
        if tokens > maxTokens {
          tokens := maxTokens;
        }
      }
      if tokens > 0 {
        tokens := tokens - 1;
        return true;
      }
      return false;
    }

    /** Polls until granted; `readings` are the clock at each poll before the wait is cancelled. */
    method Wait(readings: seq<real>) returns (granted: bool, polls: nat)
      requires Valid()
      modifies `tokens, `lastRefill
      ensures Valid() && polls <= |readings|
      ensures Abstract() == Run(refillRate, old(Abstract()), readings[..polls])
      ensures granted ==> polls > 0 && GrantedAt(refillRate, old(Abstract()), readings, polls - 1)
      ensures !granted ==> polls == |readings|
      ensures granted == SomeGranted(refillRate, old(Abstract()), readings)
      ensures forall k :: 0 <= k < (if granted then polls - 1 else polls) ==>
        !GrantedAt(refillRate, old(Abstract()), readings, k)
    {
      granted, polls := false, 0;
      while polls < |readings|
        invariant Valid() && polls <= |readings|
        invariant Abstract() == Run(refillRate, old(Abstract()), readings[..polls])
        invariant forall k :: 0 <= k < polls ==> !GrantedAt(refillRate, old(Abstract()), readings, k)
      {
        RunStep(refillRate, old(Abstract()), readings, polls);
        granted := Allow(readings[polls]);
        assert granted == GrantedAt(refillRate, old(Abstract()), readings, polls);
        polls := polls + 1;
        if granted {
          return;
        }
      }
    }
  }

  /** A rate that is not positive means no limiter. */
  method NewRateLimiter(ratePerSecond: int, now: real) returns (limiter: Limiter?)
    ensures limiter == null <==> ratePerSecond <= 0
    ensures limiter != null ==> fresh(limiter) && limiter.Valid()
    ensures limiter != null ==> limiter.refillRate == ratePerSecond && limiter.Abstract() == Bucket(ratePerSecond, now)
  {
    if ratePerSecond <= 0 {
      return null;
    }
    limiter := new Limiter(ratePerSecond, now);
  }

  // ---------------------------------------------------------------- runs

  /** The bucket after calls at the given times. */
  function Run(rate: nat, b: Bucket, times: seq<real>): Bucket {
    if times == [] then b else After(rate, Run(rate, b, times[..|times| - 1]), times[|times| - 1])
  }

  predicate GrantedAt(rate: nat, b: Bucket, times: seq<real>, k: nat)
    requires k < |times|
  {
    Granted(rate, Run(rate, b, times[..k]), times[k])
  }

  ghost predicate SomeGranted(rate: nat, b: Bucket, times: seq<real>) {
    exists k :: 0 <= k < |times| && GrantedAt(rate, b, times, k)
  }

  /** How many of the calls from i up to, not including, j are granted. */
  function Grants(rate: nat, b: Bucket, times: seq<real>, i: nat, j: nat): nat
    requires i <= j <= |times|
  {
    if i == j then 0 else Grants(rate, b, times, i, j - 1) + (if GrantedAt(rate, b, times, j - 1) then 1 else 0)
  }

  ghost predicate Clocked(b: Bucket, times: seq<real>) {
    && (times != [] ==> b.lastRefill <= times[0])
    && (forall i, j :: 0 <= i < j < |times| ==> times[i] <= times[j])
  }

  lemma RunStep(rate: nat, b: Bucket, times: seq<real>, k: nat)
    requires k < |times|
    ensures Run(rate, b, times[..k + 1]) == After(rate, Run(rate, b, times[..k]), times[k])
  {
    assert times[..k + 1][..k] == times[..k];
  }

  /** The number of tokens stays between none and the capacity. */
  lemma {:induction false} TokensBounded(rate: nat, b: Bucket, times: seq<real>)
    requires 0 <= b.tokens <= rate
    ensures 0 <= Run(rate, b, times).tokens <= rate
  {
    if times == [] {
    } else {
      TokensBounded(rate, b, times[..|times| - 1]);
    }
  }

  lemma StepBalance(rate: nat, b: Bucket, now: real)
    requires 0 <= b.tokens <= rate
    ensures After(rate, b, now).tokens + (if Granted(rate, b, now) then 1 else 0) == Refilled(rate, b, now) <= rate
  {
  }

  lemma EarnedAtMost(rate: nat, b: Bucket, now: real)
    requires b.lastRefill <= now
    ensures Refilled(rate, b, now) as real <= b.tokens as real + Earned(rate, now - b.lastRefill)
  {
    var x := Earned(rate, now - b.lastRefill);
    EarnedNonNegative(rate, now - b.lastRefill);
    assert x.Floor as real <= x;
  }

  lemma EarnedNonNegative(rate: nat, span: real)
    requires span >= 0.0
    ensures Earned(rate, span) >= 0.0
  {
  }

  lemma EarnedAdds(rate: nat, a: real, b: real, c: real)
    ensures Earned(rate, b - a) + Earned(rate, c - b) == Earned(rate, c - a)
  {
    assert (c - a) * rate as real == (b - a) * rate as real + (c - b) * rate as real;
  }

  lemma BalanceStep(rate: nat, b: Bucket, start: real, now: real, grants: nat)
    requires 0 <= b.tokens <= rate && b.lastRefill <= now
    requires (grants + b.tokens) as real <= rate as real + Earned(rate, b.lastRefill - start)
    ensures (grants + (if Granted(rate, b, now) then 1 else 0) + After(rate, b, now).tokens) as real
         <= rate as real + Earned(rate, now - start)
  {
    StepBalance(rate, b, now);
    EarnedAtMost(rate, b, now);
    EarnedAdds(rate, start, b.lastRefill, now);
  }

  /** What was granted in a window, and what is left, was there at its start or was earned. */
  lemma {:induction false} WindowBalance(rate: nat, b: Bucket, times: seq<real>, i: nat, j: nat)
    requires 0 <= b.tokens <= rate && Clocked(b, times) && i <= j < |times|
    ensures (Grants(rate, b, times, i, j + 1) + Run(rate, b, times[..j + 1]).tokens) as real
         <= rate as real + Earned(rate, times[j] - times[i])
  {
    var before := Run(rate, b, times[..j]);
    TokensBounded(rate, b, times[..j]);
    RunStep(rate, b, times, j);
    if i == j {
      StepBalance(rate, before, times[j]);
      assert Grants(rate, b, times, i, j) == 0;
      EarnedNonNegative(rate, 0.0);
    } else {
      WindowBalance(rate, b, times, i, j - 1);
      RunStep(rate, b, times, j - 1);
      BalanceStep(rate, before, times[i], times[j], Grants(rate, b, times, i, j));
    }
  }

  /** In every run and every window of it, at most the capacity and what the window's time earns
      is granted. */
  lemma WindowBound(rate: nat, b: Bucket, times: seq<real>, i: nat, j: nat)
    requires 0 <= b.tokens <= rate && Clocked(b, times) && i <= j < |times|
    ensures Grants(rate, b, times, i, j + 1) as real <= rate as real + Earned(rate, times[j] - times[i])
  {
    WindowBalance(rate, b, times, i, j);
    TokensBounded(rate, b, times[..j + 1]);
  }

  // ---------------------------------------------------------------- a bucket that holds tokens

  /** A refill loses no token: the bucket is full afterwards, or all but a fraction of what was earned
      is in it. */
  lemma RefillKeeps(rate: nat, b: Bucket, now: real)
    requires 0 <= b.tokens <= rate
    ensures b.tokens <= Refilled(rate, b, now)
    ensures Refilled(rate, b, now) == rate
         || Refilled(rate, b, now) as real > b.tokens as real + Earned(rate, now - b.lastRefill) - 1.0
  {
    var x := Earned(rate, now - b.lastRefill);
    assert x < (x.Floor + 1) as real;
  }

  /** In every run a bucket that holds n tokens grants each of the next n calls. */
  lemma {:induction false} HeldTokensGrant(rate: nat, b: Bucket, times: seq<real>, k: nat)
    requires 0 <= b.tokens <= rate && k < |times|
    ensures Run(rate, b, times[..k]).tokens >= b.tokens - k
    ensures k < b.tokens ==> GrantedAt(rate, b, times, k)
  {
    if k == 0 {
      assert times[..0] == [];
    } else {
      HeldTokensGrant(rate, b, times, k - 1);
      TokensBounded(rate, b, times[..k - 1]);
      RefillKeeps(rate, Run(rate, b, times[..k - 1]), times[k - 1]);
      RunStep(rate, b, times, k - 1);
    }
    TokensBounded(rate, b, times[..k]);
    RefillKeeps(rate, Run(rate, b, times[..k]), times[k]);
  }

  /** In every run a call is refused if and only if the bucket is empty and the time since the call
      before is worth less than a token. */
  lemma RefusedIff(rate: nat, b: Bucket, times: seq<real>, k: nat)
    requires 0 < rate && 0 <= b.tokens <= rate && k < |times|
    ensures !GrantedAt(rate, b, times, k) <==> Run(rate, b, times[..k]).tokens == 0 && Gap(rate, b, times, k) < 1.0
  {
    var before := Run(rate, b, times[..k]);
    TokensBounded(rate, b, times[..k]);
    if k > 0 {
      RunStep(rate, b, times, k - 1);
    }
    if before.tokens == 0 {
      EmptyStep(rate, before, times[k]);
    } else {
      RefillKeeps(rate, before, times[k]);
    }
  }

  // ---------------------------------------------------------------- an empty bucket

  /** The time before call k since the call before it. */
  function Since(b: Bucket, times: seq<real>, k: nat): real
    requires k < |times|
  {
    times[k] - (if k == 0 then b.lastRefill else times[k - 1])
  }

  /** That time, in tokens. */
  function Gap(rate: nat, b: Bucket, times: seq<real>, k: nat): real
    requires k < |times|
  {
    Earned(rate, Since(b, times, k))
  }

  lemma {:induction false} EmptyUntilGap(rate: nat, b: Bucket, times: seq<real>, n: nat)
    requires b.tokens == 0 && n <= |times|
    requires forall k :: 0 <= k < n ==> Gap(rate, b, times, k) < 1.0
    ensures Run(rate, b, times[..n]).tokens == 0
    ensures n > 0 ==> Run(rate, b, times[..n]).lastRefill == times[n - 1]
    ensures n == 0 ==> Run(rate, b, times[..n]).lastRefill == b.lastRefill
  {
    if n == 0 {
    } else {
      EmptyUntilGap(rate, b, times, n - 1);
      RunStep(rate, b, times, n - 1);
      EmptyStep(rate, Run(rate, b, times[..n - 1]), times[n - 1]);
      assert Gap(rate, b, times, n - 1) < 1.0;
    }
  }

  lemma EmptyStep(rate: nat, b: Bucket, now: real)
    requires b.tokens == 0
    ensures rate > 0 ==> (Granted(rate, b, now) <==> Earned(rate, now - b.lastRefill) >= 1.0)
    ensures Earned(rate, now - b.lastRefill) < 1.0 ==> After(rate, b, now) == Bucket(0, now)
  {
    FloorPositive(Earned(rate, now - b.lastRefill));
  }

  lemma FloorPositive(x: real)
    ensures x.Floor > 0 <==> x >= 1.0
  {
    assert x.Floor as real <= x < (x.Floor + 1) as real;
  }

  lemma GrantNeedsGap(rate: nat, b: Bucket, times: seq<real>, k: nat)
    requires rate > 0 && b.tokens == 0 && k < |times|
    requires forall j :: 0 <= j < k ==> Gap(rate, b, times, j) < 1.0
    ensures GrantedAt(rate, b, times, k) <==> Gap(rate, b, times, k) >= 1.0
  {
    EmptyUntilGap(rate, b, times, k);
    EmptyStep(rate, Run(rate, b, times[..k]), times[k]);
  }

  /** Fractions of a token are lost at every call, so an empty bucket grants again if and only if
      two consecutive calls are at least the time of one token apart. */
  lemma EmptyBucketGrantsIff(rate: nat, b: Bucket, times: seq<real>)
    requires rate > 0 && b.tokens == 0
    ensures SomeGranted(rate, b, times) <==> (exists k :: 0 <= k < |times| && Gap(rate, b, times, k) >= 1.0)
  {
    if k :| 0 <= k < |times| && Gap(rate, b, times, k) >= 1.0 {
      var first := FirstGap(rate, b, times, k);
      GrantNeedsGap(rate, b, times, first);
    } else {
      forall k | 0 <= k < |times| ensures !GrantedAt(rate, b, times, k) {
        GrantNeedsGap(rate, b, times, k);
      }
    }
  }

  lemma {:induction false} FirstGap(rate: nat, b: Bucket, times: seq<real>, k: nat) returns (first: nat)
    requires k < |times| && Gap(rate, b, times, k) >= 1.0
    ensures first < |times| && Gap(rate, b, times, first) >= 1.0
    ensures forall j :: 0 <= j < first ==> Gap(rate, b, times, j) < 1.0
  {
    if j: nat :| j < k && Gap(rate, b, times, j) >= 1.0 {
      first := FirstGap(rate, b, times, j);
    } else {
      first := k;
    }
  }

  // ---------------------------------------------------------------- waiting

  /** Time between two polls of a wait. */
  const POLL := 0.1

  /** A wait polls at once, and after each poll waits for the poll interval and at most `late` more. */
  ghost predicate Polls(b: Bucket, times: seq<real>, late: real) {
    forall k :: 0 < k < |times| ==> POLL <= Since(b, times, k) <= POLL + late
  }

  lemma EarnedMonotone(rate: nat, a: real, b: real)
    requires a <= b
    ensures Earned(rate, a) <= Earned(rate, b)
  {
    EarnedNonNegative(rate, b - a);
    EarnedAdds(rate, 0.0, a, b);
  }

  lemma PollGap(rate: nat, b: Bucket, times: seq<real>, late: real, k: nat)
    requires Polls(b, times, late) && 0 < k < |times|
    ensures Earned(rate, POLL) <= Gap(rate, b, times, k) <= Earned(rate, POLL + late)
  {
    EarnedMonotone(rate, POLL, Since(b, times, k));
    EarnedMonotone(rate, Since(b, times, k), POLL + late);
  }

  /** A wait on an empty bucket that nobody else calls ends by the second poll if the rate is at least
      ten a second.  At a lower rate, and if the first poll is refused, it never ends while no poll is
      later than the time of one token after the one before. */
  lemma WaitGrants(rate: nat, b: Bucket, times: seq<real>, late: real)
    requires rate > 0 && b.tokens == 0 && times != [] && Polls(b, times, late)
    ensures rate >= 10 && |times| >= 2 ==> GrantedAt(rate, b, times, 0) || GrantedAt(rate, b, times, 1)
    ensures !GrantedAt(rate, b, times, 0) && Earned(rate, POLL + late) < 1.0 ==>
      forall k :: 0 <= k < |times| ==> !GrantedAt(rate, b, times, k)
  {
    GrantNeedsGap(rate, b, times, 0);
    forall k | 0 < k < |times|
      ensures Earned(rate, POLL) <= Gap(rate, b, times, k) <= Earned(rate, POLL + late)
    {
      PollGap(rate, b, times, late, k);
    }
    if !GrantedAt(rate, b, times, 0) && |times| >= 2 {
      GrantNeedsGap(rate, b, times, 1);
    }
    if !GrantedAt(rate, b, times, 0) && Earned(rate, POLL + late) < 1.0 {
      EmptyBucketGrantsIff(rate, b, times);
    }
  }

  /** The poll times of a wait that starts at `start` and whose timers fire on time. */
  function WaitTimes(start: real, polls: nat): seq<real> {
    seq(polls, k => start + k as real * POLL)
  }

  lemma WaitTimesPoll(b: Bucket, start: real, polls: nat)
    ensures Polls(b, WaitTimes(start, polls), 0.0)
  {
    forall k | 0 < k < polls ensures Since(b, WaitTimes(start, polls), k) == POLL {
      assert k as real == (k - 1) as real + 1.0;
    }
  }

  /** On an empty bucket a wait of so many polls is granted if and only if a token was earned before
      it, or it polls twice and the rate is at least ten a second. */
  lemma WaitEndsIff(rate: nat, b: Bucket, start: real, polls: nat)
    requires rate > 0 && b.tokens == 0
    ensures SomeGranted(rate, b, WaitTimes(start, polls)) <==>
      polls > 0 && (Earned(rate, start - b.lastRefill) >= 1.0 || (polls > 1 && rate >= 10))
  {
    var times := WaitTimes(start, polls);
    WaitTimesPoll(b, start, polls);
    if polls > 0 {
      GrantNeedsGap(rate, b, times, 0);
      WaitGrants(rate, b, times, 0.0);
    }
  }
}
