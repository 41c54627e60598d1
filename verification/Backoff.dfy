/** Exponential backoff around an evaluator (internal/authz/backoff_evaluator.go).  Times and
    durations are in nanoseconds. */
module Backoff {

  import opened Wrappers

  newtype Int64 = x: int | -0x8000_0000_0000_0000 <= x < 0x8000_0000_0000_0000

  function Pow2(n: nat): nat {
    if n == 0 then 1 else 2 * Pow2(n - 1)
  }

  /** The delay after a number of consecutive failures.  Doubling stops at half the maximum
      rounded down, and altogether after 31 failures. */
  function Delay(base: int, max: int, failures: nat): int
    requires 0 < failures
  {
    var doubled := base * Pow2(failures - 1);
    if failures > 31 then max
    else if failures > 1 && doubled >= max - max % 2 then max
    else doubled
  }

  predicate ValidDelays(base: int, max: int) {
    0 < base <= max
  }

  // ---------------------------------------------------------------- the delay

  /** Computed in 64 bits without overflow. */
  method DelayForFailures(base: Int64, max: Int64, failures: Int64) returns (delay: Int64)
    requires ValidDelays(base as int, max as int) && 0 < failures
    ensures delay as int == Delay(base as int, max as int, failures as int)
  {
    var shift := failures - 1;
    if shift > 30 {
      return max;
    }
    delay := base;
    var i: Int64 := 0;
    while i < shift
      invariant 0 <= i <= shift
      invariant delay as int == base as int * Pow2(i as int)
      invariant delay <= max
      invariant i > 0 ==> delay as int < max as int - max as int % 2
    {
      if delay >= max / 2 {
        Doubles(base as int, i as int);
        Grows(base as int, i as int + 1, shift as int);
        return max;
      }
      Doubles(base as int, i as int);
      delay := delay * 2;
      i := i + 1;
    }
    if delay > max {
      return max;
    }
  }

  lemma Doubles(base: int, k: nat)
    ensures base * Pow2(k + 1) == 2 * (base * Pow2(k))
  {
  }

  lemma {:induction false} Grows(base: int, j: nat, k: nat)
    requires 0 < base && j <= k
    ensures base <= base * Pow2(j) <= base * Pow2(k)
    decreases k
  {
    if k == 0 {
    } else if j == k {
      Grows(base, j - 1, k - 1);
      Doubles(base, k - 1);
    } else {
      Grows(base, j, k - 1);
      Doubles(base, k - 1);
    }
  }

  lemma DelayInRange(base: int, max: int, failures: nat)
    requires ValidDelays(base, max) && 0 < failures
    ensures base <= Delay(base, max, failures) <= max
  {
    Grows(base, 0, failures - 1);
  }

  /** More failures never shorten the delay. */
  lemma DelayMonotone(base: int, max: int, f: nat, g: nat)
    requires ValidDelays(base, max) && 0 < f <= g
    ensures Delay(base, max, f) <= Delay(base, max, g)
  {
    Grows(base, f - 1, g - 1);
    DelayInRange(base, max, f);
    DelayInRange(base, max, g);
  }

  function Min(a: int, b: int): int {
    if a < b then a else b
  }

  /** The delay is the capped exponential, except that it is the maximum one nanosecond early
      when the maximum is odd and the exponential is one below it, and that after 31 failures
      it is always the maximum. */
  lemma ExactIff(base: int, max: int, failures: nat)
    requires ValidDelays(base, max) && 0 < failures
    ensures var doubled := base * Pow2(failures - 1);
      Delay(base, max, failures) == Min(doubled, max) <==>
        if failures <= 31 then !(failures > 1 && max % 2 == 1 && doubled == max - 1) else doubled >= max
  {
    Grows(base, 0, failures - 1);
  }

  lemma WithinOne(base: int, max: int, failures: nat)
    requires ValidDelays(base, max) && 0 < failures <= 31
    ensures 0 <= Delay(base, max, failures) - Min(base * Pow2(failures - 1), max) <= 1
  {
    Grows(base, 0, failures - 1);
  }

  // ---------------------------------------------------------------- the evaluator

  datatype Outcome = Cancelled | BackoffActive | Failed | Decided

  class Evaluator {
    const baseDelay: int
    const maxDelay: int
    var failures: nat
    var nextAllowed: Option<int>

    constructor (base: int, max: int)
      requires ValidDelays(base, max)
      ensures baseDelay == base && maxDelay == max && Abstract() == State(0, None)
    {
      baseDelay, maxDelay, failures, nextAllowed := base, max, 0, None;
    }

    function Abstract(): State
      reads this
    {
      State(failures, nextAllowed)
    }

    /** A call at time `started`; the evaluator inside, if it is called, finishes at `finished`
        with or without an error. */
    method Evaluate(cancelled: bool, started: int, finished: int, succeeds: bool) returns (outcome: Outcome)
      modifies `failures, `nextAllowed
      ensures outcome == OutcomeOf(old(Abstract()), Call(cancelled, started, finished, succeeds))
      ensures Abstract() == After(baseDelay, maxDelay, old(Abstract()), Call(cancelled, started, finished, succeeds))
    {
      if cancelled {
        return Cancelled;
      }
      if !(nextAllowed.None? || !(started < nextAllowed.value)) {
        return BackoffActive;
      }
      if !succeeds {
        failures := failures + 1;
        nextAllowed := Some(finished + Delay(baseDelay, maxDelay, failures));
        return Failed;
      }
      failures := 0;
      nextAllowed := None;
      return Decided;
    }
  }

  const DEFAULT_BASE := 500 * MILLISECOND
  const DEFAULT_MAX := 30_000 * MILLISECOND
  const MILLISECOND := 1_000_000

  /** Zero stands for the default; delays that are not positive and ordered are refused. */
  method NewBackoffEvaluator(base: Int64, max: Int64) returns (e: Evaluator?)
    ensures var b, m := if base == 0 then DEFAULT_BASE else base as int, if max == 0 then DEFAULT_MAX else max as int;
      && (e != null <==> ValidDelays(b, m))
      && (e != null ==> fresh(e) && e.baseDelay == b && e.maxDelay == m && e.Abstract() == State(0, None))
  {
    var b := if base == 0 then DEFAULT_BASE else base as int;
    var m := if max == 0 then DEFAULT_MAX else max as int;
    if b <= 0 || m <= 0 || b > m {
      return null;
    }
    e := new Evaluator(b, m);
  }

  datatype State = State(failures: nat, nextAllowed: Option<int>)
  datatype Call = Call(cancelled: bool, started: int, finished: int, succeeds: bool)

  predicate Attempts(s: State, c: Call) {
    !c.cancelled && (s.nextAllowed.None? || c.started >= s.nextAllowed.value)
  }

  function OutcomeOf(s: State, c: Call): Outcome {
    if c.cancelled then Cancelled
    else if !Attempts(s, c) then BackoffActive
    else if c.succeeds then Decided
    else Failed
  }

  function After(base: int, max: int, s: State, c: Call): State {
    if !Attempts(s, c) then s
    else if c.succeeds then State(0, None)
    else State(s.failures + 1, Some(c.finished + Delay(base, max, s.failures + 1)))
  }

  // ---------------------------------------------------------------- runs

  function Run(base: int, max: int, h: seq<Call>): State {
    if h == [] then State(0, None) else After(base, max, Run(base, max, h[..|h| - 1]), h[|h| - 1])
  }

  /** The calls of the run that reached the evaluator inside. */
  function Attempted(base: int, max: int, h: seq<Call>): seq<Call> {
    if h == [] then []
    else
      var p := h[..|h| - 1];
      Attempted(base, max, p) + (if Attempts(Run(base, max, p), h[|h| - 1]) then [h[|h| - 1]] else [])
  }

  /** How many attempts at the end failed. */
  function TrailingFailures(attempts: seq<Call>): nat {
    if attempts == [] || attempts[|attempts| - 1].succeeds then 0 else 1 + TrailingFailures(attempts[..|attempts| - 1])
  }

  lemma {:induction false} StateExplained(base: int, max: int, h: seq<Call>)
    ensures var s, a := Run(base, max, h), Attempted(base, max, h);
      && s.failures == TrailingFailures(a)
      && s.nextAllowed == if s.failures == 0 then None else Some(a[|a| - 1].finished + Delay(base, max, s.failures))
  {
    if h == [] {
    } else {
      var p, c := h[..|h| - 1], h[|h| - 1];
      StateExplained(base, max, p);
      var a := Attempted(base, max, p);
      assert (a + [c])[..|a|] == a;
      assert a + [] == a;
    }
  }

  /** In every sequential run, a call reaches the evaluator inside if and only if it is not
      cancelled and either the last attempt succeeded (or there was none) or the delay for the
      failures so far has passed since the last one finished. */
  lemma AttemptIff(base: int, max: int, h: seq<Call>, c: Call)
    ensures var a := Attempted(base, max, h);
      Attempts(Run(base, max, h), c) <==>
        && !c.cancelled
        && (TrailingFailures(a) > 0 ==> c.started >= a[|a| - 1].finished + Delay(base, max, TrailingFailures(a)))
  {
    StateExplained(base, max, h);
  }
}
