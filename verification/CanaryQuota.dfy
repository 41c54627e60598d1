/** The percentage quota of canary enforcement (internal/authz/enforcement_gate.go): the n-th
    canary request is enforced when n modulo 100 is below the percentage. */
module CanaryQuota {

  predicate EnforcedAt(n: nat, percentage: int) {
    n % 100 < percentage
  }

  /** How many of the requests numbered first+1 to first+n are enforced. */
  function EnforcedAmong(first: nat, n: nat, percentage: int): nat {
    if n == 0 then 0
    else EnforcedAmong(first, n - 1, percentage) + (if EnforcedAt(first + n, percentage) then 1 else 0)
  }

  /** The number of enforced requests among the first n, in closed form. */
  lemma {:induction false} EnforcedCount(n: nat, percentage: int)
    requires 0 <= percentage <= 100
    ensures EnforcedAmong(0, n, percentage)
         == (n / 100) * percentage
          + (if n % 100 < percentage then n % 100 + 1 else percentage)
          - (if percentage > 0 then 1 else 0)
  {
    if n == 0 {
    } else {
      EnforcedCount(n - 1, percentage);
      if n % 100 == 0 {
        assert (n - 1) / 100 == n / 100 - 1 && (n - 1) % 100 == 99;
        assert (n / 100) * percentage == (n / 100 - 1) * percentage + percentage;
      } else {
        assert (n - 1) / 100 == n / 100 && (n - 1) % 100 == n % 100 - 1;
      }
    }
  }

  lemma {:induction false} EnforcedSplit(first: nat, n: nat, percentage: int)
    ensures EnforcedAmong(0, first + n, percentage)
         == EnforcedAmong(0, first, percentage) + EnforcedAmong(first, n, percentage)
  {
    if n == 0 {
    } else {
      EnforcedSplit(first, n - 1, percentage);
    }
  }

  /** Any hundred consecutive requests contain exactly the percentage of enforced ones. */
  lemma QuotaExact(first: nat, percentage: int)
    requires 0 <= percentage <= 100
    ensures EnforcedAmong(first, 100, percentage) == percentage
  {
    EnforcedSplit(first, 100, percentage);
    EnforcedCount(first, percentage);
    EnforcedCount(first + 100, percentage);
    assert (first + 100) / 100 == first / 100 + 1 && (first + 100) % 100 == first % 100;
    assert (first / 100 + 1) * percentage == (first / 100) * percentage + percentage;
  }
}
