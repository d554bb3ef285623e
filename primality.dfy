/** Primality of a column position, as decided by the nested `is_prime` helper
    of `sustitucion_valores_nulos`: trial division by every d from 2 up to the
    integer part of the square root. */
module Primality {

  /** Mathematical primality: at least 2 and no divisor strictly between 1 and n. */
  predicate Prime(n: int) {
    n >= 2 && forall d :: 2 <= d < n ==> n % d != 0
  }

  /** The trial-division test exactly as the loop states it: no divisor in
      2 .. FloorSqrt(n). */
  predicate NoDivisorUpToRoot(n: nat) {
    n >= 2 && forall d :: 2 <= d <= FloorSqrt(n) ==> n % d != 0
  }

  /** `int(n ** 0.5)`: the largest r with r * r <= n. */
  function FloorSqrt(n: nat): (r: nat)
    ensures r * r <= n < (r + 1) * (r + 1)
  {
    SqrtFrom(n, 0)
  }

  /** Counts up from k to the floor square root. */
  function SqrtFrom(n: nat, k: nat): (r: nat)
    requires k * k <= n
    ensures k <= r
    ensures r * r <= n < (r + 1) * (r + 1)
    decreases n - k
  {
    if (k + 1) * (k + 1) > n then k
    else
      assert k + 1 <= (k + 1) * (k + 1);
      SqrtFrom(n, k + 1)
  }

  lemma MulMonotone(a: nat, b: nat, c: nat)
    requires a <= b
    ensures a * c <= b * c
  {
  }

  /** A divisor above the root has a cofactor that is a divisor at or below the root. */
  lemma SmallCofactor(n: nat, d: nat, r: nat)
    requires 2 <= d < n && r * r <= n < (r + 1) * (r + 1) && r < d
    requires n % d == 0
    ensures 2 <= n / d <= r && n % (n / d) == 0
  {
    var q := n / d;
    assert n == d * q;
    MulMonotone(r + 1, d, q);
    assert (r + 1) * q <= n;
    if q > r {
      MulMonotone(r + 1, q, r + 1);
    }
    assert q <= r;
    assert q != 1;
    assert n == q * d;
    DivisibleByFactor(n, q, d);
  }

  lemma DivisibleByFactor(n: nat, q: nat, d: nat)
    requires q > 0 && n == q * d
    ensures n % q == 0
  {
    var m := n / q;
    assert n == q * m + n % q;
    assert q * (d - m) == n % q;
    if d - m > 0 {
      MulMonotone(1, d - m, q);
    } else if d - m < 0 {
      MulMonotone(1, m - d, q);
    }
  }

  /** Trial division up to the root decides primality, in both directions. */
  lemma {:induction false} TrialDivisionIsPrimality(n: nat)
    ensures NoDivisorUpToRoot(n) <==> Prime(n)
  {
    var r := FloorSqrt(n);
    if n >= 2 {
      if r >= n {
        MulMonotone(n, r, r);
        MulMonotone(2, r, n);
      }
      assert r < n;
      if NoDivisorUpToRoot(n) {
        forall d | 2 <= d < n
          ensures n % d != 0
        {
          if r < d && n % d == 0 {
            SmallCofactor(n, d, r);
          }
        }
      }
    }
  }

  /** `is_prime(n)`: false below 2, otherwise a search for a divisor in
      2 .. int(n ** 0.5) that returns early on the first one found. */
  method IsPrime(n: nat) returns (r: bool)
    ensures r == Prime(n)
    ensures r == NoDivisorUpToRoot(n)
  {
    TrialDivisionIsPrimality(n);
    if n < 2 {
      return false;
    }
    var bound := FloorSqrt(n);
    for i := 2 to bound + 1
      invariant forall d :: 2 <= d < i ==> n % d != 0
    {
      if n % i == 0 {
        return false;
      }
    }
    return true;
  }

  /** Positions 0 to 9: only 2, 3, 5 and 7 are prime. */
  lemma FirstPositions()
    ensures !Prime(0) && !Prime(1) && Prime(2) && Prime(3) && !Prime(4)
    ensures Prime(5) && !Prime(6) && Prime(7) && !Prime(8) && !Prime(9)
  {
    assert 4 % 2 == 0 && 6 % 2 == 0 && 8 % 2 == 0 && 9 % 3 == 0;
    forall d | 2 <= d < 5 ensures 5 % d != 0 {
      assert d == 2 || d == 3 || d == 4;
    }
    forall d | 2 <= d < 7 ensures 7 % d != 0 {
      assert d == 2 || d == 3 || d == 4 || d == 5 || d == 6;
    }
  }
}
