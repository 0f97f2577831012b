/** `isqrt` of lib.rs: the integer square root used by the quadratic penalty curves. */
module Isqrt {
  import opened Ints

  /** The guarded test `mid <= n / mid` decides `mid * mid <= n` without squaring. */
  lemma DivisionTestIsSquareTest(n: nat, mid: nat)
    requires mid > 0
    ensures mid <= n / mid <==> mid * mid <= n
  {
    var q := n / mid;
    assert n == q * mid + n % mid;
    if mid <= q {
      ProductMonotone(mid, q, mid);
    } else {
      ProductMonotone(q + 1, mid, mid);
      assert (q + 1) * mid == q * mid + mid;
    }
  }

  lemma ProductMonotone(a: nat, b: nat, k: nat)
    requires a <= b
    ensures a * k <= b * k
  {
  }

  lemma SquareMonotone(a: nat, b: nat)
    requires a <= b
    ensures a * a <= b * b
  {
    assert a * a <= a * b <= b * b;
  }

  /** Binary search between 1 and n/2 + 1. Every value the loop computes is a
      u128, so no step of the original overflows. */
  method IntegerSqrt(n: u128) returns (r: u128)
    ensures r * r <= n < (r + 1) * (r + 1)
  {
    if n == 0 {
      return 0;
    }
    if n == 1 {
      return 1;
    }
    var low: u128 := 1;
    var high: u128 := n / 2 + 1;
    var ans: u128 := 0;
    assert (high + 1) * (high + 1) > n by {
      assert (high + 1) * (high + 1) == high * high + 2 * high + 1;
    }
    while low <= high
      invariant 1 <= low == ans + 1 && low <= high + 1
      invariant high <= n / 2 + 1
      invariant ans * ans <= n < (high + 1) * (high + 1)
      decreases high - low + 1
    {
      var mid: u128 := low + (high - low) / 2;
      DivisionTestIsSquareTest(n, mid);
      if mid <= n / mid {
        ans := mid;
        low := mid + 1;
      } else {
        if mid == 0 {
          break;
        }
        high := mid - 1;
      }
    }
    r := ans;
    assert low == high + 1;
  }

  /** The bracket of `IntegerSqrt` determines its result. */
  lemma SquareRootIsUnique(n: nat, r: nat, q: nat)
    requires r * r <= n < (r + 1) * (r + 1)
    requires q * q <= n < (q + 1) * (q + 1)
    ensures r == q
  {
    if r < q {
      SquareMonotone(r + 1, q);
    } else if q < r {
      SquareMonotone(q + 1, r);
    }
  }
}
