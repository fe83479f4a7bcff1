/** The few facts about quotients and products by a variable that the solver does not find alone. */
module Arithmetic {
  lemma MulMonotone(a: nat, b: nat, c: nat)
    requires a <= b
    ensures c * a <= c * b
  {
    assert c * b == c * a + c * (b - a);
  }

  lemma DivMod(n: nat, d: nat)
    requires d > 0
    ensures d * (n / d) + n % d == n && 0 <= n / d && 0 <= n % d < d
  {
  }

  lemma QuotientUnique(q: nat, r: nat, d: nat)
    requires r < d
    ensures (d * q + r) / d == q && (d * q + r) % d == r
  {
    var n := d * q + r;
    DivMod(n, d);
    if n / d < q {
      MulMonotone(n / d + 1, q, d);
    } else if n / d > q {
      MulMonotone(q + 1, n / d, d);
    }
  }

  lemma QuotientBound(n: nat, d: nat, bound: nat)
    requires d > 0 && n < d * bound
    ensures n / d < bound
  {
    DivMod(n, d);
    if n / d >= bound {
      MulMonotone(bound, n / d, d);
    }
  }

  lemma QuotientSmaller(n: nat, d: nat)
    requires d >= 2 && n >= d
    ensures 0 < n / d < n
  {
    DivMod(n, d);
    MulMonotone(2, d, n / d);
  }

  lemma QuotientInterval(n: nat, q: nat, d: nat)
    requires d > 0
    ensures n / d == q <==> d * q <= n < d * q + d
  {
    DivMod(n, d);
    if n / d < q {
      MulMonotone(n / d + 1, q, d);
    } else if n / d > q {
      MulMonotone(q + 1, n / d, d);
    }
  }

  function Pow(base: nat, n: nat): (p: nat)
    ensures base > 0 ==> p > 0
  {
    if n == 0 then 1 else base * Pow(base, n - 1)
  }

  lemma {:induction false} PowSum(base: nat, m: nat, n: nat)
    ensures Pow(base, m + n) == Pow(base, m) * Pow(base, n)
  {
    if m > 0 {
      PowSum(base, m - 1, n);
      MulAssociative(base, Pow(base, m - 1), Pow(base, n));
    }
  }

  lemma MulAssociative(a: nat, b: nat, c: nat)
    ensures a * (b * c) == a * b * c
  {
  }
}
