/** Facts about quotients, remainders and powers of two. */
module Arithmetic {

  function Pow2(e: nat): (p: nat)
    ensures p >= 1
  {
    if e == 0 then 1 else 2 * Pow2(e - 1)
  }

  lemma {:induction false} AddMultiple(a: nat, k: nat, m: nat)
    requires m > 0
    ensures (a + m * k) % m == a % m
    decreases k
  {
    if k > 0 {
      AddMultiple(a, k - 1, m);
      AddOnce(a + m * (k - 1), m);
      assert a + m * (k - 1) + m == a + m * k;
    }
  }

  lemma AddOnce(a: nat, m: nat)
    requires m > 0
    ensures (a + m) % m == a % m
  {
    assert a + m == m * (a / m + 1) + a % m;
    Remainder(a + m, a / m + 1, a % m, m);
  }

  lemma Remainder(n: int, q: int, r: nat, m: nat)
    requires m > 0 && n == m * q + r && r < m
    ensures n % m == r && n / m == q
  {
    var e: int := n / m - q;
    assert m * e == r - n % m;
    assert e > 0 ==> m * e >= m;
    assert e < 0 ==> m * e + m <= 0;
  }

  lemma ModDistance(p: nat, d: nat, m: nat)
    requires 0 < m && d <= m
    ensures (p + d) % m == p % m <==> d == 0 || d == m
  {
    var q, r := p / m, p % m;
    assert p == m * q + r;
    if r + d < m {
      Remainder(p + d, q, r + d, m);
    } else {
      assert p + d == m * (q + 1) + (r + d - m);
      Remainder(p + d, q + 1, r + d - m, m);
    }
  }

  lemma NumberWithRemainder(low: nat, k: nat, m: nat) returns (p: nat)
    requires k < m
    ensures low <= p < low + m && p % m == k
  {
    var q, r := low / m, low % m;
    assert low == m * q + r;
    if k >= r {
      p := low + (k - r);
      Remainder(p, q, k, m);
    } else {
      p := low + (m + k - r);
      assert p == m * (q + 1) + k;
      Remainder(p, q + 1, k, m);
    }
  }

  /** Remainders of numbers less than one modulus away from zero. */
  lemma SmallRemainder(d: int, m: nat)
    requires -(m as int) < d < m
    ensures d % m == if d < 0 then d + m else d
  {
    if d < 0 {
      Remainder(d, -1, d + m, m);
    } else {
      Remainder(d, 0, d, m);
    }
  }
}
