/**
 * Addition of binary32 numbers that are natural: the exact sum rounded to the nearest value with a
 * 24-bit significand, ties to the even significand (sections 3.4 and 4.3.1 of IEEE 754-2008).
 */
module Binary32 {
  import opened Arithmetic

  const SIGNIFICANDS: nat := 0x100_0000

  ghost predicate HasForm(n: nat, m: nat, e: nat) {
    m < SIGNIFICANDS && n == m * Pow2(e)
  }

  /** `n` is a significand of at most 24 bits times a power of two. */
  ghost predicate Representable(n: nat) {
    exists m: nat, e: nat :: HasForm(n, m, e)
  }

  /** The exponent that brings the significand of `n` below 2^24: `n` is halved until it fits. */
  function Exponent(n: nat): nat {
    if n < SIGNIFICANDS then 0 else 1 + Exponent(n / 2)
  }

  /** `n` to a multiple of `ulp`, the nearest one, ties to the even multiple. */
  function NearestEven(n: nat, ulp: nat): nat
    requires ulp > 0
  {
    var m, r := n / ulp, n % ulp;
    if 2 * r < ulp || (2 * r == ulp && m % 2 == 0) then m * ulp else (m + 1) * ulp
  }

  function Round(n: nat): nat {
    NearestEven(n, Pow2(Exponent(n)))
  }

  function Add(a: nat, b: nat): nat {
    Round(a + b)
  }

  function Distance(a: nat, b: nat): nat {
    if a < b then b - a else a - b
  }

  lemma {:induction false} ExponentBounds(n: nat)
    ensures n < SIGNIFICANDS * Pow2(Exponent(n))
    ensures Exponent(n) > 0 ==> SIGNIFICANDS / 2 * Pow2(Exponent(n)) <= n
  {
    if n >= SIGNIFICANDS {
      ExponentBounds(n / 2);
    }
  }

  lemma {:induction false} Pow2Split(e: nat, f: nat)
    requires e <= f
    ensures Pow2(f) == Pow2(f - e) * Pow2(e)
    decreases f
  {
    if e < f {
      Pow2Split(e, f - 1);
      Double(Pow2(f - 1 - e), Pow2(e));
    }
  }

  lemma Double(a: nat, b: nat)
    ensures 2 * (a * b) == (2 * a) * b
  {
  }

  lemma MulMonotone(a: nat, b: nat, u: nat)
    requires a <= b
    ensures a * u <= b * u
  {
  }

  /** No multiple of `ulp` is nearer to `n` than the chosen one. */
  lemma NearestMultiple(n: nat, ulp: nat, j: nat)
    requires ulp > 0
    ensures Distance(NearestEven(n, ulp), n) <= Distance(j * ulp, n)
  {
    var m, r := n / ulp, n % ulp;
    assert n == m * ulp + r;
    assert (m + 1) * ulp == m * ulp + ulp;
    if j <= m {
      MulMonotone(j, m, ulp);
    } else {
      MulMonotone(m + 1, j, ulp);
    }
  }

  lemma FloorBounds(n: nat, u: nat)
    requires u > 0
    ensures n / u * u <= n < (n / u + 1) * u
    ensures NearestEven(n, u) == n / u * u || NearestEven(n, u) == (n / u + 1) * u
  {
    var m := n / u;
    assert n == m * u + n % u;
    assert (m + 1) * u == m * u + u;
  }

  lemma QuotientBelow(n: nat, u: nat, k: nat)
    requires u > 0 && n < k * u
    ensures n / u < k
  {
    FloorBounds(n, u);
    if n / u >= k {
      MulMonotone(k, n / u, u);
    }
  }

  lemma RoundIsRepresentable(n: nat)
    ensures Representable(Round(n))
  {
    hide Pow2, NearestEven;
    var e := Exponent(n);
    var u := Pow2(e);
    ExponentBounds(n);
    FloorBounds(n, u);
    QuotientBelow(n, u, SIGNIFICANDS);
    var m := n / u;
    if Round(n) == m * u {
      assert HasForm(Round(n), m, e);
    } else if m + 1 < SIGNIFICANDS {
      assert HasForm(Round(n), m + 1, e);
    } else {
      Pow2Next(e);
      assert HasForm(Round(n), SIGNIFICANDS / 2, e + 1);
    }
  }

  lemma Pow2Next(e: nat)
    ensures Pow2(e + 1) == 2 * Pow2(e)
  {
  }

  /** Rounding gives a representable number than which none is nearer. */
  lemma RoundIsNearest(n: nat, r: nat)
    requires Representable(r)
    ensures Representable(Round(n))
    ensures Distance(Round(n), n) <= Distance(r, n)
  {
    hide Pow2, NearestEven, Distance;
    RoundIsRepresentable(n);
    var m: nat, f: nat :| HasForm(r, m, f);
    if f >= Exponent(n) {
      CoarserIsMultiple(r, m, f, Exponent(n));
      NearestMultiple(n, Pow2(Exponent(n)), m * Pow2(f - Exponent(n)));
    } else {
      FinerIsBelow(n, r, m, f);
    }
  }

  lemma CoarserIsMultiple(r: nat, m: nat, f: nat, e: nat)
    requires HasForm(r, m, f) && e <= f
    ensures r == m * Pow2(f - e) * Pow2(e)
  {
    hide Pow2;
    Pow2Split(e, f);
    Associate(m, Pow2(f - e), Pow2(e));
  }

  lemma Associate(a: nat, b: nat, c: nat)
    ensures a * (b * c) == a * b * c
  {
  }

  /** A number with a finer exponent lies below the binade of `n`, hence no nearer than its floor. */
  lemma FinerIsBelow(n: nat, r: nat, m: nat, f: nat)
    requires HasForm(r, m, f) && f < Exponent(n)
    ensures Distance(Round(n), n) <= Distance(r, n)
  {
    hide Pow2, NearestEven;
    var e := Exponent(n);
    ExponentBounds(n);
    BelowBinade(r, m, f, e);
    NearestMultiple(n, Pow2(e), SIGNIFICANDS / 2);
  }

  lemma BelowBinade(r: nat, m: nat, f: nat, e: nat)
    requires HasForm(r, m, f) && f < e
    ensures r <= SIGNIFICANDS / 2 * Pow2(e)
  {
    hide Pow2;
    Pow2Split(f, e - 1);
    Pow2Next(e - 1);
    MulMonotone(1, Pow2(e - 1 - f), Pow2(f));
    MulMonotone(m, SIGNIFICANDS, Pow2(f));
  }

  /** When both neighbours are equally near, the one with the even significand is taken. */
  lemma TiesGoToEven(n: nat)
    requires 2 * (n % Pow2(Exponent(n))) == Pow2(Exponent(n))
    ensures exists m: nat :: Round(n) == 2 * m * Pow2(Exponent(n))
  {
    hide Pow2;
    var u := Pow2(Exponent(n));
    var m := n / u;
    assert 2 * (m / 2) == m || 2 * (m / 2) + 2 == m + 1;
    assert Round(n) == 2 * (m / 2) * u || Round(n) == 2 * (m / 2 + 1) * u;
  }

  lemma EvenForm(m: nat, e: nat)
    requires e > 0
    ensures m * Pow2(e) % 2 == 0
  {
    assert m * Pow2(e) == 2 * (m * Pow2(e - 1));
  }

  /** Every natural number up to 2^24 is representable, and the next one is not. */
  lemma FirstGap(n: nat)
    ensures n <= 0x100_0000 ==> Representable(n)
    ensures !Representable(0x100_0001)
  {
    if n < 0x100_0000 {
      assert Pow2(0) == 1 && HasForm(n, n, 0);
    } else if n == 0x100_0000 {
      assert Pow2(1) == 2 && HasForm(n, 0x80_0000, 1);
    }
    forall m: nat, e: nat
      ensures !HasForm(0x100_0001, m, e)
    {
      if e > 0 {
        EvenForm(m, e);
      }
    }
  }

  // Reduction

  function Sum32(values: seq<nat>): nat {
    if values == [] then 0 else Add(Sum32(values[..|values| - 1]), values[|values| - 1])
  }

  function Total(values: seq<nat>): nat {
    if values == [] then 0 else Total(values[..|values| - 1]) + values[|values| - 1]
  }

  /** The left-to-right loop of the reduction. */
  method Reduce(values: seq<nat>) returns (sum: nat)
    ensures sum == Sum32(values)
  {
    sum := 0;
    for i := 0 to |values|
      invariant sum == Sum32(values[..i])
    {
      assert values[..i + 1][..i] == values[..i];
      sum := Add(sum, values[i]);
    }
    assert values[..|values|] == values;
  }

  /** `r` is the result of rounding `exact`: representable, none nearer, and even when another is as near. */
  ghost predicate IsRounded(r: nat, exact: nat) {
    Representable(r)
    && (forall q: nat :: Representable(q) ==> Distance(r, exact) <= Distance(q, exact))
    && (2 * (exact % Pow2(Exponent(exact))) == Pow2(Exponent(exact)) ==>
          exists m: nat :: r == 2 * m * Pow2(Exponent(exact)))
  }

  /** Every partial sum of the reduction is the rounded sum of the last one and the next value. */
  lemma PartialSums(values: seq<nat>, i: nat)
    requires i < |values|
    ensures Sum32([]) == 0
    ensures IsRounded(Sum32(values[..i + 1]), Sum32(values[..i]) + values[i])
  {
    hide Round, Distance, Representable, Pow2;
    assert values[..i + 1][..i] == values[..i];
    var exact := Sum32(values[..i]) + values[i];
    RoundIsRepresentable(exact);
    forall q: nat | Representable(q)
      ensures Distance(Round(exact), exact) <= Distance(q, exact)
    {
      RoundIsNearest(exact, q);
    }
    if 2 * (exact % Pow2(Exponent(exact))) == Pow2(Exponent(exact)) {
      TiesGoToEven(exact);
    }
  }

  lemma RoundSmall(n: nat)
    requires n <= SIGNIFICANDS
    ensures Round(n) == n
  {
    if n == SIGNIFICANDS {
      assert Exponent(n / 2) == 0;
      assert Pow2(1) == 2;
    } else {
      assert Exponent(n) == 0;
    }
  }

  /** The sum is exact, in whatever order it is taken, as long as the total is at most 2^24. */
  lemma {:induction false} SumIsExact(values: seq<nat>)
    requires Total(values) <= SIGNIFICANDS
    ensures Sum32(values) == Total(values)
  {
    if values != [] {
      SumIsExact(values[..|values| - 1]);
      RoundSmall(Total(values));
    }
  }

  predicate AllOnes(values: seq<nat>) {
    forall i :: 0 <= i < |values| ==> values[i] == 1
  }

  /** A sum of ones is their number up to 2^24 and stays there for ever after. */
  lemma {:induction false} SumOfOnes(values: seq<nat>)
    requires AllOnes(values)
    ensures Sum32(values) == if |values| < SIGNIFICANDS then |values| else SIGNIFICANDS
  {
    if values != [] {
      SumOfOnes(values[..|values| - 1]);
      if |values| <= SIGNIFICANDS {
        RoundSmall(|values|);
      } else {
        OneMoreIsLost();
      }
    }
  }

  /** 2^24 + 1 is half way between its neighbours, and 2^24 has the even significand. */
  lemma OneMoreIsLost()
    ensures Round(SIGNIFICANDS + 1) == SIGNIFICANDS
  {
    assert Exponent((SIGNIFICANDS + 1) / 2) == 0;
    assert Pow2(1) == 2;
  }
}
