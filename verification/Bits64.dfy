/**
 * Single-bit operations on 64-bit words.  Bit positions inside a word have type bv6, so that each
 * fact about a word is a small bit-vector fact.  The proofs above those facts hide the bit-vector
 * definitions and reason only with the named lemmas.
 */
module Bits64 {
  import opened Arithmetic

  const ALL_ONES: bv64 := 0xFFFF_FFFF_FFFF_FFFF

  /** The bit position with number `k`. */
  function Pos(k: nat): bv6
    requires k < 64
  {
    k as bv6
  }

  function Num(p: bv6): nat {
    p as nat
  }

  /** The word with only bit `p` on. */
  function Bit(p: bv6): bv64 {
    (1 as bv64) << p
  }

  function Masked(w: bv64, m: bv64): bv64 {
    w & m
  }

  /** The words have a common bit that is on. */
  predicate Meets(w: bv64, m: bv64) {
    Masked(w, m) != 0
  }

  /** Bit `p` of `w` is on: the mask test of the source. */
  predicate On(w: bv64, p: bv6) {
    Meets(w, Bit(p))
  }

  function With(w: bv64, m: bv64): bv64 {
    w | m
  }

  function Without(w: bv64, m: bv64): bv64 {
    w & !m
  }

  /** The lowest position from `k` up whose bit is on, or 64 when there is none. */
  function ZerosFrom(w: bv64, k: nat): nat
    requires k <= 64
    decreases 64 - k
  {
    if k == 64 || On(w, Pos(k)) then k else ZerosFrom(w, k + 1)
  }

  /** The number of zero bits below the lowest bit that is on; 64 for the zero word. */
  function TrailingZeros(w: bv64): nat {
    ZerosFrom(w, 0)
  }

  // Positions and numbers

  lemma NumInjective(p: bv6, q: bv6)
    requires Num(p) == Num(q)
    ensures p == q
  {
  }

  lemma NumSucc(p: bv6)
    requires p != 63
    ensures Num(p + 1) == Num(p) + 1 < 64
  {
  }

  lemma LastPosition(p: bv6)
    ensures p != 63 <==> Num(p) != 63
  {
  }

  lemma NumOfPos(k: nat)
    requires k < 64
    ensures Num(Pos(k)) == k
  {
  }

  lemma PosOfNum(p: bv6)
    ensures Num(p) < 64 && Pos(Num(p)) == p
  {
  }

  lemma NextPos(k: nat)
    requires k < 63
    ensures Pos(k + 1) == Pos(k) + 1
  {
    hide Pos;
    NumOfPos(k);
    NumOfPos(k + 1);
    LastPosition(Pos(k));
    NumSucc(Pos(k));
    NumInjective(Pos(k) + 1, Pos(k + 1));
  }

  lemma PosInjective(j: nat, k: nat)
    requires j < 64 && k < 64
    ensures Pos(j) == Pos(k) <==> j == k
  {
    hide Pos;
    NumOfPos(j);
    NumOfPos(k);
  }

  // Bit-vector facts

  lemma BitNonzero(p: bv6)
    ensures Bit(p) != 0
  {
  }

  lemma BitsDisjoint(p: bv6, q: bv6)
    requires p != q
    ensures !Meets(Bit(p), Bit(q))
  {
  }

  lemma OrSame(w: bv64, b: bv64)
    requires b != 0
    ensures Meets(With(w, b), b)
  {
    assert (w | b) & b == b;
  }

  lemma OrDistributes(w: bv64, a: bv64, b: bv64)
    requires Masked(a, b) == 0
    ensures Masked(With(w, b), a) == Masked(w, a)
  {
  }

  lemma OrOther(w: bv64, a: bv64, b: bv64)
    requires !Meets(a, b)
    ensures Meets(With(w, b), a) <==> Meets(w, a)
  {
    hide Masked, With;
    OrDistributes(w, a, b);
  }

  lemma AndNotSame(w: bv64, b: bv64)
    ensures !Meets(Without(w, b), b)
  {
  }

  lemma AndNotDistributes(w: bv64, a: bv64, b: bv64)
    requires Masked(a, b) == 0
    ensures Masked(Without(w, b), a) == Masked(w, a)
  {
  }

  lemma AndNotOther(w: bv64, a: bv64, b: bv64)
    requires !Meets(a, b)
    ensures Meets(Without(w, b), a) <==> Meets(w, a)
  {
    hide Masked, Without;
    AndNotDistributes(w, a, b);
  }

  lemma MeetsConstants(b: bv64)
    ensures !Meets(0, b)
    ensures Meets(ALL_ONES, b) <==> b != 0
  {
    assert ALL_ONES & b == b && 0 & b == 0;
  }

  lemma AndNotCovered(w: bv64, v: bv64, b: bv64)
    requires Masked(v, b) == b
    ensures Masked(Without(w, v), b) == 0
  {
  }

  lemma MaskedSymmetric(v: bv64, b: bv64)
    ensures Masked(v, b) == Masked(b, v)
  {
  }

  lemma MaskedBit(w: bv64, p: bv6)
    ensures Masked(w, Bit(p)) == 0 || Masked(w, Bit(p)) == Bit(p)
  {
  }

  lemma DifferentWords(w: bv64, v: bv64)
    requires w != v
    ensures Without(w, v) != 0 || Without(v, w) != 0
  {
  }

  // Words as numbers

  function Half(w: bv64): bv64 {
    w >> 1
  }

  predicate Odd(w: bv64) {
    w & 1 != 0
  }

  /** One more bit on below the bits of `m`. */
  function Grow(m: bv64): bv64 {
    (m << 1) | 1
  }

  /** The number that the lowest `n` bits of a word stand for. */
  function Value(w: bv64, n: nat): nat
    decreases n
  {
    if n == 0 then 0 else (if Odd(w) then 1 else 0) + 2 * Value(Half(w), n - 1)
  }

  /** The word whose lowest `k` bits are on. */
  function LowOnes(k: nat): bv64 {
    if k == 0 then 0 else Grow(LowOnes(k - 1))
  }

  lemma MaskedIsEven(w: bv64, m: bv64)
    ensures !Odd(Without(w, Grow(m)))
  {
  }

  lemma MaskedHalf(w: bv64, m: bv64)
    ensures Half(Without(w, Grow(m))) == Without(Half(w), m)
  {
  }

  lemma MaskNothing(w: bv64)
    ensures Without(w, 0) == w
  {
  }

  lemma HalfOfMultiple(v: nat, bit: nat, p: nat)
    requires bit < 2 && p > 0
    ensures 2 * (v / p * p) == (bit + 2 * v) / (2 * p) * (2 * p)
  {
    var q, r := v / p, v % p;
    assert v == q * p + r;
    assert bit + 2 * v == (2 * p) * q + (bit + 2 * r);
    Remainder(bit + 2 * v, q, bit + 2 * r, 2 * p);
  }

  /** Turning off the lowest `k` bits rounds down to a multiple of 2^k. */
  lemma {:induction false} MaskRoundsDown(w: bv64, k: nat, n: nat)
    requires k <= n
    ensures Value(Without(w, LowOnes(k)), n) == Value(w, n) / Pow2(k) * Pow2(k)
    decreases k
  {
    hide Without, Half, Odd, Grow;
    if k == 0 {
      MaskNothing(w);
    } else {
      MaskedIsEven(w, LowOnes(k - 1));
      MaskedHalf(w, LowOnes(k - 1));
      MaskRoundsDown(Half(w), k - 1, n - 1);
      HalfOfMultiple(Value(Half(w), n - 1), if Odd(w) then 1 else 0, Pow2(k - 1));
    }
  }

  lemma FrameMask()
    ensures LowOnes(12) == 4096 - 1 && Pow2(12) == 4096
  {
    assert LowOnes(4) == 15 && LowOnes(8) == 255;
    assert Pow2(6) == 64;
  }

  // What the operations of the allocator do to one bit

  /** `w |= 1 << p` turns bit `p` on and leaves every other bit as it was. */
  lemma SetBit(w: bv64, p: bv6, q: bv6)
    ensures On(With(w, Bit(p)), q) == (q == p || On(w, q))
  {
    hide Bit, Meets, With;
    if p == q {
      BitNonzero(p);
      OrSame(w, Bit(p));
    } else {
      BitsDisjoint(q, p);
      OrOther(w, Bit(q), Bit(p));
    }
  }

  /** `w &= !(1 << p)` turns bit `p` off and leaves every other bit as it was. */
  lemma ClearBit(w: bv64, p: bv6, q: bv6)
    ensures On(Without(w, Bit(p)), q) == (q != p && On(w, q))
  {
    hide Bit, Meets, Without;
    if p == q {
      AndNotSame(w, Bit(p));
    } else {
      BitsDisjoint(q, p);
      AndNotOther(w, Bit(q), Bit(p));
    }
  }

  /** `w & !v` has exactly the bits that `w` has and `v` has not. */
  lemma DifferenceBit(w: bv64, v: bv64, p: bv6)
    ensures On(Without(w, v), p) == (On(w, p) && !On(v, p))
  {
    hide Masked, Without, Bit;
    MaskedBit(v, p);
    BitNonzero(p);
    if On(v, p) {
      AndNotCovered(w, v, Bit(p));
    } else {
      MaskedSymmetric(v, Bit(p));
      AndNotOther(w, Bit(p), v);
    }
  }

  lemma ConstantWords(p: bv6)
    ensures !On(0, p) && On(ALL_ONES, p)
  {
    hide Bit, Meets;
    BitNonzero(p);
    MeetsConstants(Bit(p));
  }

  lemma {:induction false} ZerosFromScans(w: bv64, k: nat)
    requires k <= 64
    ensures k <= ZerosFrom(w, k) <= 64
    ensures forall j :: k <= j < ZerosFrom(w, k) ==> !On(w, Pos(j))
    ensures ZerosFrom(w, k) < 64 ==> On(w, Pos(ZerosFrom(w, k)))
    decreases 64 - k
  {
    hide On, Pos;
    if k < 64 && !On(w, Pos(k)) {
      ZerosFromScans(w, k + 1);
    }
  }

  /** Some bit at position `p` or above is on. */
  predicate AnyFrom(w: bv64, p: bv6) {
    w >> p != 0
  }

  lemma AnyFromZero(w: bv64)
    ensures w != 0 <==> AnyFrom(w, 0)
  {
  }

  lemma AnyAbove(w: bv64, p: bv6)
    requires AnyFrom(w, p) && !On(w, p)
    ensures p != 63 && AnyFrom(w, p + 1)
  {
  }

  lemma {:induction false} ScanFinds(w: bv64, k: nat)
    requires k < 64 && AnyFrom(w, Pos(k))
    ensures ZerosFrom(w, k) < 64
    decreases 64 - k
  {
    hide On, Pos, AnyFrom;
    if !On(w, Pos(k)) {
      AnyAbove(w, Pos(k));
      NumOfPos(k);
      LastPosition(Pos(k));
      NextPos(k);
      ScanFinds(w, k + 1);
    }
  }

  /** In a word that is not zero, `trailing_zeros` finds the lowest bit that is on. */
  lemma LowestBit(w: bv64)
    requires w != 0
    ensures TrailingZeros(w) < 64 && On(w, Pos(TrailingZeros(w)))
    ensures forall j :: 0 <= j < TrailingZeros(w) ==> !On(w, Pos(j))
  {
    hide On, Pos, AnyFrom;
    PosOfNum(0);
    assert Num(0) == 0;
    AnyFromZero(w);
    ScanFinds(w, 0);
    ZerosFromScans(w, 0);
  }

  /** Words that agree on every bit are equal. */
  lemma SameBits(w: bv64, v: bv64)
    requires forall p: bv6 :: On(w, p) == On(v, p)
    ensures w == v
  {
    hide On, Pos, Without;
    if w != v {
      DifferentWords(w, v);
      var d := if Without(w, v) != 0 then Without(w, v) else Without(v, w);
      LowestBit(d);
      var p := Pos(TrailingZeros(d));
      DifferenceBit(w, v, p);
      DifferenceBit(v, w, p);
      assert false;
    }
  }
}
