/**
 * Ring positions and wrapped indices.  A position counts pushes or pops without bound; an index is
 * a position reduced modulo 2^W, as the queue stores it; a slot is an index reduced modulo CAP.
 */
module WrappedIndex {
  import opened Arithmetic

  /** Capacity, and the number of values of the index type. */
  datatype Config = Config(cap: nat, modulus: nat) {
    predicate Valid() {
      0 < cap < modulus
    }

    /** The stored form of a position. */
    function Index(p: nat): (i: nat)
      requires Valid()
      ensures i < modulus
    {
      p % modulus
    }

    /** The slot a position uses. */
    function Slot(p: nat): (k: nat)
      requires Valid()
      ensures k < cap
    {
      Index(p) % cap
    }

    function WrappingInc(i: nat): nat
      requires i < modulus
    {
      if i + 1 == modulus then 0 else i + 1
    }

    function WrappingSub(i: nat, j: nat): nat
      requires i < modulus && j < modulus
    {
      if j <= i then i - j else i + modulus - j
    }

    /** The capacity divides the number of index values. */
    predicate Divides()
      requires Valid()
    {
      modulus % cap == 0
    }

    /** Slot numbers are regular over the first `n` positions. */
    predicate Regular(n: nat)
      requires Valid()
    {
      Divides() || n <= modulus
    }
  }

  /** Storing the next position is a wrapping increment of the stored index. */
  lemma IndexSucc(c: Config, p: nat)
    requires c.Valid()
    ensures c.Index(p) < c.modulus
    ensures c.Index(p + 1) == c.WrappingInc(c.Index(p))
  {
    var q, r := p / c.modulus, p % c.modulus;
    assert p == c.modulus * q + r;
    if r + 1 == c.modulus {
      assert p + 1 == c.modulus * (q + 1) + 0;
      Remainder(p + 1, q + 1, 0, c.modulus);
    } else {
      Remainder(p + 1, q, r + 1, c.modulus);
    }
  }

  /** Wrapping subtraction of stored indices recovers any distance shorter than the modulus. */
  lemma {:induction false} DistanceForward(c: Config, p: nat, d: nat)
    requires c.Valid() && d < c.modulus
    ensures c.Index(p) < c.modulus && c.Index(p + d) < c.modulus
    ensures c.WrappingSub(c.Index(p + d), c.Index(p)) == d
    ensures d > 0 ==> c.WrappingSub(c.Index(p), c.Index(p + d)) == c.modulus - d
    ensures c.Index(p + d) == c.Index(p) <==> d == 0
    decreases d
  {
    if d > 0 {
      DistanceForward(c, p, d - 1);
      IndexSucc(c, p + d - 1);
    }
  }

  /** Wrapping subtraction of two stored indices is the difference of the positions modulo 2^W. */
  lemma DistanceModulo(c: Config, p: nat, q: nat)
    requires c.Valid()
    ensures c.WrappingSub(c.Index(p), c.Index(q)) == (p as int - q as int) % c.modulus
    ensures c.Index(p) == c.Index(q) <==> (p as int - q as int) % c.modulus == 0
  {
    var m := c.modulus;
    var i, j := c.Index(p), c.Index(q);
    var wraps: int := p / m - q / m;
    assert p == m * (p / m) + i && q == m * (q / m) + j;
    assert p as int - q as int == m * wraps + (i as int - j as int);
    if j <= i {
      Remainder(p as int - q as int, wraps, i - j, m);
    } else {
      assert p as int - q as int == m * (wraps - 1) + (i + m - j);
      Remainder(p as int - q as int, wraps - 1, i + m - j, m);
    }
  }

  /** While slot numbers are regular, the slot of a position is the position modulo the capacity. */
  lemma RegularSlot(c: Config, p: nat)
    requires c.Valid() && c.Regular(p + 1)
    ensures c.Slot(p) == p % c.cap
  {
    if p < c.modulus {
      Remainder(p, 0, p, c.modulus);
    } else {
      var k := c.modulus / c.cap;
      var q := p / c.modulus;
      assert c.modulus == c.cap * k;
      assert p == p % c.modulus + c.cap * (k * q) by {
        assert c.modulus * q == c.cap * k * q == c.cap * (k * q);
      }
      AddMultiple(p % c.modulus, k * q, c.cap);
    }
  }

  /** Positions less than a capacity apart use different slots; a capacity apart, the same slot. */
  lemma SlotDistance(c: Config, p: nat, d: nat)
    requires c.Valid() && d <= c.cap && c.Regular(p + d + 1)
    ensures c.Slot(p + d) == c.Slot(p) <==> d == 0 || d == c.cap
  {
    RegularSlot(c, p);
    RegularSlot(c, p + d);
    ModDistance(p, d, c.cap);
  }

  /** When the capacity divides the modulus, every window of `cap` positions uses every slot. */
  lemma WindowCoversSlots(c: Config, low: nat, k: nat) returns (p: nat)
    requires c.Valid() && c.Divides() && k < c.cap
    ensures low <= p < low + c.cap && c.Slot(p) == k
  {
    hide Config.Slot;
    p := NumberWithRemainder(low, k, c.cap);
    RegularSlot(c, p);
  }

  /** No two positions of a window of `cap` consecutive ones share a slot. */
  ghost predicate WindowsAreInjective(c: Config)
    requires c.Valid()
  {
    forall p: nat, q: nat :: p < q < p + c.cap ==> c.Slot(p) != c.Slot(q)
  }

  /**
   * When the capacity leaves remainder r > 0, the first window across the wrap that is long
   * enough to collide is r + 1 positions long, and its two ends share slot 0.
   */
  lemma CollisionAtWrap(c: Config)
    requires c.Valid() && !c.Divides()
    ensures var r := c.modulus % c.cap;
            0 < r < c.cap && c.Slot(c.modulus - r) == 0 && c.Slot(c.modulus) == 0
  {
    var r, k := c.modulus % c.cap, c.modulus / c.cap;
    var p := c.modulus - r;
    assert c.modulus == c.cap * k + r;
    Remainder(p, 0, p, c.modulus);
    Remainder(p, k, 0, c.cap);
    Remainder(c.modulus, 1, 0, c.modulus);
    Remainder(0, 0, 0, c.cap);
  }

  /** Windows of any age are free of collisions exactly when the capacity divides the modulus. */
  lemma InjectiveIffDivides(c: Config)
    requires c.Valid()
    ensures WindowsAreInjective(c) <==> c.Divides()
  {
    if c.Divides() {
      forall p: nat, q: nat | p < q < p + c.cap
        ensures c.Slot(p) != c.Slot(q)
      {
        SlotDistance(c, p, q - p);
      }
    } else {
      CollisionAtWrap(c);
      var r := c.modulus % c.cap;
      assert c.Slot(c.modulus - r) == c.Slot(c.modulus);
    }
  }
}
