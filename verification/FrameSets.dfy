/**
 * What the frame allocator means: a set of usable frames and a set of free frames.
 * Bitmaps denote sets of frames, and the boot memory map denotes the set of frames it covers.
 */
module FrameSets {
  import opened Bits64
  import opened Wrappers

  const FRAME_SIZE: nat := 4096
  const TWO_TO_64: nat := 0x1_0000_0000_0000_0000

  type u64 = x: int | 0 <= x < TWO_TO_64

  // Frames and addresses

  /** The frame number of a physical address, and the address of a frame. */
  function FromAddress(address: nat): nat {
    address / FRAME_SIZE
  }

  function Address(frame: nat): nat {
    frame * FRAME_SIZE
  }

  lemma AddressRoundTrip(frame: nat)
    ensures FromAddress(Address(frame)) == frame
  {
  }

  // Bitmaps

  /** The numbers of the bits of one word that are on. */
  function BitsOf(w: bv64): set<nat> {
    set k: nat | k < 64 && On(w, Pos(k))
  }

  predicate Member(words: seq<bv64>, f: nat) {
    f / 64 < |words| && f % 64 in BitsOf(words[f / 64])
  }

  predicate InRange(words: nat, f: nat) {
    f < 64 * words
  }

  function Frames(words: seq<bv64>): set<nat> {
    set f: nat | f < 64 * |words| && Member(words, f)
  }

  function AllFrames(words: nat): set<nat> {
    set f: nat | f < 64 * words && InRange(words, f)
  }

  lemma BitsAfterSet(w: bv64, k: nat)
    requires k < 64
    ensures BitsOf(With(w, Bit(Pos(k)))) == BitsOf(w) + {k}
  {
    hide On, Pos, Bit, With;
    forall j: nat | j < 64
      ensures On(With(w, Bit(Pos(k))), Pos(j)) == (j == k || On(w, Pos(j)))
    {
      SetBit(w, Pos(k), Pos(j));
      PosInjective(j, k);
    }
  }

  lemma BitsAfterClear(w: bv64, k: nat)
    requires k < 64
    ensures BitsOf(Without(w, Bit(Pos(k)))) == BitsOf(w) - {k}
  {
    hide On, Pos, Bit, Without;
    forall j: nat | j < 64
      ensures On(Without(w, Bit(Pos(k))), Pos(j)) == (j != k && On(w, Pos(j)))
    {
      ClearBit(w, Pos(k), Pos(j));
      PosInjective(j, k);
    }
  }

  lemma BitsOfDifference(w: bv64, v: bv64)
    ensures BitsOf(Without(w, v)) == BitsOf(w) - BitsOf(v)
  {
    hide On, Pos, Without;
    forall j: nat | j < 64
      ensures On(Without(w, v), Pos(j)) == (On(w, Pos(j)) && !On(v, Pos(j)))
    {
      DifferenceBit(w, v, Pos(j));
    }
  }

  lemma NoBits(w: bv64)
    ensures w == 0 <==> BitsOf(w) == {}
  {
    hide On, Pos;
    if w == 0 {
      forall j: nat | j < 64
        ensures !On(0, Pos(j))
      {
        ConstantWords(Pos(j));
      }
    } else {
      LowestBit(w);
      assert TrailingZeros(w) in BitsOf(w);
    }
  }

  /** Replacing one word by one that differs in one bit changes one frame and no other. */
  lemma ReplaceWord(words: seq<bv64>, f: nat, w: bv64)
    requires f < 64 * |words|
    ensures BitsOf(w) == BitsOf(words[f / 64]) + {f % 64}
            ==> Frames(words[f / 64 := w]) == Frames(words) + {f}
    ensures BitsOf(w) == BitsOf(words[f / 64]) - {f % 64}
            ==> Frames(words[f / 64 := w]) == Frames(words) - {f}
  {
    hide On, Pos, BitsOf;
    var after := words[f / 64 := w];
    forall g: nat | g < 64 * |words|
      ensures g / 64 == f / 64 && g % 64 == f % 64 <==> g == f
      ensures g / 64 != f / 64 ==> (Member(after, g) <==> Member(words, g))
    {
    }
  }

  lemma MemberIff(words: seq<bv64>, f: nat)
    ensures f in Frames(words) <==> Member(words, f)
    ensures f / 64 < |words| <==> f < 64 * |words|
  {
    hide BitsOf;
  }

  lemma ZeroWords(words: seq<bv64>)
    requires forall i :: 0 <= i < |words| ==> words[i] == 0
    ensures Frames(words) == {}
  {
    hide BitsOf;
    NoBits(0);
  }

  lemma FullWords(words: seq<bv64>)
    requires forall i :: 0 <= i < |words| ==> words[i] == ALL_ONES
    ensures Frames(words) == AllFrames(|words|)
  {
    hide On, Pos;
    forall k: nat | k < 64
      ensures k in BitsOf(ALL_ONES)
    {
      ConstantWords(Pos(k));
    }
  }

  /** A bitmap is determined by the set it denotes. */
  lemma SameFramesSameWords(v: seq<bv64>, w: seq<bv64>)
    requires |v| == |w| && Frames(v) == Frames(w)
    ensures v == w
  {
    hide On, Pos, Frames;
    forall i | 0 <= i < |v|
      ensures v[i] == w[i]
    {
      forall p: bv6
        ensures On(v[i], p) == On(w[i], p)
      {
        PosOfNum(p);
        var f := 64 * i + Num(p);
        assert f / 64 == i && f % 64 == Num(p);
        MemberIff(v, f);
        MemberIff(w, f);
        assert Num(p) in BitsOf(v[i]) <==> On(v[i], p);
        assert Num(p) in BitsOf(w[i]) <==> On(w[i], p);
      }
      SameBits(v[i], w[i]);
    }
  }

  // The boot memory map

  /** Byte `a` of physical memory belongs to frame `f`. */
  predicate FrameByte(f: nat, a: int) {
    FRAME_SIZE * f <= a < FRAME_SIZE * (f + 1)
  }

  /** The address of a frame is that of its first byte, and every byte's address leads back to the frame. */
  lemma AddressIsFirstByte(f: nat, a: nat)
    ensures FrameByte(f, Address(f))
    ensures FrameByte(f, a) ==> Address(f) <= a
    ensures FrameByte(f, a) <==> FromAddress(a) == f
  {
  }

  /** One memory-map entry. */
  datatype Entry = Entry(base: u64, length: u64, usable: bool) {
    /** Neither rounding the base up nor adding the length overflows 64 bits. */
    predicate Accepted() {
      usable && base + (FRAME_SIZE - 1) < TWO_TO_64 && base + length < TWO_TO_64
    }

    /** Every byte of the frame lies in the entry. */
    ghost predicate Contains(f: nat) {
      forall a :: FrameByte(f, a) ==> base <= a < base + length
    }
  }

  ghost predicate CoveredBy(entries: seq<Entry>, f: nat) {
    exists e :: e in entries && e.Accepted() && e.Contains(f)
  }

  /** The frames that some single usable entry covers entirely. */
  ghost function Covered(words: nat, entries: seq<Entry>): set<nat> {
    set f: nat | f < 64 * words && CoveredBy(entries, f)
  }

  /**
   * A frame is covered exactly when one entry marked usable, whose base rounds up and whose end is
   * computed without overflow, reaches from the frame's first byte to its last.
   */
  lemma CoveredExactly(words: nat, entries: seq<Entry>, f: nat)
    ensures f in Covered(words, entries)
            <==> f < 64 * words
                 && exists e :: e in entries && e.usable
                                && e.base + 4095 <= 0xffff_ffff_ffff_ffff && e.base + e.length <= 0xffff_ffff_ffff_ffff
                                && e.base <= 4096 * f && 4096 * (f + 1) <= e.base + e.length
  {
    forall e: Entry
      ensures e.Contains(f) <==> e.base <= 4096 * f && 4096 * (f + 1) <= e.base + e.length
    {
      assert FrameByte(f, 4096 * f) && FrameByte(f, 4096 * (f + 1) - 1);
    }
  }

  /** Only which entries there are matters: neither their order nor how often one is listed. */
  lemma CoveredIgnoresOrder(words: nat, m: seq<Entry>, n: seq<Entry>)
    requires forall e :: e in m <==> e in n
    ensures Covered(words, m) == Covered(words, n)
  {
    forall f: nat
      ensures CoveredBy(m, f) <==> CoveredBy(n, f)
    {
      if CoveredBy(m, f) {
        var e :| e in m && e.Accepted() && e.Contains(f);
        assert e in n;
      }
      if CoveredBy(n, f) {
        var e :| e in n && e.Accepted() && e.Contains(f);
        assert e in m;
      }
    }
  }

  /** A frame split between two entries is not usable, although every byte of it is usable memory. */
  lemma SplitFrameIsExcluded(words: nat, f: nat, cut: nat)
    requires FRAME_SIZE * f < cut < FRAME_SIZE * (f + 1) < TWO_TO_64
    ensures f !in Covered(words, [Entry(FRAME_SIZE * f, cut - FRAME_SIZE * f, true),
                                  Entry(cut, FRAME_SIZE * (f + 1) - cut, true)])
  {
    var low := Entry(FRAME_SIZE * f, cut - FRAME_SIZE * f, true);
    var high := Entry(cut, FRAME_SIZE * (f + 1) - cut, true);
    assert !low.Contains(f) by {
      assert FrameByte(f, cut);
    }
    assert !high.Contains(f) by {
      assert FrameByte(f, FRAME_SIZE * f);
    }
  }

  /** An address rounded up to a frame boundary. */
  function RoundUp(a: nat): nat {
    (a + (FRAME_SIZE - 1)) / FRAME_SIZE * FRAME_SIZE
  }

  /** Masking the word for `a + (FRAME_SIZE - 1)` with `!(FRAME_SIZE - 1)` gives the word for `RoundUp(a)`. */
  lemma MaskIsRoundUp(w: bv64, a: nat)
    requires Value(w, 64) == a + (FRAME_SIZE - 1)
    ensures Value(Without(w, 4096 - 1), 64) == RoundUp(a)
  {
    hide Without, Value, LowOnes;
    FrameMask();
    MaskRoundsDown(w, 12, 64);
  }

  /** The rounded and clipped frame range of the scan is the set of frames the entry contains. */
  lemma ScanRange(words: nat, e: Entry, end: nat, f: nat)
    requires end == if e.base + e.length < 64 * words * FRAME_SIZE then e.base + e.length
                    else 64 * words * FRAME_SIZE
    ensures RoundUp(e.base) / FRAME_SIZE <= f < end / FRAME_SIZE <==> f < 64 * words && e.Contains(f)
  {
    assert FrameByte(f, FRAME_SIZE * f) && FrameByte(f, FRAME_SIZE * (f + 1) - 1);
  }

  // The abstract allocator

  datatype PmmState = PmmState(usable: set<nat>, free: set<nat>) {
    ghost predicate Valid() {
      free <= usable
    }
  }

  ghost predicate IsLowest(s: set<nat>, f: nat) {
    f in s && forall g :: g in s ==> f <= g
  }

  /** The smallest member. */
  ghost function Lowest(s: set<nat>): (f: nat)
    requires s != {}
    ensures IsLowest(s, f)
  {
    LowestExists(s);
    var f :| IsLowest(s, f);
    f
  }

  lemma {:induction false} LowestExists(s: set<nat>)
    requires s != {}
    ensures exists f :: IsLowest(s, f)
  {
    var g :| g in s;
    if s == {g} {
      assert IsLowest(s, g);
    } else {
      LowestExists(s - {g});
      var h :| IsLowest(s - {g}, h);
      assert forall x :: x in s ==> x == g || x in s - {g};
      assert IsLowest(s, if g < h then g else h);
    }
  }

  /** Taking the lowest free frame. */
  ghost function Allocate(s: PmmState): (PmmState, Option<nat>) {
    if s.free == {} then (s, None)
    else (s.(free := s.free - {Lowest(s.free)}), Some(Lowest(s.free)))
  }

  /** Giving a frame back; refused unless the frame is usable and taken. */
  ghost function Release(s: PmmState, f: nat): (PmmState, bool) {
    if f in s.usable - s.free then (s.(free := s.free + {f}), true) else (s, false)
  }

  /** The state just after `initialize`: every usable frame is free. */
  ghost function FreshState(usable: set<nat>): PmmState {
    PmmState(usable, usable)
  }
}
