/**
 * The bitmap frame allocator: two arrays of 64-bit words and three counters, updated in place.
 * Every operation is proved against the abstract allocator of FrameSets.
 */
module BitmapPmm {
  import opened Bits64
  import opened FrameSets
  import opened Wrappers

  datatype PmmStats = PmmStats(usableFrames: nat, freeFrames: nat, maxFrame: nat)

  /** `end` is one more than the largest member, or zero when there is none. */
  ghost predicate IsEnd(s: set<nat>, end: nat) {
    (forall f :: f in s ==> f < end) && (end > 0 ==> end - 1 in s)
  }

  ghost function StateOf(usable: seq<bv64>, taken: seq<bv64>): PmmState {
    PmmState(Frames(usable), Frames(usable) - Frames(taken))
  }

  /**
   * Bits of unusable frames stay set in the allocation bitmap, and the counters count: usable
   * frames, free frames, and one past the highest usable frame.
   */
  ghost predicate Consistent(usable: seq<bv64>, taken: seq<bv64>, stats: PmmStats) {
    |usable| == |taken|
    && AllFrames(|usable|) - Frames(usable) <= Frames(taken)
    && stats.usableFrames == |Frames(usable)|
    && stats.freeFrames == |Frames(usable) - Frames(taken)|
    && IsEnd(Frames(usable), stats.maxFrame)
  }

  class BitmapPmm {
    const words: nat
    const usableMap: array<bv64>
    const allocatedMap: array<bv64>
    var usableFrames: nat
    var freeFrames: nat
    var maxFrame: nat

    ghost predicate Shape() {
      usableMap.Length == allocatedMap.Length == words && usableMap != allocatedMap
    }

    function Stats(): PmmStats
      reads this
    {
      PmmStats(usableFrames, freeFrames, maxFrame)
    }

    ghost function State(): PmmState
      reads usableMap, allocatedMap
    {
      StateOf(usableMap[..], allocatedMap[..])
    }

    ghost predicate Valid()
      reads this, usableMap, allocatedMap
    {
      Shape() && Consistent(usableMap[..], allocatedMap[..], Stats())
    }

    constructor (words: nat)
      ensures Valid() && this.words == words && fresh(usableMap) && fresh(allocatedMap)
      ensures State() == FreshState({})
    {
      this.words := words;
      var u := new bv64[words](_ => 0);
      var a := new bv64[words](_ => ALL_ONES);
      usableMap, allocatedMap := u, a;
      usableFrames, freeFrames, maxFrame := 0, 0, 0;
      new;
      EmptyRepresentation(usableMap[..], allocatedMap[..]);
    }

    /** Every entry is scanned; the result is the set of frames that single usable entries cover. */
    method Initialize(entries: seq<Entry>) returns (stats: PmmStats)
      requires Shape()
      modifies this, usableMap, allocatedMap
      ensures Valid() && State() == FreshState(Covered(words, entries))
      ensures forall f: nat :: f in State().usable
                <==> f < 64 * words
                     && exists e :: e in entries && e.usable
                                    && e.base + 4095 <= 0xffff_ffff_ffff_ffff
                                    && e.base + e.length <= 0xffff_ffff_ffff_ffff
                                    && e.base <= 4096 * f && 4096 * (f + 1) <= e.base + e.length
      ensures stats == Stats() && stats.usableFrames == stats.freeFrames == |State().usable|
      ensures stats.maxFrame == 0 <==> State().usable == {}
      ensures stats.maxFrame > 0 ==> stats.maxFrame - 1 in State().usable
      ensures forall f :: f in State().usable ==> f < stats.maxFrame
    {
      hide Frames, BitsOf, Consistent, StateOf;
      forall i | 0 <= i < words {
        usableMap[i] := 0;
      }
      forall i | 0 <= i < words {
        allocatedMap[i] := ALL_ONES;
      }
      usableFrames, freeFrames, maxFrame := 0, 0, 0;
      EmptyRepresentation(usableMap[..], allocatedMap[..]);
      assert Covered(words, entries[..0]) == {};
      for n := 0 to |entries|
        invariant Valid() && State() == FreshState(Covered(words, entries[..n]))
      {
        ScanEntry(entries[n]);
        CoveredGrows(words, entries, n);
      }
      assert entries[..|entries|] == entries;
      stats := PmmStats(usableFrames, freeFrames, maxFrame);
      FreshCounters(usableMap[..], allocatedMap[..], stats);
      forall f: nat {
        CoveredExactly(words, entries, f);
      }
    }

    /** One turn of the scan; an entry that is not usable or overflows adds nothing. */
    method ScanEntry(e: Entry)
      requires Valid() && State() == FreshState(State().usable)
      modifies this, usableMap, allocatedMap
      ensures Valid()
      ensures State() == FreshState(old(State().usable) + Covered(words, [e]))
      ensures !e.usable ==> State() == old(State())
    {
      hide Frames, BitsOf, Consistent, StateOf, Covered, RoundUp;
      if !e.usable || e.base + (FRAME_SIZE - 1) >= TWO_TO_64 || e.base + e.length >= TWO_TO_64 {
        RefusedEntry(words, e);
        return;
      }
      var start := RoundUp(e.base);
      var limit := 64 * words * FRAME_SIZE;
      var end := if e.base + e.length < limit then e.base + e.length else limit;
      EntryRange(words, e, end);
      if start >= end {
        return;
      }
      var first, last := start / FRAME_SIZE, end / FRAME_SIZE;
      assert State() == FreshState(old(State().usable) + Range(first, first));
      for frame := first to last
        invariant Valid()
        invariant State() == FreshState(old(State().usable) + Range(first, frame))
      {
        MarkUsable(frame);
        assert Range(first, frame + 1) == Range(first, frame) + {frame};
      }
    }

    method MarkUsable(frame: nat)
      requires Valid()
      modifies this, usableMap, allocatedMap
      ensures Valid()
      ensures State() == if frame < 64 * words && frame !in old(State().usable)
                         then PmmState(old(State().usable) + {frame}, old(State().free) + {frame})
                         else old(State())
    {
      hide Frames, BitsOf, On, Bit, With, Without, Pos, Consistent;
      if frame >= 64 * words || IsUsable(frame) {
        return;
      }
      Marked(usableMap[..], allocatedMap[..], Stats(), frame);
      usableMap[frame / 64] := With(usableMap[frame / 64], Bit(Pos(frame % 64)));
      allocatedMap[frame / 64] := Without(allocatedMap[frame / 64], Bit(Pos(frame % 64)));
      usableFrames := usableFrames + 1;
      freeFrames := freeFrames + 1;
      maxFrame := if maxFrame < frame + 1 then frame + 1 else maxFrame;
    }

    predicate IsUsable(frame: nat)
      requires Shape()
      reads usableMap
      ensures IsUsable(frame) <==> frame in State().usable
    {
      MemberIff(usableMap[..], frame);
      frame < 64 * words && On(usableMap[frame / 64], Pos(frame % 64))
    }

    /** Like the source, this has no range test of its own; `Free` asks it about usable frames only. */
    predicate IsAllocated(frame: nat)
      requires Shape() && frame < 64 * words
      reads allocatedMap
      ensures IsAllocated(frame) <==> frame in Frames(allocatedMap[..])
    {
      MemberIff(allocatedMap[..], frame);
      On(allocatedMap[frame / 64], Pos(frame % 64))
    }

    /** Takes the lowest free frame; gives nothing exactly when the free counter is zero. */
    method Allocate() returns (frame: Option<nat>)
      requires Valid()
      modifies this, allocatedMap
      ensures Valid()
      ensures (State(), frame) == FrameSets.Allocate(old(State()))
      ensures frame == None <==> old(freeFrames) == 0
    {
      hide Frames, BitsOf, On, Bit, With, Without, Pos, Consistent;
      CountsFree(usableMap[..], allocatedMap[..], Stats());
      for wordIndex := 0 to words
        invariant forall f :: f in State().free ==> 64 * wordIndex <= f
        invariant Valid() && State() == old(State()) && Stats() == old(Stats())
      {
        var available := Without(usableMap[wordIndex], allocatedMap[wordIndex]);
        if available == 0 {
          NoneInWord(usableMap[..], allocatedMap[..], wordIndex);
          continue;
        }
        var bit := TrailingZeros(available);
        LowestFree(usableMap[..], allocatedMap[..], wordIndex);
        var number := wordIndex * 64 + bit;
        TakenRepresentation(usableMap[..], allocatedMap[..], Stats(), wordIndex, bit);
        allocatedMap[wordIndex] := With(allocatedMap[wordIndex], Bit(Pos(bit)));
        freeFrames := freeFrames - 1;
        return Some(number);
      }
      NoneBeyond(usableMap[..], allocatedMap[..]);
      frame := None;
    }

    /** Frees exactly the usable frames that are taken, and leaves everything else alone. */
    method Free(number: nat) returns (freed: bool)
      requires Valid()
      modifies this, allocatedMap
      ensures Valid()
      ensures (State(), freed) == Release(old(State()), number)
    {
      hide Frames, BitsOf, On, Bit, With, Without, Pos, Consistent;
      if !IsUsable(number) || !IsAllocated(number) {
        return false;
      }
      FreedRepresentation(usableMap[..], allocatedMap[..], Stats(), number);
      allocatedMap[number / 64] := Without(allocatedMap[number / 64], Bit(Pos(number % 64)));
      freeFrames := freeFrames + 1;
      freed := true;
    }
  }

  /** Two allocators in the same abstract state hold the same words and the same counts. */
  lemma StateDeterminesRepresentation(u: seq<bv64>, a: seq<bv64>, s: PmmStats,
                                      v: seq<bv64>, b: seq<bv64>, t: PmmStats)
    requires |u| == |v| && Consistent(u, a, s) && Consistent(v, b, t) && StateOf(u, a) == StateOf(v, b)
    ensures u == v && a == b && s == t
  {
    hide BitsOf;
    assert Frames(a) <= AllFrames(|a|) && Frames(b) <= AllFrames(|b|);
    assert Frames(a) == AllFrames(|a|) - StateOf(u, a).free;
    assert Frames(b) == AllFrames(|b|) - StateOf(v, b).free;
    SameFramesSameWords(u, v);
    SameFramesSameWords(a, b);
  }

  /** Scanning the same entries in another order gives the same words and the same counts. */
  lemma InitializeIgnoresOrder(m: seq<Entry>, n: seq<Entry>,
                               u: seq<bv64>, a: seq<bv64>, s: PmmStats,
                               v: seq<bv64>, b: seq<bv64>, t: PmmStats)
    requires multiset(m) == multiset(n) && |u| == |v|
    requires Consistent(u, a, s) && StateOf(u, a) == FreshState(Covered(|u|, m))
    requires Consistent(v, b, t) && StateOf(v, b) == FreshState(Covered(|v|, n))
    ensures u == v && a == b && s == t
  {
    assert forall e :: e in m <==> e in multiset(m);
    assert forall e :: e in n <==> e in multiset(n);
    CoveredIgnoresOrder(|u|, m, n);
    StateDeterminesRepresentation(u, a, s, v, b, t);
  }

  // The effect of each operation on the representation

  lemma EmptyRepresentation(u: seq<bv64>, a: seq<bv64>)
    requires |u| == |a|
    requires forall i :: 0 <= i < |u| ==> u[i] == 0 && a[i] == ALL_ONES
    ensures Consistent(u, a, PmmStats(0, 0, 0)) && StateOf(u, a) == FreshState({})
  {
    hide BitsOf;
    ZeroWords(u);
    FullWords(a);
  }

  lemma Marked(u: seq<bv64>, a: seq<bv64>, stats: PmmStats, f: nat)
    requires Consistent(u, a, stats) && f < 64 * |u| && f !in Frames(u)
    ensures var v := u[f / 64 := With(u[f / 64], Bit(Pos(f % 64)))];
            var b := a[f / 64 := Without(a[f / 64], Bit(Pos(f % 64)))];
            Consistent(v, b, PmmStats(stats.usableFrames + 1, stats.freeFrames + 1,
                                      if stats.maxFrame < f + 1 then f + 1 else stats.maxFrame))
            && StateOf(v, b) == PmmState(Frames(u) + {f}, StateOf(u, a).free + {f})
  {
    hide Frames, BitsOf, On, Bit, With, Without, Pos;
    BitsAfterSet(u[f / 64], f % 64);
    ReplaceWord(u, f, With(u[f / 64], Bit(Pos(f % 64))));
    BitsAfterClear(a[f / 64], f % 64);
    ReplaceWord(a, f, Without(a[f / 64], Bit(Pos(f % 64))));
    assert (Frames(u) + {f}) - (Frames(a) - {f}) == (Frames(u) - Frames(a)) + {f};
  }

  lemma TakenRepresentation(u: seq<bv64>, a: seq<bv64>, stats: PmmStats, i: nat, bit: nat)
    requires Consistent(u, a, stats) && i < |u| && bit < 64 && 64 * i + bit in StateOf(u, a).free
    ensures stats.freeFrames > 0
    ensures var b := a[i := With(a[i], Bit(Pos(bit)))];
            Consistent(u, b, stats.(freeFrames := stats.freeFrames - 1))
            && StateOf(u, b) == PmmState(Frames(u), StateOf(u, a).free - {64 * i + bit})
  {
    hide Frames, BitsOf, On, Bit, With, Pos;
    var f := 64 * i + bit;
    assert f / 64 == i && f % 64 == bit;
    BitsAfterSet(a[i], bit);
    ReplaceWord(a, f, With(a[i], Bit(Pos(bit))));
    assert Frames(u) - (Frames(a) + {f}) == (Frames(u) - Frames(a)) - {f};
  }

  lemma FreedRepresentation(u: seq<bv64>, a: seq<bv64>, stats: PmmStats, f: nat)
    requires Consistent(u, a, stats) && f < 64 * |u| && f in Frames(u) && f in Frames(a)
    ensures var b := a[f / 64 := Without(a[f / 64], Bit(Pos(f % 64)))];
            Consistent(u, b, stats.(freeFrames := stats.freeFrames + 1))
            && StateOf(u, b) == PmmState(Frames(u), StateOf(u, a).free + {f})
  {
    hide Frames, BitsOf, On, Bit, Without, Pos;
    BitsAfterClear(a[f / 64], f % 64);
    ReplaceWord(a, f, Without(a[f / 64], Bit(Pos(f % 64))));
    assert Frames(u) - (Frames(a) - {f}) == (Frames(u) - Frames(a)) + {f};
  }

  /** What the counters of a fresh allocator say. */
  lemma FreshCounters(u: seq<bv64>, a: seq<bv64>, stats: PmmStats)
    requires Consistent(u, a, stats) && StateOf(u, a).free == StateOf(u, a).usable
    ensures stats.usableFrames == stats.freeFrames == |StateOf(u, a).usable|
    ensures stats.maxFrame == 0 <==> StateOf(u, a).usable == {}
    ensures stats.maxFrame > 0 ==> stats.maxFrame - 1 in StateOf(u, a).usable
    ensures forall f :: f in StateOf(u, a).usable ==> f < stats.maxFrame
  {
    hide Frames;
    if stats.maxFrame == 0 {
      assert forall f :: f in Frames(u) ==> f < 0;
    }
  }

  // The scan of the memory map

  predicate Between(first: nat, f: nat, end: nat) {
    first <= f < end
  }

  function Range(first: nat, end: nat): set<nat> {
    set f: nat | f < end && Between(first, f, end)
  }

  lemma CoveredGrows(words: nat, entries: seq<Entry>, n: nat)
    requires n < |entries|
    ensures Covered(words, entries[..n + 1]) == Covered(words, entries[..n]) + Covered(words, [entries[n]])
  {
    var before, after := entries[..n], entries[..n + 1];
    assert forall e :: e in after <==> e in before || e in [entries[n]] by {
      assert after == before + [entries[n]];
    }
  }

  lemma RefusedEntry(words: nat, e: Entry)
    requires !e.Accepted()
    ensures Covered(words, [e]) == {}
  {
  }

  lemma EntryRange(words: nat, e: Entry, end: nat)
    requires e.Accepted()
    requires end == if e.base + e.length < 64 * words * FRAME_SIZE then e.base + e.length
                    else 64 * words * FRAME_SIZE
    ensures Covered(words, [e]) == Range(RoundUp(e.base) / FRAME_SIZE, end / FRAME_SIZE)
    ensures RoundUp(e.base) >= end ==> Covered(words, [e]) == {}
  {
    forall f: nat
      ensures RoundUp(e.base) / FRAME_SIZE <= f < end / FRAME_SIZE <==> f < 64 * words && CoveredBy([e], f)
    {
      ScanRange(words, e, end, f);
      assert CoveredBy([e], f) <==> e.Contains(f);
    }
  }

  // The search for the lowest free frame

  lemma CountsFree(u: seq<bv64>, a: seq<bv64>, stats: PmmStats)
    requires Consistent(u, a, stats)
    ensures stats.freeFrames == 0 <==> StateOf(u, a).free == {}
  {
    hide Frames;
  }

  lemma NoneInWord(u: seq<bv64>, a: seq<bv64>, i: nat)
    requires i < |u| == |a| && Without(u[i], a[i]) == 0
    requires forall f :: f in StateOf(u, a).free ==> 64 * i <= f
    ensures forall f :: f in StateOf(u, a).free ==> 64 * (i + 1) <= f
  {
    hide BitsOf, Without;
    BitsOfDifference(u[i], a[i]);
    NoBits(Without(u[i], a[i]));
    var left := BitsOf(u[i]) - BitsOf(a[i]);
    assert left == {} && forall k :: k in BitsOf(u[i]) && k !in BitsOf(a[i]) ==> k in left;
    forall f | f in StateOf(u, a).free
      ensures 64 * (i + 1) <= f
    {
      assert f % 64 in BitsOf(u[f / 64]) && f % 64 !in BitsOf(a[f / 64]);
    }
  }

  lemma NoneBeyond(u: seq<bv64>, a: seq<bv64>)
    requires forall f :: f in StateOf(u, a).free ==> 64 * |u| <= f
    ensures StateOf(u, a).free == {}
  {
    hide BitsOf;
  }

  lemma LowestFree(u: seq<bv64>, a: seq<bv64>, i: nat)
    requires i < |u| == |a| && Without(u[i], a[i]) != 0
    requires forall f :: f in StateOf(u, a).free ==> 64 * i <= f
    ensures TrailingZeros(Without(u[i], a[i])) < 64
    ensures IsLowest(StateOf(u, a).free, 64 * i + TrailingZeros(Without(u[i], a[i])))
  {
    hide BitsOf, Without, TrailingZeros;
    BitsOfDifference(u[i], a[i]);
    LowestOfWord(Without(u[i], a[i]));
    var number := 64 * i + TrailingZeros(Without(u[i], a[i]));
    assert number / 64 == i && number % 64 == TrailingZeros(Without(u[i], a[i]));
    forall f | f in StateOf(u, a).free
      ensures number <= f
    {
      if f / 64 == i {
        assert f % 64 in BitsOf(u[i]) - BitsOf(a[i]);
      }
    }
  }

  lemma LowestOfWord(w: bv64)
    requires w != 0
    ensures IsLowest(BitsOf(w), TrailingZeros(w)) && TrailingZeros(w) < 64
  {
    hide On, Pos, TrailingZeros;
    LowestBit(w);
  }
}
