/** What holds over whole histories of allocations and releases, whoever makes them. */
module PmmHistory {
  import opened FrameSets
  import opened Wrappers
  import B = BitmapPmm

  datatype Op = Take | Give(frame: nat)

  datatype Reply = Taken(frame: Option<nat>) | Given(done: bool)

  ghost function Apply(s: PmmState, op: Op): (PmmState, Reply) {
    match op
    case Take => var (t, f) := Allocate(s); (t, Taken(f))
    case Give(f) => var (t, done) := Release(s, f); (t, Given(done))
  }

  /** The state after a history that starts from `initialize`. */
  ghost function After(usable: set<nat>, ops: seq<Op>): PmmState {
    if ops == [] then FreshState(usable)
    else Apply(After(usable, ops[..|ops| - 1]), ops[|ops| - 1]).0
  }

  /** The reply to an operation issued after a history. */
  ghost function ReplyTo(usable: set<nat>, ops: seq<Op>, op: Op): Reply {
    Apply(After(usable, ops), op).1
  }

  /** The frames handed out and not yet given back, read off the replies alone. */
  ghost function Outstanding(usable: set<nat>, ops: seq<Op>): set<nat> {
    if ops == [] then {}
    else
      var before, op := ops[..|ops| - 1], ops[|ops| - 1];
      match ReplyTo(usable, before, op)
      case Taken(Some(f)) => Outstanding(usable, before) + {f}
      case Given(true) => if op.Give? then Outstanding(usable, before) - {op.frame} else Outstanding(usable, before)
      case _ => Outstanding(usable, before)
  }

  /** Free and outstanding frames split the usable ones, over every history. */
  lemma {:induction false} Conservation(usable: set<nat>, ops: seq<Op>)
    ensures After(usable, ops).usable == usable
    ensures After(usable, ops).free == usable - Outstanding(usable, ops)
    ensures Outstanding(usable, ops) <= usable
    ensures |After(usable, ops).free| + |Outstanding(usable, ops)| == |usable|
  {
    if ops != [] {
      var before := ops[..|ops| - 1];
      Conservation(usable, before);
      StepKeepsSplit(usable, After(usable, before), Outstanding(usable, before), ops[|ops| - 1]);
    }
    SplitCounts(usable, Outstanding(usable, ops));
  }

  lemma SplitCounts(usable: set<nat>, out: set<nat>)
    requires out <= usable
    ensures |usable - out| + |out| == |usable|
  {
    assert (usable - out) + out == usable;
  }

  lemma StepKeepsSplit(usable: set<nat>, s: PmmState, out: set<nat>, op: Op)
    requires s == PmmState(usable, usable - out) && out <= usable
    ensures match Apply(s, op)
            case (t, Taken(Some(f))) => t == PmmState(usable, usable - (out + {f})) && f in usable
            case (t, Given(true)) => op.Give? && t == PmmState(usable, usable - (out - {op.frame}))
            case (t, _) => t == s
  {
  }

  /**
   * No frame is handed out twice, a release succeeds exactly for an outstanding frame, and a
   * refused operation changes nothing.
   */
  lemma Ownership(usable: set<nat>, ops: seq<Op>, op: Op)
    ensures op.Take? ==>
              var r := ReplyTo(usable, ops, op);
              (r == Taken(None) <==> Outstanding(usable, ops) == usable)
              && (r != Taken(None) ==>
                    IsLowest(usable - Outstanding(usable, ops), r.frame.value)
                    && Outstanding(usable, ops + [op]) == Outstanding(usable, ops) + {r.frame.value})
    ensures op.Give? ==>
              (ReplyTo(usable, ops, op) == Given(op.frame in Outstanding(usable, ops)))
              && Outstanding(usable, ops + [op]) == Outstanding(usable, ops) - {op.frame}
    ensures ReplyTo(usable, ops, op) in {Taken(None), Given(false)}
            ==> After(usable, ops + [op]) == After(usable, ops)
  {
    Conservation(usable, ops);
    assert (ops + [op])[..|ops|] == ops;
    var s := After(usable, ops);
    assert s.free == {} <==> Outstanding(usable, ops) == usable;
  }

  /** `k` allocations in a row, as far as they succeed. */
  ghost function TakeMany(s: PmmState, k: nat): (seq<nat>, PmmState)
    decreases k
  {
    if k == 0 || s.free == {} then ([], s)
    else
      var (t, f) := Allocate(s);
      var (rest, u) := TakeMany(t, k - 1);
      ([f.value] + rest, u)
  }

  /** They are the smallest free frames, in ascending order, each taken once. */
  lemma {:induction false} TakeManyAscends(s: PmmState, k: nat)
    ensures var (fs, t) := TakeMany(s, k);
            |fs| == (if k < |s.free| then k else |s.free|)
            && (forall i :: 0 <= i < |fs| ==> fs[i] in s.free)
            && (forall i, j :: 0 <= i < j < |fs| ==> fs[i] < fs[j])
            && t == s.(free := set f | f in s.free && f !in fs)
            && (forall i, g :: 0 <= i < |fs| && g in t.free ==> fs[i] < g)
    decreases k
  {
    if k == 0 || s.free == {} {
      assert s.free == set f | f in s.free && f !in [];
    } else {
      var low := Lowest(s.free);
      var t := Allocate(s).0;
      TakeManyAscends(t, k - 1);
      var (rest, u) := TakeMany(t, k - 1);
      var fs := [low] + rest;
      assert TakeMany(s, k) == (fs, u);
      assert |t.free| == |s.free| - 1;
      assert u.free == set f | f in s.free && f !in fs;
    }
  }

  /** One operation on the allocator itself. */
  method PerformOne(pmm: B.BitmapPmm, op: Op) returns (reply: Reply)
    requires pmm.Valid()
    modifies pmm, pmm.allocatedMap
    ensures pmm.Valid() && (pmm.State(), reply) == Apply(old(pmm.State()), op)
  {
    match op {
      case Take =>
        var frame := pmm.Allocate();
        reply := Taken(frame);
      case Give(frame) =>
        var done := pmm.Free(frame);
        reply := Given(done);
    }
  }

  /** A whole history on the allocator itself: it replies and ends as the abstract history does. */
  method PerformAll(pmm: B.BitmapPmm, ghost usable: set<nat>, ops: seq<Op>) returns (replies: seq<Reply>)
    requires pmm.Valid() && pmm.State() == FreshState(usable)
    modifies pmm, pmm.allocatedMap
    ensures pmm.Valid() && pmm.State() == After(usable, ops) && |replies| == |ops|
    ensures forall i :: 0 <= i < |ops| ==> replies[i] == ReplyTo(usable, ops[..i], ops[i])
  {
    hide B.StateOf, B.Consistent, Apply;
    replies := [];
    for n := 0 to |ops|
      invariant pmm.Valid() && pmm.State() == After(usable, ops[..n]) && |replies| == n
      invariant forall i :: 0 <= i < n ==> replies[i] == ReplyTo(usable, ops[..i], ops[i])
    {
      var reply := PerformOne(pmm, ops[n]);
      replies := replies + [reply];
      assert ops[..n + 1][..n] == ops[..n];
    }
    assert ops[..|ops|] == ops;
  }

  /**
   * From `initialize` on, the counter of free frames and the frames still out always add up to the
   * frames that the memory map makes usable.
   */
  method InitializeAndPerform(pmm: B.BitmapPmm, entries: seq<Entry>, ops: seq<Op>) returns (replies: seq<Reply>)
    requires pmm.Shape()
    modifies pmm, pmm.usableMap, pmm.allocatedMap
    ensures pmm.Valid() && pmm.State() == After(Covered(pmm.words, entries), ops) && |replies| == |ops|
    ensures forall i :: 0 <= i < |ops| ==>
              replies[i] == ReplyTo(Covered(pmm.words, entries), ops[..i], ops[i])
    ensures pmm.freeFrames + |Outstanding(Covered(pmm.words, entries), ops)|
            == pmm.usableFrames == |Covered(pmm.words, entries)|
  {
    hide Covered, B.StateOf, B.Consistent, After, ReplyTo, Outstanding;
    var _ := pmm.Initialize(entries);
    replies := PerformAll(pmm, Covered(pmm.words, entries), ops);
    Conservation(Covered(pmm.words, entries), ops);
    CountersOfState(pmm);
  }

  lemma CountersOfState(pmm: B.BitmapPmm)
    requires pmm.Valid()
    ensures pmm.usableFrames == |pmm.State().usable| && pmm.freeFrames == |pmm.State().free|
  {
  }

  /** Boot: allocate a probe frame, give it back, allocate again.  The second frame is the probe. */
  method BootFrames(pmm: B.BitmapPmm) returns (probe: Option<nat>, tensorFrame: Option<nat>)
    requires pmm.Valid()
    modifies pmm, pmm.allocatedMap
    ensures pmm.Valid() && probe == tensorFrame
    ensures probe == None <==> old(pmm.State()).free == {}
    ensures probe != None ==> IsLowest(old(pmm.State()).free, probe.value)
    ensures pmm.State() == Allocate(old(pmm.State())).0
  {
    probe := pmm.Allocate();
    if probe == None {
      return probe, None;
    }
    ProbeCycle(old(pmm.State()));
    var returned := pmm.Free(probe.value);
    assert returned;
    tensorFrame := pmm.Allocate();
  }

  /** Releasing the frame just allocated restores the state. */
  lemma ProbeCycle(s: PmmState)
    requires s.Valid() && s.free != {}
    ensures Release(Allocate(s).0, Allocate(s).1.value) == (s, true)
  {
    var low := Lowest(s.free);
    assert s.free - {low} + {low} == s.free;
  }
}
