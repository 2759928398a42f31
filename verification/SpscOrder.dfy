/**
 * Consequences for whole runs: nothing pushed is lost or handed out twice, up to and including the
 * queue's destruction, and order is kept for ever exactly when the capacity divides 2^W.
 */
module SpscOrder {
  import opened WrappedIndex
  import opened BoundedFifo
  import opened SpscMachine
  import opened SpscIndices
  import opened SpscTheorems
  import opened SpscCalls

  /**
   * Between calls of any run, the stored indices are the wrapped counts of completed calls and both
   * tests are exact.  As long as slot numbers are regular, the cells hold what is still inside.
   */
  lemma IdleCore<T>(c: Config, sched: seq<Choice<T>>)
    requires c.Valid() && Run(c, sched).Idle()
    ensures var s, pushed, popped := Run(c, sched), Pushed(Trace(c, sched)), Popped(Trace(c, sched));
            |s.heads| == |pushed| + 1 && |s.tails| == |popped| + 1
            && |popped| <= |pushed| <= |popped| + c.cap
            && s.Head() == c.Index(|pushed|) && s.Tail() == c.Index(|popped|)
            && (CoreFull(c, CoreOf(c, s)) <==> |pushed| == |popped| + c.cap)
            && (s.Head() == s.Tail() <==> |pushed| == |popped|)
            && (c.Regular(|s.heads| - 1) ==>
                  popped <= pushed
                  && forall p :: |popped| <= p < |pushed| ==> s.cells[c.Slot(p)] == Full(pushed[p]))
  {
    hide Run, Trace, Pushed, Popped, Config.Index, Config.Slot, Config.Regular;
    HeadNeverOverruns(c, sched);
    var pushes, pops := |Pushed(Trace(c, sched))|, |Popped(Trace(c, sched))|;
    DistanceForward(c, pops, pushes - pops);
    if c.Regular(|Run(c, sched).heads| - 1) {
      RunInv(c, sched);
    }
  }

  // The destructor

  /** `while self.pop().is_some() {}`, for a queue holding `n` values: n pops and one that finds nothing. */
  function DropRun<T>(c: Config, sched: seq<Choice<T>>, n: nat): seq<Choice<T>>
    requires c.Valid()
    decreases n
  {
    if n == 0 then PopRun(c, sched) else DropRun(c, PopRun(c, sched), n - 1)
  }

  /**
   * Whatever stale loads a run made, once both sides are idle the destructor pops exactly the
   * values still inside, in order, and stops at its first empty pop: every value ever pushed is
   * moved out exactly once.  When the capacity divides 2^W, no cell is left holding a value.
   */
  lemma {:induction false} Conservation<T>(c: Config, sched: seq<Choice<T>>, n: nat)
    requires c.Valid() && Run(c, sched).Idle() && c.Regular(|Run(c, sched).heads| - 1)
    requires n == |Pushed(Trace(c, sched))| - |Popped(Trace(c, sched))|
    ensures var more := DropRun(c, sched, n);
            Run(c, more).Idle() && Run(c, more).faults == {}
            && Pushed(Trace(c, more)) == Pushed(Trace(c, sched))
            && Popped(Trace(c, more)) == Pushed(Trace(c, sched))
            && Trace(c, more)[|more| - 1] == PopEmpty
            && (c.Divides() ==> forall k :: 0 <= k < c.cap ==> !Run(c, more).cells[k].Full?)
    decreases n
  {
    hide Run, Trace, Pushed, Popped, PopRun, Config.Index, Config.Slot, Config.Divides;
    IdleCore(c, sched);
    SlotOfTail(c, |Popped(Trace(c, sched))|);
    SoloPop(c, sched);
    if n > 0 {
      Conservation(c, PopRun(c, sched), n - 1);
    } else {
      RunIsSafe(c, PopRun(c, sched));
      if c.Divides() {
        EmptyQueueHasNoValues(c, PopRun(c, sched));
      }
    }
  }

  lemma EmptyQueueHasNoValues<T>(c: Config, sched: seq<Choice<T>>)
    requires c.Valid() && c.Divides() && Run(c, sched).Idle()
    requires |Pushed(Trace(c, sched))| == |Popped(Trace(c, sched))|
    ensures forall k :: 0 <= k < c.cap ==> !Run(c, sched).cells[k].Full?
  {
    hide Run, Trace, Pushed, Popped, Config.Index, Config.Slot;
    RunInv(c, sched);
    forall k | 0 <= k < c.cap
      ensures !Run(c, sched).cells[k].Full?
    {
      var p := WindowCoversSlots(c, |Popped(Trace(c, sched))|, k);
    }
  }

  lemma SlotOfTail(c: Config, p: nat)
    requires c.Valid()
    ensures c.Index(p) % c.cap == c.Slot(p)
  {
  }

  // First-in first-out order over any number of wraps

  /** `n` rounds of one push and one pop, pushing 0, 1, 2, … */
  function Rounds(c: Config, n: nat): seq<Choice<nat>>
    requires c.Valid()
  {
    if n == 0 then [] else PopRun(c, PushRun(c, Rounds(c, n - 1), n - 1))
  }

  function UpTo(n: nat): seq<nat> {
    seq(n, i => i)
  }

  ghost predicate Counted(c: Config, sched: seq<Choice<nat>>, pushes: nat, pops: nat)
    requires c.Valid()
  {
    Run(c, sched).Idle() && AllCurrent(c, sched) && |Run(c, sched).heads| == pushes + 1
    && Pushed(Trace(c, sched)) == UpTo(pushes) && Popped(Trace(c, sched)) == UpTo(pops)
  }

  lemma PushNext(c: Config, sched: seq<Choice<nat>>, pushes: nat, pops: nat)
    requires c.Valid() && c.Regular(pushes) && pushes < pops + c.cap
    requires Counted(c, sched, pushes, pops)
    ensures Counted(c, PushRun(c, sched, pushes), pushes + 1, pops)
  {
    hide Run, Trace, AllCurrent, Pushed, Popped, PushRun, Config.Index, Config.Slot, Config.Regular;
    IdleCore(c, sched);
    SoloPush(c, sched, pushes);
    assert UpTo(pushes) + [pushes] == UpTo(pushes + 1);
  }

  lemma PopNext(c: Config, sched: seq<Choice<nat>>, pushes: nat, pops: nat)
    requires c.Valid() && c.Regular(pushes) && pops < pushes
    requires Counted(c, sched, pushes, pops)
    ensures Counted(c, PopRun(c, sched), pushes, pops + 1)
  {
    hide Run, Trace, AllCurrent, Pushed, Popped, PopRun, Config.Index, Config.Slot, Config.Regular;
    IdleCore(c, sched);
    SlotOfTail(c, pops);
    SoloPop(c, sched);
    assert UpTo(pops) + [pops] == UpTo(pops + 1);
  }

  lemma {:induction false} RoundsCount(c: Config, n: nat)
    requires c.Valid() && c.Regular(n)
    ensures Counted(c, Rounds(c, n), n, n)
  {
    hide Run, Trace, AllCurrent, Pushed, Popped, PushRun, PopRun;
    if n == 0 {
      EmptyRun(c);
    } else {
      RoundsCount(c, n - 1);
      PushNext(c, Rounds(c, n - 1), n - 1, n - 1);
      PopNext(c, PushRun(c, Rounds(c, n - 1), n - 1), n, n - 1);
    }
  }

  lemma EmptyRun(c: Config)
    requires c.Valid()
    ensures Counted(c, [], 0, 0)
  {
    EmptyTrace<nat>();
    assert UpTo(0) == [];
  }

  /** `k` further pushes after `n` rounds. */
  function Fill(c: Config, n: nat, k: nat): seq<Choice<nat>>
    requires c.Valid()
  {
    if k == 0 then Rounds(c, n) else PushRun(c, Fill(c, n, k - 1), n + k - 1)
  }

  lemma {:induction false} FillCounts(c: Config, n: nat, k: nat)
    requires c.Valid() && k <= c.cap && c.Regular(n + k)
    ensures Counted(c, Fill(c, n, k), n + k, n)
  {
    hide Run, Trace, AllCurrent, Pushed, Popped, PushRun, Rounds;
    if k == 0 {
      RoundsCount(c, n);
    } else {
      FillCounts(c, n, k - 1);
      PushNext(c, Fill(c, n, k - 1), n + k - 1, n);
    }
  }

  /** The run that loses order: fill across the wrap until two live positions share slot 0, then pop. */
  function OverwritingRun(c: Config): seq<Choice<nat>>
    requires c.Valid()
  {
    var r := c.modulus % c.cap;
    PopRun(c, PushRun(c, Fill(c, c.modulus - r, r), c.modulus))
  }

  /** The push across the wrap succeeds and replaces the oldest live value, which is in slot 0. */
  lemma WrapPush(c: Config, filled: seq<Choice<nat>>, r: nat)
    requires c.Valid() && !c.Divides() && r == c.modulus % c.cap
    requires Counted(c, filled, c.modulus, c.modulus - r)
    ensures var more := PushRun(c, filled, c.modulus);
            var q := CoreOf(c, Run(c, more));
            Run(c, more).Idle() && AllCurrent(c, more)
            && Pushed(Trace(c, more)) == UpTo(c.modulus) + [c.modulus]
            && Popped(Trace(c, more)) == UpTo(c.modulus - r)
            && q.head == c.Index(c.modulus + 1) && q.tail == c.Index(c.modulus - r)
            && q.cells == Run(c, filled).cells[0 := Full(c.modulus)]
  {
    hide Run, Trace, AllCurrent, Pushed, Popped, PushRun, Config.Index, Config.Slot, Config.Divides;
    CollisionAtWrap(c);
    IdleCore(c, filled);
    SoloPush(c, filled, c.modulus);
    SlotOfTail(c, c.modulus);
    IndexSucc(c, c.modulus);
  }

  /** It pops the value pushed at position 2^W where the one pushed at 2^W - r was due. */
  lemma OverwritingRunLosesOrder(c: Config)
    requires c.Valid() && !c.Divides()
    ensures var sched, p := OverwritingRun(c), c.modulus - c.modulus % c.cap;
            AllCurrent(c, sched) && Writes(Run(c, sched)) == c.modulus + 1
            && Pushed(Trace(c, sched)) == UpTo(c.modulus) + [c.modulus]
            && Popped(Trace(c, sched)) == UpTo(p) + [c.modulus]
            && p < c.modulus
  {
    hide Run, Trace, AllCurrent, Pushed, Popped, PushRun, PopRun, Fill, Config.Index, Config.Slot, Config.Divides;
    CollisionAtWrap(c);
    var r := c.modulus % c.cap;
    var p := c.modulus - r;
    var filled := Fill(c, p, r);
    FillCounts(c, p, r);
    WrapPush(c, filled, r);
    SlotOfTail(c, p);
    DistanceForward(c, p, r + 1);
    SoloPop(c, PushRun(c, filled, c.modulus));
    IdleCore(c, OverwritingRun(c));
  }

  /** Every run of at most `n` slot writes pops a prefix of what it pushed. */
  ghost predicate FifoWithin(c: Config, n: nat)
    requires c.Valid()
  {
    forall sched: seq<Choice<nat>> ::
      Writes(Run(c, sched)) <= n ==> Popped(Trace(c, sched)) <= Pushed(Trace(c, sched))
  }

  /** Order is kept over `n` slot writes exactly when the capacity divides 2^W or `n` is at most 2^W. */
  lemma FifoIffRegular(c: Config, n: nat)
    requires c.Valid()
    ensures FifoWithin(c, n) <==> c.Regular(n)
  {
    hide Run, Trace, AllCurrent, Pushed, Popped, OverwritingRun, Writes;
    if c.Regular(n) {
      forall sched: seq<Choice<nat>> | Writes(Run(c, sched)) <= n
        ensures Popped(Trace(c, sched)) <= Pushed(Trace(c, sched))
      {
        RunIsFifo(c, sched);
      }
    } else {
      OverwritingRunLosesOrder(c);
      var trace := Trace(c, OverwritingRun(c));
      var p := c.modulus - c.modulus % c.cap;
      assert Popped(trace)[p] == c.modulus && Pushed(trace)[p] == p;
    }
  }

  /** Every run, of any length and any number of wraps, pops a prefix of what it pushed. */
  ghost predicate AlwaysFifo(c: Config)
    requires c.Valid()
  {
    forall sched: seq<Choice<nat>> :: Popped(Trace(c, sched)) <= Pushed(Trace(c, sched))
  }

  /** Order is kept for ever exactly when the capacity divides the number of index values. */
  lemma FifoIffDivides(c: Config)
    requires c.Valid()
    ensures AlwaysFifo(c) <==> c.Divides()
  {
    hide Run, Trace, AllCurrent, Pushed, Popped, OverwritingRun;
    if c.Divides() {
      forall sched: seq<Choice<nat>>
        ensures Popped(Trace(c, sched)) <= Pushed(Trace(c, sched))
      {
        RunIsFifo(c, sched);
      }
    } else {
      OverwritingRunLosesOrder(c);
      var trace := Trace(c, OverwritingRun(c));
      var p := c.modulus - c.modulus % c.cap;
      assert Popped(trace)[p] == c.modulus && Pushed(trace)[p] == p;
    }
  }
}
