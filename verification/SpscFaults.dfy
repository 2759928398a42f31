/**
 * How the ring buffer fails when its capacity does not divide 2^W.  With the tests still exact, the
 * first write past 2^W lands on a slot whose value is live, and from there each kind of fault is a
 * few steps away even though no load is stale.
 */
module SpscFaults {
  import opened Arithmetic
  import opened WrappedIndex
  import opened BoundedFifo
  import opened SpscMachine
  import opened SpscSync
  import opened SpscTheorems
  import opened SpscCalls
  import opened SpscOrder

  /** An idle queue, neither empty nor full, whose next write goes to the cell of its oldest value. */
  ghost predicate Colliding<T>(c: Config, s: State<T>) {
    Shaped(c, s) && s.Idle() && ViewsGrow(s)
    && s.Head() != s.Tail() && c.WrappingSub(s.Head(), s.Tail()) != c.cap
    && s.Head() % c.cap == s.Tail() % c.cap
    && s.cells[s.Tail() % c.cap].Full?
  }

  function Twice<T>(c: Config, s: State<T>, ch: Choice<T>): (t: State<T>)
    requires Shaped(c, s)
    ensures Shaped(c, t)
  {
    Step(c, Step(c, s, ch), ch)
  }

  function Thrice<T>(c: Config, s: State<T>, ch: Choice<T>): (t: State<T>)
    requires Shaped(c, s)
    ensures Shaped(c, t)
  {
    Step(c, Twice(c, s, ch), ch)
  }

  /** The write replaces a live value, and a read before its publication races with it. */
  lemma WriteFirst<T>(c: Config, s: State<T>, push: Choice<T>, pop: Choice<T>)
    requires Colliding(c, s) && push.Producer? && pop.Consumer? && Current(c, s, push) && Current(c, s, pop)
    ensures var written := Thrice(c, s, push);
            var both := Thrice(c, written, pop);
            LostValue in written.faults && written.prod.PWritten? && written.cons.CIdle?
            && RacyRead in both.faults && both.prod.PWritten?
  {
    hide Config.Index, Config.Slot;
  }

  lemma CheckRoom<T>(c: Config, s: State<T>, push: Choice<T>)
    requires Colliding(c, s) && push.Producer? && Current(c, s, push)
    ensures var t := Twice(c, s, push);
            t == s.(prod := PNotFull(push.item, s.Head()), prodView := t.prodView, seenTail := t.seenTail)
            && t.prodView.c <= s.consView.c
  {
    hide Config.Index, Config.Slot;
  }

  lemma ReadBeforeWrite<T>(c: Config, s: State<T>, push: Choice<T>, pop: Choice<T>)
    requires Colliding(c, s) && push.Producer? && pop.Consumer? && Current(c, s, push) && Current(c, s, pop)
    ensures var checked := Twice(c, s, push);
            var taken := Thrice(c, checked, pop);
            checked.cons.CIdle? && taken.heads == s.heads
            && taken.prod.PNotFull? && taken.prod.head == s.Head()
            && taken.prodView.c < taken.readAt[s.Head() % c.cap]
  {
    hide Config.Index, Config.Slot, ViewsGrow, ProducerStep;
    CheckRoom(c, s, push);
  }

  /** A write after the oldest value was read, but before that read is published, races with the read. */
  lemma ReadFirst<T>(c: Config, s: State<T>, push: Choice<T>, pop: Choice<T>)
    requires Colliding(c, s) && push.Producer? && pop.Consumer? && Current(c, s, push) && Current(c, s, pop)
    ensures var checked := Twice(c, s, push);
            var taken := Thrice(c, checked, pop);
            var both := Step(c, taken, push);
            checked.cons.CIdle? && RacyWrite in both.faults && both.prod.PWritten? && both.heads == s.heads
  {
    hide Config.Index, Config.Slot, Twice, Thrice, Colliding;
    ReadBeforeWrite(c, s, push, pop);
  }

  /** A pop from a queue that is not empty but whose oldest cell is reads no value. */
  lemma ReadNothing<T>(c: Config, s: State<T>, pop: Choice<T>)
    requires Shaped(c, s) && s.Idle() && s.Head() != s.Tail() && !s.cells[s.Tail() % c.cap].Full?
    requires pop.Consumer? && Current(c, s, pop)
    ensures var t := Thrice(c, s, pop);
            BadRead in t.faults && t.heads == s.heads && t.prod.PIdle?
  {
    hide Config.Index, Config.Slot;
  }

  // The runs that fail

  /** The first three steps of a call publish nothing, so a load that was current stays so. */
  lemma StepsBeforePublishing<T>(c: Config, s: State<T>, ch: Choice<T>)
    requires Shaped(c, s) && Current(c, s, ch)
    requires if ch.Producer? then s.prod.PIdle? else ch.Consumer? && s.cons.CIdle?
    ensures var one, two, three := Step(c, s, ch), Twice(c, s, ch), Thrice(c, s, ch);
            one.heads == two.heads == three.heads == s.heads
            && one.tails == two.tails == three.tails == s.tails
            && Current(c, one, ch) && Current(c, two, ch)
  {
    hide Config.Index, Config.Slot;
  }

  lemma RunThrice<T>(c: Config, sched: seq<Choice<T>>, ch: Choice<T>)
    requires c.Valid() && AllCurrent(c, sched) && Current(c, Run(c, sched), ch)
    requires if ch.Producer? then Run(c, sched).prod.PIdle? else ch.Consumer? && Run(c, sched).cons.CIdle?
    ensures var s, two, three := Run(c, sched), sched + [ch] + [ch], sched + [ch] + [ch] + [ch];
            Run(c, two) == Twice(c, s, ch) && Run(c, three) == Thrice(c, s, ch)
            && AllCurrent(c, two) && AllCurrent(c, three)
            && Run(c, two).heads == Run(c, three).heads == s.heads
            && Run(c, two).tails == Run(c, three).tails == s.tails
  {
    hide Run, Trace, AllCurrent, Pushed, Popped, Step, Report, Current;
    StepsBeforePublishing(c, Run(c, sched), ch);
    Extend(c, sched, ch);
    Extend(c, sched + [ch], ch);
    Extend(c, sched + [ch] + [ch], ch);
  }

  /** The queue one push before the first write past 2^W. */
  function AtTheWrap(c: Config): seq<Choice<nat>>
    requires c.Valid()
  {
    Fill(c, c.modulus - c.modulus % c.cap, c.modulus % c.cap)
  }

  lemma WrapCollides(c: Config)
    requires c.Valid() && !c.Divides()
    ensures Counted(c, AtTheWrap(c), c.modulus, c.modulus - c.modulus % c.cap)
    ensures Colliding(c, Run(c, AtTheWrap(c)))
  {
    hide Run, Trace, AllCurrent, Pushed, Popped, Fill, ViewsGrow, Config.Index, Config.Slot, Config.Divides;
    var r := c.modulus % c.cap;
    CollisionAtWrap(c);
    FillCounts(c, c.modulus - r, r);
    IdleCore(c, AtTheWrap(c));
    RunViewsGrow(c, AtTheWrap(c));
    SlotOfTail(c, c.modulus);
    SlotOfTail(c, c.modulus - r);
  }

  /** A run without stale loads, and with a single write past 2^W, that shows the fault. */
  ghost predicate Shows(c: Config, sched: seq<Choice<nat>>, f: Fault)
    requires c.Valid()
  {
    f in Run(c, sched).faults && AllCurrent(c, sched) && Writes(Run(c, sched)) == c.modulus + 1
  }

  lemma WritingFails(c: Config) returns (lost: seq<Choice<nat>>, racy: seq<Choice<nat>>)
    requires c.Valid() && !c.Divides()
    ensures Shows(c, lost, LostValue) && Shows(c, racy, RacyRead)
  {
    hide Run, Trace, AllCurrent, Pushed, Popped, AtTheWrap, Step, Twice, Thrice, Config.Divides;
    WrapCollides(c);
    var sched := AtTheWrap(c);
    var s := Run(c, sched);
    var push, pop := Producer(c.modulus, |s.tails| - 1), Consumer(|s.heads| - 1);
    WriteFirst(c, s, push, pop);
    RunThrice(c, sched, push);
    lost := sched + [push] + [push] + [push];
    RunThrice(c, lost, pop);
    racy := lost + [pop] + [pop] + [pop];
  }

  lemma ReadingFails(c: Config) returns (racy: seq<Choice<nat>>)
    requires c.Valid() && !c.Divides()
    ensures Shows(c, racy, RacyWrite)
  {
    hide Run, Trace, AllCurrent, Pushed, Popped, AtTheWrap, Step, Report, Twice, Thrice, Config.Divides;
    WrapCollides(c);
    var sched := AtTheWrap(c);
    var s := Run(c, sched);
    var push, pop := Producer(c.modulus, |s.tails| - 1), Consumer(|s.heads| - 1);
    ReadFirst(c, s, push, pop);
    RunThrice(c, sched, push);
    var checked := sched + [push] + [push];
    RunThrice(c, checked, pop);
    var taken := checked + [pop] + [pop] + [pop];
    Extend(c, taken, push);
    racy := taken + [push];
  }

  // Reading a cell whose value is gone

  /** After the oldest value was replaced and popped from slot 0 and `j` values were popped in all. */
  ghost predicate Draining(c: Config, sched: seq<Choice<nat>>, j: nat)
    requires c.Valid()
  {
    var s, r := Run(c, sched), c.modulus % c.cap;
    0 < j <= r && s.Idle() && AllCurrent(c, sched)
    && |Pushed(Trace(c, sched))| == c.modulus + 1 && |Popped(Trace(c, sched))| == c.modulus - r + j
    && s.cells[0] == Moved
    && (forall k :: j <= k < r ==> s.cells[k].Full?)
  }

  lemma SlotsBeforeWrap(c: Config, j: nat)
    requires c.Valid() && j < c.modulus % c.cap
    ensures c.Slot(c.modulus - c.modulus % c.cap + j) == j
  {
    var r, p := c.modulus % c.cap, c.modulus - c.modulus % c.cap + j;
    RegularSlot(c, p);
    Remainder(p, c.modulus / c.cap, j, c.cap);
  }

  lemma StartDraining(c: Config)
    requires c.Valid() && !c.Divides()
    ensures Draining(c, OverwritingRun(c), 1)
  {
    hide Run, Trace, AllCurrent, Pushed, Popped, PushRun, PopRun, Fill, Config.Index, Config.Slot, Config.Divides;
    CollisionAtWrap(c);
    var r := c.modulus % c.cap;
    var p := c.modulus - r;
    var filled := Fill(c, p, r);
    FillCounts(c, p, r);
    IdleCore(c, filled);
    forall k | 0 <= k < r
      ensures Run(c, filled).cells[k].Full?
    {
      SlotsBeforeWrap(c, k);
      assert Run(c, filled).cells[c.Slot(p + k)].Full?;
    }
    WrapPush(c, filled, r);
    SlotOfTail(c, p);
    DistanceForward(c, p, r + 1);
    SoloPop(c, PushRun(c, filled, c.modulus));
  }

  lemma KeepDraining(c: Config, sched: seq<Choice<nat>>, j: nat)
    requires c.Valid() && Draining(c, sched, j) && j < c.modulus % c.cap
    ensures Draining(c, PopRun(c, sched), j + 1)
  {
    hide Run, Trace, AllCurrent, Pushed, Popped, PopRun, Config.Index, Config.Slot;
    IdleCore(c, sched);
    SlotsBeforeWrap(c, j);
    SlotOfTail(c, c.modulus - c.modulus % c.cap + j);
    SoloPop(c, sched);
  }

  lemma {:induction false} DrainToWrap(c: Config, j: nat) returns (sched: seq<Choice<nat>>)
    requires c.Valid() && 0 < j <= c.modulus % c.cap
    ensures Draining(c, sched, j)
  {
    hide Draining, PopRun, OverwritingRun;
    if j == 1 {
      StartDraining(c);
      sched := OverwritingRun(c);
    } else {
      var before := DrainToWrap(c, j - 1);
      KeepDraining(c, before, j - 1);
      sched := PopRun(c, before);
    }
  }

  lemma PoppingFails(c: Config) returns (bad: seq<Choice<nat>>)
    requires c.Valid() && !c.Divides()
    ensures Shows(c, bad, BadRead)
  {
    hide Run, Trace, AllCurrent, Pushed, Popped, Step, Twice, Thrice, Config.Index, Config.Slot, Config.Divides;
    CollisionAtWrap(c);
    var sched := DrainToWrap(c, c.modulus % c.cap);
    var s := Run(c, sched);
    IdleCore(c, sched);
    SlotOfTail(c, c.modulus);
    var pop := Consumer(|s.heads| - 1);
    ReadNothing(c, s, pop);
    RunThrice(c, sched, pop);
    bad := sched + [pop] + [pop] + [pop];
  }

  // When every run is safe

  /** No run of at most `n` slot writes shows the fault. */
  ghost predicate NeverWithin(c: Config, n: nat, f: Fault)
    requires c.Valid()
  {
    forall sched: seq<Choice<nat>> :: Writes(Run(c, sched)) <= n ==> f !in Run(c, sched).faults
  }

  lemma ShowFault(c: Config, f: Fault) returns (sched: seq<Choice<nat>>)
    requires c.Valid() && !c.Divides()
    ensures Shows(c, sched, f)
  {
    hide Shows;
    match f {
      case RacyWrite => sched := ReadingFails(c);
      case BadRead => sched := PoppingFails(c);
      case LostValue => var lost, _ := WritingFails(c); sched := lost;
      case RacyRead => var _, racy := WritingFails(c); sched := racy;
    }
  }

  /**
   * For each kind of fault on its own: the runs of at most `n` writes are all free of it exactly
   * when the capacity divides 2^W or `n` is at most 2^W.
   */
  lemma FaultFreeIffRegular(c: Config, n: nat, f: Fault)
    requires c.Valid()
    ensures NeverWithin(c, n, f) <==> c.Regular(n)
  {
    hide Run, Trace, AllCurrent, Pushed, Popped, Writes;
    if c.Regular(n) {
      forall sched: seq<Choice<nat>> | Writes(Run(c, sched)) <= n
        ensures f !in Run(c, sched).faults
      {
        RunIsSafe(c, sched);
      }
    } else {
      var sched := ShowFault(c, f);
    }
  }

  /** Runs of any length are safe, and each kind of fault is ruled out, exactly when the capacity divides 2^W. */
  lemma SafeIffDivides(c: Config, f: Fault)
    requires c.Valid()
    ensures (forall sched: seq<Choice<nat>> :: Run(c, sched).faults == {}) <==> c.Divides()
    ensures (forall sched: seq<Choice<nat>> :: f !in Run(c, sched).faults) <==> c.Divides()
  {
    hide Run, Trace, AllCurrent, Pushed, Popped, Writes;
    if c.Divides() {
      forall sched: seq<Choice<nat>>
        ensures Run(c, sched).faults == {}
      {
        RunIsSafe(c, sched);
      }
    } else {
      var sched := ShowFault(c, f);
      assert f in Run(c, sched).faults;
    }
  }
}
