/**
 * `is_empty` and `is_full` make two loads, head first and then tail, between which the queue may
 * move.  An observation is a run up to the head load (`at`) and a run up to the tail load (`later`).
 */
module SpscObservers {
  import opened Arithmetic
  import opened WrappedIndex
  import opened BoundedFifo
  import opened SpscMachine
  import opened SpscRuns
  import opened SpscIndices
  import opened SpscCalls
  import opened SpscOrder

  function IsEmptyAnswer<T>(c: Config, at: seq<Choice<T>>, later: seq<Choice<T>>): bool
    requires c.Valid()
  {
    Run(c, at).Head() == Run(c, later).Tail()
  }

  function IsFullAnswer<T>(c: Config, at: seq<Choice<T>>, later: seq<Choice<T>>): bool
    requires c.Valid()
  {
    c.WrappingSub(Run(c, at).Head(), Run(c, later).Tail()) == c.cap
  }

  /** The number of values in the queue after a run. */
  function Held<T>(c: Config, sched: seq<Choice<T>>): int
    requires c.Valid()
  {
    |Pushed(Trace(c, sched))| - |Popped(Trace(c, sched))|
  }

  /** Published indices are never withdrawn, and neither are completed pushes and pops. */
  lemma {:induction false} RunsGrow<T>(c: Config, at: seq<Choice<T>>, later: seq<Choice<T>>)
    requires c.Valid() && at <= later
    ensures Writes(Run(c, at)) <= Writes(Run(c, later))
    ensures Pushed(Trace(c, at)) <= Pushed(Trace(c, later))
    ensures Popped(Trace(c, at)) <= Popped(Trace(c, later))
    decreases |later|
  {
    hide Step, Report, Trace, Pushed, Popped, Writes;
    if |at| == |later| {
      assert at == later;
    } else {
      var before := later[..|later| - 1];
      RunsGrow(c, at, before);
      LastStep(c, later);
      WritesGrow(c, Run(c, before), later[|later| - 1]);
    }
  }

  lemma Published<T>(c: Config, sched: seq<Choice<T>>)
    requires c.Valid()
    ensures var pushes, pops := |Pushed(Trace(c, sched))|, |Popped(Trace(c, sched))|;
            Run(c, sched).Head() == c.Index(pushes) && Run(c, sched).Tail() == c.Index(pops)
            && pops <= pushes <= pops + c.cap
  {
    hide Run, Trace, Pushed, Popped, Config.Index, Config.Slot;
    HeadNeverOverruns(c, sched);
  }

  /** The pops completed between the two loads. */
  function PopsBetween<T>(c: Config, at: seq<Choice<T>>, later: seq<Choice<T>>): int
    requires c.Valid()
  {
    |Popped(Trace(c, later))| - |Popped(Trace(c, at))|
  }

  /**
   * Both answers are functions of the number held at the head load and of the pops in between,
   * modulo 2^W; pushes in between do not matter.
   */
  lemma AnswersModulo<T>(c: Config, at: seq<Choice<T>>, later: seq<Choice<T>>)
    requires c.Valid() && at <= later
    ensures IsEmptyAnswer(c, at, later) <==> (Held(c, at) - PopsBetween(c, at, later)) % c.modulus == 0
    ensures IsFullAnswer(c, at, later) <==> (Held(c, at) - PopsBetween(c, at, later)) % c.modulus == c.cap
    ensures 0 <= Held(c, at) <= c.cap && PopsBetween(c, at, later) >= 0
  {
    hide Run, Trace, Pushed, Popped, Config.Index, Config.Slot;
    RunsGrow(c, at, later);
    Published(c, at);
    Published(c, later);
    DistanceModulo(c, |Pushed(Trace(c, at))|, |Popped(Trace(c, later))|);
  }

  /**
   * Without a whole turn of the index in between, `is_empty` is true exactly when just the values
   * held at the head load were popped.  As of the head load it is right exactly when no pop was
   * made in between, or some but not as many as there were values.
   */
  lemma IsEmptyExactly<T>(c: Config, at: seq<Choice<T>>, later: seq<Choice<T>>)
    requires c.Valid() && at <= later
    requires PopsBetween(c, at, later) < c.modulus
    ensures IsEmptyAnswer(c, at, later) <==> Held(c, at) == PopsBetween(c, at, later)
    ensures (IsEmptyAnswer(c, at, later) <==> Held(c, at) == 0)
            <==> PopsBetween(c, at, later) == 0 || Held(c, at) !in {0, PopsBetween(c, at, later)}
  {
    hide Run, Trace, Pushed, Popped, Held, PopsBetween;
    AnswersModulo(c, at, later);
    SmallRemainder(Held(c, at) - PopsBetween(c, at, later), c.modulus);
  }

  /** A pop between two points of a run leaves a moment before it at which a value is held. */
  lemma {:induction false} HeldBeforePop<T>(c: Config, at: seq<Choice<T>>, later: seq<Choice<T>>) returns (during: seq<Choice<T>>)
    requires c.Valid() && at <= later
    requires PopsBetween(c, at, later) > 0
    ensures at <= during <= later && Held(c, during) > 0
    ensures c.cap == 1 && Held(c, at) == 1 ==> exists after :: at <= after <= later && Held(c, after) == 0
    decreases |later|
  {
    hide Run, Trace, Pushed, Popped, Step, Report;
    assert at != later;
    var before := later[..|later| - 1];
    assert at <= before <= later;
    RunsGrow(c, before, later);
    if PopsBetween(c, at, before) > 0 {
      during := HeldBeforePop(c, at, before);
      if c.cap == 1 && Held(c, at) == 1 {
        var after :| at <= after <= before && Held(c, after) == 0;
        assert after <= later;
      }
    } else {
      LastStep(c, later);
      RunsGrow(c, at, before);
      Published(c, before);
      Published(c, later);
      during := before;
      assert Held(c, later) == Held(c, before) - 1;
      assert c.cap == 1 ==> at <= later <= later && Held(c, later) == 0;
    }
  }

  /** A false `is_empty` is always right about some moment between the loads, for any observer. */
  lemma FalseIsEmptyIsRight<T>(c: Config, at: seq<Choice<T>>, later: seq<Choice<T>>)
    requires c.Valid() && at <= later
    requires !IsEmptyAnswer(c, at, later)
    ensures exists during :: at <= during <= later && Held(c, during) > 0
  {
    hide Run, Trace, Pushed, Popped;
    AnswersModulo(c, at, later);
    if Held(c, at) > 0 {
      assert at <= at <= later;
    } else {
      var during := HeldBeforePop(c, at, later);
    }
  }

  /** A true `is_empty` is right about some moment between the loads. */
  ghost predicate EmptySometime<T(!new)>(c: Config, at: seq<Choice<T>>, later: seq<Choice<T>>)
    requires c.Valid()
  {
    exists during :: at <= during <= later && Held(c, during) == 0
  }

  /** Every true `is_empty` of a third observer is right about some moment. */
  ghost predicate TrueIsEmptyIsRight(c: Config)
    requires c.Valid()
  {
    forall at: seq<Choice<nat>>, later: seq<Choice<nat>> ::
      at <= later && IsEmptyAnswer(c, at, later) ==> EmptySometime(c, at, later)
  }

  lemma SingleCellIsEmptyIsRight<T(!new)>(c: Config, at: seq<Choice<T>>, later: seq<Choice<T>>)
    requires c.Valid() && c.cap == 1 && at <= later && IsEmptyAnswer(c, at, later)
    ensures EmptySometime(c, at, later)
  {
    hide Run, Trace, Pushed, Popped;
    AnswersModulo(c, at, later);
    if Held(c, at) == 0 {
      assert at <= at <= later;
    } else {
      SmallRemainder(1, c.modulus);
      var during := HeldBeforePop(c, at, later);
    }
  }

  /** From `at` to `later` the queue was full and nothing was popped. */
  ghost predicate FullThroughout<T(!new)>(c: Config, at: seq<Choice<T>>, later: seq<Choice<T>>)
    requires c.Valid()
  {
    forall during :: at <= during <= later ==>
      Held(c, during) == c.cap && Pushed(Trace(c, during)) == Pushed(Trace(c, at))
      && Popped(Trace(c, during)) == Popped(Trace(c, at))
  }

  /**
   * A true `is_full` with fewer than 2^W - CAP pops in between means that the queue was full from
   * the head load to the tail load, without a push or a pop in between, for any observer.
   */
  lemma IsFullIsSound<T>(c: Config, at: seq<Choice<T>>, during: seq<Choice<T>>, later: seq<Choice<T>>)
    requires c.Valid() && at <= during <= later
    requires IsFullAnswer(c, at, later)
    requires PopsBetween(c, at, later) < c.modulus - c.cap
    ensures Held(c, during) == c.cap
    ensures Pushed(Trace(c, during)) == Pushed(Trace(c, at)) && Popped(Trace(c, during)) == Popped(Trace(c, at))
  {
    hide Run, Trace, Pushed, Popped, Config.Index, Config.Slot;
    AnswersModulo(c, at, later);
    SmallRemainder(Held(c, at) - PopsBetween(c, at, later), c.modulus);
    RunsGrow(c, at, during);
    RunsGrow(c, during, later);
    Published(c, during);
  }

  /** The exact condition under which a true `is_full` is right: fewer than 2^W - CAP pops in between. */
  lemma IsFullExactly<T(!new)>(c: Config, at: seq<Choice<T>>, later: seq<Choice<T>>)
    requires c.Valid() && at <= later
    requires IsFullAnswer(c, at, later)
    ensures FullThroughout(c, at, later) <==> PopsBetween(c, at, later) < c.modulus - c.cap
  {
    hide Run, Trace, Pushed, Popped, IsFullAnswer;
    if PopsBetween(c, at, later) < c.modulus - c.cap {
      forall during | at <= during <= later
        ensures Held(c, during) == c.cap && Pushed(Trace(c, during)) == Pushed(Trace(c, at))
                && Popped(Trace(c, during)) == Popped(Trace(c, at))
      {
        IsFullIsSound(c, at, during, later);
      }
    } else {
      assert at <= later <= later;
      assert PopsBetween(c, at, later) > 0;
    }
  }

  /** The bound is tight: after exactly 2^W - CAP pops in between, an empty queue is called full. */
  lemma IsFullAfterManyPops(c: Config)
    requires c.Valid()
    ensures var later := Rounds(c, c.modulus - c.cap);
            IsFullAnswer(c, [], later) && AllCurrent(c, later)
            && |Popped(Trace(c, later))| - |Popped(Trace<nat>(c, []))| == c.modulus - c.cap
            && Held<nat>(c, []) == 0 && Held(c, later) == 0
  {
    hide Run, Trace, AllCurrent, Pushed, Popped, Rounds, Config.Index, Config.Slot;
    var n := c.modulus - c.cap;
    EmptyRun(c);
    RoundsCount(c, n);
    Published<nat>(c, []);
    Published(c, Rounds(c, n));
    DistanceForward(c, 0, n);
  }

  lemma OnlyConsumerMovesTail<T>(c: Config, s: State<T>, ch: Choice<T>)
    requires Shaped(c, s) && !ch.Consumer?
    ensures Step(c, s, ch).Tail() == s.Tail()
  {
  }

  lemma {:induction false} TailStays<T>(c: Config, at: seq<Choice<T>>, later: seq<Choice<T>>)
    requires c.Valid() && at <= later
    requires forall i :: |at| <= i < |later| ==> !later[i].Consumer?
    ensures Run(c, later).Tail() == Run(c, at).Tail()
    decreases |later|
  {
    hide Step;
    if |at| == |later| {
      assert at == later;
    } else {
      var before := later[..|later| - 1];
      TailStays(c, at, before);
      OnlyConsumerMovesTail(c, Run(c, before), later[|later| - 1]);
    }
  }

  /** The consumer's own `is_empty` answers exactly as of its head load, whatever the producer does. */
  lemma ConsumerIsEmptyIsExact<T>(c: Config, at: seq<Choice<T>>, later: seq<Choice<T>>)
    requires c.Valid() && at <= later
    requires forall i :: |at| <= i < |later| ==> !later[i].Consumer?
    ensures IsEmptyAnswer(c, at, later) <==> Held(c, at) == 0
  {
    hide Run, Trace, Pushed, Popped, Config.Index, Config.Slot;
    TailStays(c, at, later);
    Published(c, at);
    DistanceForward(c, |Popped(Trace(c, at))|, Held(c, at));
  }

  /** For a third observer, `is_empty` can be true of a queue that is never empty. */
  lemma ThirdObserverIsEmptyFails(c: Config)
    requires c.Valid() && c.cap >= 2
    ensures var at := PushRun<nat>(c, [], 0);
            var later := PopRun(c, PushRun(c, at, 1));
            AllCurrent(c, later) && at <= later && IsEmptyAnswer(c, at, later)
            && forall during :: at <= during <= later ==> Held(c, during) > 0
  {
    hide Run, Trace, Pushed, Popped, AllCurrent, Config.Slot;
    EmptyRun(c);
    PushNext(c, [], 0, 0);
    var at := PushRun<nat>(c, [], 0);
    PushNext(c, at, 1, 0);
    var full := PushRun(c, at, 1);
    PopNext(c, full, 2, 0);
    var later := PopRun(c, full);
    Published(c, at);
    Published(c, later);
    assert at <= full <= later;
    forall during | at <= during <= later
      ensures Held(c, during) > 0
    {
      RunsGrow(c, at, during);
      RunsGrow(c, during, later);
      if |full| <= |during| {
        RunsGrow(c, full, during);
      } else {
        RunsGrow(c, during, full);
      }
    }
  }

  /** This holds exactly for queues of one cell. */
  lemma TrueIsEmptyIsRightIffSingleCell(c: Config)
    requires c.Valid()
    ensures TrueIsEmptyIsRight(c) <==> c.cap == 1
  {
    hide Run, Trace, Pushed, Popped, IsEmptyAnswer, Held;
    if c.cap == 1 {
      forall at: seq<Choice<nat>>, later: seq<Choice<nat>> | at <= later && IsEmptyAnswer(c, at, later)
        ensures EmptySometime(c, at, later)
      {
        SingleCellIsEmptyIsRight(c, at, later);
      }
    } else {
      ThirdObserverIsEmptyFails(c);
      var at := PushRun<nat>(c, [], 0);
      var later := PopRun(c, PushRun(c, at, 1));
      assert !EmptySometime(c, at, later);
    }
  }
}
