/**
 * What the queue transfers beside its values, in every run of every capacity: everything the
 * producer did before its n-th push, inside the queue or outside it, happens before what the
 * consumer does after its n-th pop, and everything the consumer did before its n-th pop happens
 * before what the producer does in the place that pop freed.
 */
module SpscSync {
  import opened WrappedIndex
  import opened BoundedFifo
  import opened SpscMachine
  import opened SpscRuns
  import opened SpscIndices

  predicate Below(v: View, w: View) {
    v.p <= w.p && v.c <= w.c
  }

  /**
   * Views published by one thread grow with its stores, a thread's view covers what it has
   * seen, and neither thread is ahead of the other's own clock.
   */
  ghost predicate ViewsGrow<T>(s: State<T>)
    requires s.seenTail < |s.tails| && s.seenHead < |s.heads|
  {
    (forall m, n :: 0 <= m <= n < |s.heads| ==> Below(s.heads[m].view, s.heads[n].view))
    && (forall m, n :: 0 <= m <= n < |s.tails| ==> Below(s.tails[m].view, s.tails[n].view))
    && Below(s.heads[|s.heads| - 1].view, s.prodView)
    && Below(s.tails[|s.tails| - 1].view, s.consView)
    && Below(s.heads[s.seenHead].view, s.consView)
    && Below(s.tails[s.seenTail].view, s.prodView)
    && s.consView.p <= s.prodView.p && s.prodView.c <= s.consView.c
  }

  lemma ProducerKeepsViewsGrow<T>(c: Config, s: State<T>, item: T, pick: nat)
    requires Shaped(c, s) && ViewsGrow(s)
    ensures ViewsGrow(ProducerStep(c, s, item, pick))
  {
  }

  lemma ConsumerKeepsViewsGrow<T>(c: Config, s: State<T>, pick: nat)
    requires Shaped(c, s) && ViewsGrow(s)
    ensures ViewsGrow(ConsumerStep(c, s, pick))
  {
  }

  lemma WorkKeepsViewsGrow<T>(c: Config, s: State<T>, ch: Choice<T>)
    requires Shaped(c, s) && ViewsGrow(s) && (ch.ProducerWork? || ch.ConsumerWork?)
    ensures ViewsGrow(Step(c, s, ch))
  {
  }

  lemma StepKeepsViewsGrow<T>(c: Config, s: State<T>, ch: Choice<T>)
    requires Shaped(c, s) && ViewsGrow(s)
    ensures ViewsGrow(Step(c, s, ch))
  {
    hide ViewsGrow, ProducerStep, ConsumerStep;
    match ch {
      case Producer(item, pick) => ProducerKeepsViewsGrow(c, s, item, pick);
      case Consumer(pick) => ConsumerKeepsViewsGrow(c, s, pick);
      case _ => WorkKeepsViewsGrow(c, s, ch);
    }
  }

  lemma {:induction false} RunViewsGrow<T>(c: Config, sched: seq<Choice<T>>)
    requires c.Valid()
    ensures ViewsGrow(Run(c, sched))
  {
    hide Step, ViewsGrow;
    if sched == [] {
      InitViewsGrow<T>(c);
    } else {
      RunViewsGrow(c, sched[..|sched| - 1]);
      StepKeepsViewsGrow(c, Run(c, sched[..|sched| - 1]), sched[|sched| - 1]);
    }
  }

  lemma InitViewsGrow<T>(c: Config)
    requires c.Valid()
    ensures ViewsGrow(Init<T>(c))
  {
  }

  /** The pops completed after a run, and one whose check has found a value. */
  function PopsBegun<T>(c: Config, sched: seq<Choice<T>>): nat
    requires c.Valid()
  {
    |Popped(Trace(c, sched))| + if Run(c, sched).cons.CNotEmpty? || Run(c, sched).cons.CTaken? then 1 else 0
  }

  /** The pushes completed after a run, and one whose check has found a place. */
  function PushesBegun<T>(c: Config, sched: seq<Choice<T>>): nat
    requires c.Valid()
  {
    |Pushed(Trace(c, sched))| + if Run(c, sched).prod.PNotFull? || Run(c, sched).prod.PWritten? then 1 else 0
  }

  /**
   * In every run, under any stale loads: the view the producer released with each of the pushes
   * popped so far is within the consumer's view, and the view the consumer released with each pop
   * whose place the producer may use again is within the producer's.
   */
  lemma Synchronises<T>(c: Config, sched: seq<Choice<T>>, n: nat)
    requires c.Valid()
    ensures var s := Run(c, sched);
            |s.heads| == |Pushed(Trace(c, sched))| + 1 && |s.tails| == |Popped(Trace(c, sched))| + 1
            && (n <= PopsBegun(c, sched) ==> n < |s.heads| && Below(s.heads[n].view, s.consView))
            && (n + c.cap <= PushesBegun(c, sched) ==> n < |s.tails| && Below(s.tails[n].view, s.prodView))
  {
    hide Run, Trace, Pushed, Popped, Config.Index, Config.Slot;
    RunIndices(c, sched);
    RunViewsGrow(c, sched);
  }

  lemma StepsExtend<T>(c: Config, s: State<T>, ch: Choice<T>)
    requires Shaped(c, s)
    ensures var t := Step(c, s, ch);
            Below(s.prodView, t.prodView) && Below(s.consView, t.consView)
            && (t.heads == s.heads || exists m: Msg :: t.heads == s.heads + [m] && m.view == s.prodView)
            && (t.tails == s.tails || exists m: Msg :: t.tails == s.tails + [m] && m.view == s.consView)
  {
  }

  /** What a thread releases after a point of a run covers all it had done and seen by then. */
  lemma {:induction false} LaterReleases<T>(c: Config, at: seq<Choice<T>>, later: seq<Choice<T>>)
    requires c.Valid() && at <= later
    ensures var s, t := Run(c, at), Run(c, later);
            Below(s.prodView, t.prodView) && Below(s.consView, t.consView)
            && |s.heads| <= |t.heads| && |s.tails| <= |t.tails|
            && (forall n :: |s.heads| <= n < |t.heads| ==> Below(s.prodView, t.heads[n].view))
            && (forall n :: |s.tails| <= n < |t.tails| ==> Below(s.consView, t.tails[n].view))
    decreases |later|
  {
    hide Step;
    if |at| == |later| {
      assert at == later;
    } else {
      var before := later[..|later| - 1];
      LaterReleases(c, at, before);
      StepsExtend(c, Run(c, before), later[|later| - 1]);
    }
  }

  /**
   * Messages carry their sender's memory.  Whatever the producer had done and seen at some point is
   * known to the consumer once it takes a value whose push was then not complete; whatever the
   * consumer had done and seen is known to the producer once it fills a place freed by a pop that
   * was then not complete.
   */
  lemma Transfers<T>(c: Config, at: seq<Choice<T>>, later: seq<Choice<T>>)
    requires c.Valid() && at <= later
    ensures |Pushed(Trace(c, at))| < PopsBegun(c, later) ==> Below(Run(c, at).prodView, Run(c, later).consView)
    ensures |Popped(Trace(c, at))| + c.cap < PushesBegun(c, later) ==>
              Below(Run(c, at).consView, Run(c, later).prodView)
  {
    hide Run, Trace, Pushed, Popped, PopsBegun, PushesBegun;
    Synchronises(c, at, 0);
    LaterReleases(c, at, later);
    var n := PopsBegun(c, later);
    Synchronises(c, later, n);
    if c.cap <= PushesBegun(c, later) {
      Synchronises(c, later, PushesBegun(c, later) - c.cap);
    }
  }

  /**
   * In numbers: work the producer did outside the queue before a push is within the consumer's view
   * after the pop of that push's value, and work of the consumer before a pop is within the
   * producer's view after the push that reuses its place.
   */
  lemma OutsideWorkIsTransferred<T>(c: Config, at: seq<Choice<T>>, later: seq<Choice<T>>)
    requires c.Valid()
    ensures Run(c, at).prod.PIdle? && at + [ProducerWork] <= later
            && |Pushed(Trace(c, at))| < |Popped(Trace(c, later))| ==>
              Run(c, at).prodView.p < Run(c, later).consView.p
    ensures Run(c, at).cons.CIdle? && at + [ConsumerWork] <= later
            && |Popped(Trace(c, at))| + c.cap < |Pushed(Trace(c, later))| ==>
              Run(c, at).consView.c < Run(c, later).prodView.c
  {
    hide Run, Trace, Pushed, Popped;
    if at + [ProducerWork] <= later {
      LastStep(c, at + [ProducerWork]);
      assert (at + [ProducerWork])[..|at|] == at;
      Transfers(c, at + [ProducerWork], later);
    }
    if at + [ConsumerWork] <= later {
      LastStep(c, at + [ConsumerWork]);
      assert (at + [ConsumerWork])[..|at|] == at;
      Transfers(c, at + [ConsumerWork], later);
    }
  }
}
