/** How runs of the two-thread ring buffer grow by one step. */
module SpscRuns {
  import opened WrappedIndex
  import opened BoundedFifo
  import opened SpscMachine

  function AfterPush<T>(pushed: seq<T>, e: Event<T>): seq<T> {
    if e.PushOk? then pushed + [e.item] else pushed
  }

  function AfterPop<T>(popped: seq<T>, e: Event<T>): seq<T> {
    if e.PopOk? then popped + [e.taken] else popped
  }

  /** How a run and its trace grow by one step. */
  lemma LastStep<T>(c: Config, sched: seq<Choice<T>>)
    requires c.Valid() && sched != []
    ensures var before, ch := sched[..|sched| - 1], sched[|sched| - 1];
            var s, trace := Run(c, before), Trace(c, before);
            var e := Report(c, s, ch);
            Run(c, sched) == Step(c, s, ch)
            && Trace(c, sched) == trace + [e]
            && Trace(c, sched)[..|sched| - 1] == trace
            && Pushed(Trace(c, sched)) == AfterPush(Pushed(trace), e)
            && Popped(Trace(c, sched)) == AfterPop(Popped(trace), e)
  {
    hide Report, Step;
    var before, ch := sched[..|sched| - 1], sched[|sched| - 1];
    assert Trace(c, sched)[..|sched| - 1] == Trace(c, before);
  }

  lemma WritesGrow<T>(c: Config, s: State<T>, ch: Choice<T>)
    requires Shaped(c, s)
    ensures Writes(s) <= Writes(Step(c, s, ch))
  {
  }

  lemma RegularBelow(c: Config, m: nat, n: nat)
    requires c.Valid() && m <= n && c.Regular(n)
    ensures c.Regular(m)
  {
  }
}
