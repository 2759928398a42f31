/** What holds of every run of the two-thread ring buffer. */
module SpscTheorems {
  import opened Wrappers
  import opened WrappedIndex
  import opened BoundedFifo
  import opened SpscMachine
  import opened SpscRuns
  import opened SpscIndices
  import opened SpscInvariant

  lemma StepKeepsInv<T>(c: Config, s: State<T>, ch: Choice<T>, pushed: seq<T>, popped: seq<T>)
    requires Inv(c, s, pushed, popped)
    requires c.Regular(Writes(Step(c, s, ch)))
    ensures var e := Report(c, s, ch);
            Inv(c, Step(c, s, ch), AfterPush(pushed, e), AfterPop(popped, e))
  {
    hide Inv, Config.Index, Config.Slot, Config.Regular;
    WritesArePositions(c, s, pushed, popped);
    match ch {
      case Producer(item, pick) =>
        match s.prod {
          case PIdle => ProducerLoadsHead(c, s, pushed, popped, item, pick);
          case PLoaded(_, _) => ProducerLoadsTail(c, s, pushed, popped, item, pick);
          case PNotFull(_, _) => ProducerWrites(c, s, pushed, popped, item, pick);
          case PWritten(_, _) => ProducerPublishes(c, s, pushed, popped, item, pick);
        }
      case Consumer(pick) =>
        match s.cons {
          case CIdle => ConsumerLoadsTail(c, s, pushed, popped, pick);
          case CLoaded(_) => ConsumerLoadsHead(c, s, pushed, popped, pick);
          case CNotEmpty(_) => ConsumerReads(c, s, pushed, popped, pick);
          case CTaken(_, _) => ConsumerPublishes(c, s, pushed, popped, pick);
        }
      case _ => WorkKeepsInv(c, s, ch, pushed, popped);
    }
  }

  lemma WritesArePositions<T>(c: Config, s: State<T>, pushed: seq<T>, popped: seq<T>)
    requires Inv(c, s, pushed, popped)
    ensures Writes(s) == WritePos(s, pushed)
  {
  }

  /** Every report is one the abstract queue allows; it is the exact one when the load is current. */
  lemma StepIsAllowed<T>(c: Config, s: State<T>, ch: Choice<T>, pushed: seq<T>, popped: seq<T>, strict: bool)
    requires Inv(c, s, pushed, popped)
    requires strict ==> Current(c, s, ch)
    ensures var e := Report(c, s, ch);
            var (pushed', popped') := (AfterPush(pushed, e), AfterPop(popped, e));
            popped' <= pushed'
            && Perform(strict, c.cap, pushed[|popped|..], |pushed|, e) == Some(pushed'[|popped'|..])
  {
    hide Config.Index, Config.Slot, Config.Regular, CellsOk, ReadsPublished, WritesPublished;
    if ch.Producer? && s.prod.PLoaded? {
      ProducerLoadsTail(c, s, pushed, popped, ch.item, ch.pick);
    } else if ch.Producer? && s.prod.PWritten? {
      assert (pushed + [s.prod.item])[|popped|..] == pushed[|popped|..] + [s.prod.item];
    } else if ch.Consumer? && s.cons.CTaken? {
      assert pushed[|popped|..][1..] == pushed[|popped| + 1..];
    } else if ch.Consumer? && s.cons.CLoaded? {
      ConsumerLoadsHead(c, s, pushed, popped, ch.pick);
    }
  }

  /** The invariant holds after every schedule, as long as slot numbers are regular. */
  lemma {:induction false} RunInv<T>(c: Config, sched: seq<Choice<T>>)
    requires c.Valid() && c.Regular(Writes(Run(c, sched)))
    ensures Inv(c, Run(c, sched), Pushed(Trace(c, sched)), Popped(Trace(c, sched)))
  {
    hide Inv, Report, Step, Pushed, Popped;
    if sched == [] {
      InitInv<T>(c);
      EmptyTrace<T>();
    } else {
      var before, ch := sched[..|sched| - 1], sched[|sched| - 1];
      WritesGrow(c, Run(c, before), ch);
      RunInv(c, before);
      StepKeepsInv(c, Run(c, before), ch, Pushed(Trace(c, before)), Popped(Trace(c, before)));
      LastStep(c, sched);
    }
  }

  /**
   * Safety under every choice of stale loads.  The head never runs more than `cap` ahead of the tail
   * the producer has seen, so that comparing the difference with `cap` for equality is enough, in
   * every run.  As long as slot numbers are regular, no access to a cell is racy, no cell without a
   * value is read and no value is overwritten.
   */
  lemma RunIsSafe<T>(c: Config, sched: seq<Choice<T>>)
    requires c.Valid()
    ensures var s := Run(c, sched);
            |s.heads| - 1 <= s.seenTail + c.cap
            && s.seenTail <= |s.tails| - 1 <= s.seenHead <= |s.heads| - 1
            && (c.Regular(Writes(s)) ==> s.faults == {})
  {
    hide Run, Trace, Pushed, Popped, Config.Regular, Writes;
    HeadNeverOverruns(c, sched);
    if c.Regular(Writes(Run(c, sched))) {
      RunInv(c, sched);
    }
  }

  /**
   * Every run is a run of the bounded queue, which holds the values pushed and not yet popped.
   * With stale loads it may miss items or places; with current loads it is the exact queue, each
   * call taking effect at the one step that reports it.
   */
  lemma {:induction false} RunRefinesFifo<T>(c: Config, sched: seq<Choice<T>>, strict: bool)
    requires c.Valid() && c.Regular(Writes(Run(c, sched)))
    requires strict ==> AllCurrent(c, sched)
    ensures Popped(Trace(c, sched)) <= Pushed(Trace(c, sched))
    ensures Replay(strict, c.cap, Trace(c, sched))
            == Some(Pushed(Trace(c, sched))[|Popped(Trace(c, sched))|..])
  {
    hide Inv, Report, Step, Current, Config.Regular, Perform, Pushed, Popped;
    if sched == [] {
      EmptyTrace<T>();
    } else {
      var before, ch := sched[..|sched| - 1], sched[|sched| - 1];
      WritesGrow(c, Run(c, before), ch);
      RegularBelow(c, Writes(Run(c, before)), Writes(Run(c, sched)));
      RunRefinesFifo(c, before, strict);
      RunInv(c, before);
      StepIsAllowed(c, Run(c, before), ch, Pushed(Trace(c, before)), Popped(Trace(c, before)), strict);
      LastStep(c, sched);
    }
  }

  /**
   * Pushes and pops are at most `cap` apart in every run, and as long as slot numbers are regular
   * the values popped are a prefix of the values pushed.
   */
  lemma RunIsFifo<T>(c: Config, sched: seq<Choice<T>>)
    requires c.Valid()
    ensures |Popped(Trace(c, sched))| <= |Pushed(Trace(c, sched))| <= |Popped(Trace(c, sched))| + c.cap
    ensures c.Regular(Writes(Run(c, sched))) ==> Popped(Trace(c, sched)) <= Pushed(Trace(c, sched))
  {
    hide Run, Trace, Pushed, Popped, Config.Regular, Writes;
    HeadNeverOverruns(c, sched);
    if c.Regular(Writes(Run(c, sched))) {
      RunRefinesFifo(c, sched, false);
    }
  }
}
