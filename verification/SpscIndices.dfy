/**
 * What holds of the stored indices and program counters in every run, for every capacity and for
 * any number of pushes: only how many calls have completed matters, not what the cells hold.
 */
module SpscIndices {
  import opened WrappedIndex
  import opened BoundedFifo
  import opened SpscMachine
  import opened SpscRuns
  import opened Wrappers

  /** The published indices are the wrapped positions, and what each side has seen brackets the queue. */
  ghost predicate IndicesOk<T>(c: Config, s: State<T>, pushes: nat, pops: nat)
    requires c.Valid()
  {
    |s.heads| == pushes + 1 && |s.tails| == pops + 1
    && (forall n :: 0 <= n <= pushes ==> s.heads[n].index == c.Index(n))
    && (forall n :: 0 <= n <= pops ==> s.tails[n].index == c.Index(n))
    && s.seenTail <= pops <= s.seenHead <= pushes <= s.seenTail + c.cap
  }

  /** Program counters hold the right index, and a checked operation has the room it saw. */
  ghost predicate CountersOk<T>(c: Config, s: State<T>, pushes: nat, pops: nat)
    requires c.Valid()
  {
    (!s.prod.PIdle? ==> s.prod.head == c.Index(pushes))
    && (!s.cons.CIdle? ==> s.cons.tail == c.Index(pops))
    && (s.prod.PNotFull? || s.prod.PWritten? ==> pushes < s.seenTail + c.cap)
    && (s.cons.CNotEmpty? || s.cons.CTaken? ==> pops < s.seenHead)
  }

  ghost predicate IndexInv<T>(c: Config, s: State<T>, pushes: nat, pops: nat) {
    Shaped(c, s) && IndicesOk(c, s, pushes, pops) && CountersOk(c, s, pushes, pops)
  }

  lemma InitIndexInv<T>(c: Config)
    requires c.Valid()
    ensures IndexInv(c, Init<T>(c), 0, 0)
  {
  }

  function Pushes<T>(e: Event<T>): nat {
    if e.PushOk? then 1 else 0
  }

  function Pops<T>(e: Event<T>): nat {
    if e.PopOk? then 1 else 0
  }

  lemma ProducerKeepsIndices<T>(c: Config, s: State<T>, item: T, pick: nat, pushes: nat, pops: nat)
    requires IndexInv(c, s, pushes, pops)
    ensures var t, e := ProducerStep(c, s, item, pick), Report(c, s, Producer(item, pick));
            IndexInv(c, t, pushes + Pushes(e), pops)
            && (e.PushFull? ==> pushes == t.seenTail + c.cap)
            && (e.PushOk? ==> pushes < pops + c.cap)
  {
    hide Config.Index, Config.Slot;
    var t := ProducerStep(c, s, item, pick);
    DistanceForward(c, t.seenTail, pushes - t.seenTail);
    IndexSucc(c, pushes);
  }

  lemma ConsumerKeepsIndices<T>(c: Config, s: State<T>, pick: nat, pushes: nat, pops: nat)
    requires IndexInv(c, s, pushes, pops)
    ensures var t, e := ConsumerStep(c, s, pick), Report(c, s, Consumer(pick));
            IndexInv(c, t, pushes, pops + Pops(e))
            && (e.PopEmpty? ==> pops == t.seenHead)
            && (e.PopOk? ==> pops < pushes)
  {
    hide Config.Index, Config.Slot;
    var t := ConsumerStep(c, s, pick);
    DistanceForward(c, pops, t.seenHead - pops);
    IndexSucc(c, pops);
  }

  lemma StepKeepsIndices<T>(c: Config, s: State<T>, ch: Choice<T>, pushes: nat, pops: nat)
    requires IndexInv(c, s, pushes, pops)
    ensures var e := Report(c, s, ch);
            IndexInv(c, Step(c, s, ch), pushes + Pushes(e), pops + Pops(e))
  {
    match ch {
      case Producer(item, pick) => ProducerKeepsIndices(c, s, item, pick, pushes, pops);
      case Consumer(pick) => ConsumerKeepsIndices(c, s, pick, pushes, pops);
      case _ =>
    }
  }

  /** In every run the stored indices are the wrapped counts of completed calls. */
  lemma {:induction false} RunIndices<T>(c: Config, sched: seq<Choice<T>>)
    requires c.Valid()
    ensures IndexInv(c, Run(c, sched), |Pushed(Trace(c, sched))|, |Popped(Trace(c, sched))|)
  {
    hide IndexInv, Report, Step, Pushed, Popped;
    if sched == [] {
      InitIndexInv<T>(c);
      EmptyTrace<T>();
    } else {
      var before := sched[..|sched| - 1];
      RunIndices(c, before);
      StepKeepsIndices(c, Run(c, before), sched[|sched| - 1], |Pushed(Trace(c, before))|, |Popped(Trace(c, before))|);
      LastStep(c, sched);
    }
  }

  /**
   * In every run the producer is never more than `cap` ahead of the tail it has seen, so comparing
   * the difference with `cap` for equality is enough, and never more than `cap` ahead of the pops.
   */
  lemma HeadNeverOverruns<T>(c: Config, sched: seq<Choice<T>>)
    requires c.Valid()
    ensures var s, pushes, pops := Run(c, sched), |Pushed(Trace(c, sched))|, |Popped(Trace(c, sched))|;
            s.seenTail <= pops <= s.seenHead <= pushes <= s.seenTail + c.cap <= pops + c.cap
            && |s.heads| == pushes + 1 && |s.tails| == pops + 1
            && s.Head() == c.Index(pushes) && s.Tail() == c.Index(pops)
  {
    hide Run, Trace, Pushed, Popped, Config.Index;
    RunIndices(c, sched);
  }

  /**
   * With a current load the answers are exact at the step that gives them: a push is refused if and
   * only if `cap` values are held, and a pop finds nothing if and only if none is.
   */
  lemma CurrentAnswersAreExact<T>(c: Config, sched: seq<Choice<T>>, ch: Choice<T>)
    requires c.Valid() && Current(c, Run(c, sched), ch)
    ensures var s, e := Run(c, sched), Report(c, Run(c, sched), ch);
            var held := |Pushed(Trace(c, sched))| - |Popped(Trace(c, sched))|;
            (ch.Producer? && s.prod.PLoaded? ==> (e == PushFull(s.prod.item) <==> held == c.cap))
            && (ch.Consumer? && s.cons.CLoaded? ==> (e == PopEmpty <==> held == 0))
            && (e.PushFull? ==> held == c.cap) && (e.PopEmpty? ==> held == 0)
            && (e.PushOk? ==> held < c.cap) && (e.PopOk? ==> held > 0)
  {
    hide Run, Trace, Pushed, Popped, Config.Index, Config.Slot;
    RunIndices(c, sched);
    var s := Run(c, sched);
    var pushes, pops := |Pushed(Trace(c, sched))|, |Popped(Trace(c, sched))|;
    if ch.Producer? {
      ProducerKeepsIndices(c, s, ch.item, ch.pick, pushes, pops);
    } else if ch.Consumer? {
      ConsumerKeepsIndices(c, s, ch.pick, pushes, pops);
    }
  }

  // The queue as a counter

  /** An event without its value. */
  function Erase<T>(e: Event<T>): Event<()> {
    match e
    case Silent => Silent
    case PushOk(_) => PushOk(())
    case PushFull(_) => PushFull(())
    case PopOk(_) => PopOk(())
    case PopEmpty => PopEmpty
  }

  function EraseAll<T>(trace: seq<Event<T>>): seq<Event<()>> {
    seq(|trace|, i requires 0 <= i < |trace| => Erase(trace[i]))
  }

  function Units(n: nat): seq<()> {
    seq(n, _ => ())
  }

  lemma {:induction false} ErasePushed<T>(trace: seq<Event<T>>)
    ensures |Pushed(EraseAll(trace))| == |Pushed(trace)|
  {
    if trace != [] {
      var before := trace[..|trace| - 1];
      ErasePushed(before);
      assert EraseAll(trace)[..|trace| - 1] == EraseAll(before);
    }
  }

  /** Every report is right about the number of values held, exactly so when its load is current. */
  lemma StepCounts<T>(c: Config, s: State<T>, ch: Choice<T>, pushes: nat, pops: nat, strict: bool)
    requires IndexInv(c, s, pushes, pops)
    requires strict ==> Current(c, s, ch)
    ensures var e := Report(c, s, ch);
            var (more, fewer) := (pushes + Pushes(e), pops + Pops(e));
            fewer <= more
            && Perform(strict, c.cap, Units(pushes - pops), pushes, Erase(e)) == Some(Units(more - fewer))
  {
    hide Config.Index, Config.Slot;
    var e := Report(c, s, ch);
    if ch.Producer? {
      ProducerKeepsIndices(c, s, ch.item, ch.pick, pushes, pops);
      if e.PushOk? {
        assert Units(pushes - pops) + [()] == Units(pushes + 1 - pops);
      }
    } else if ch.Consumer? {
      ConsumerKeepsIndices(c, s, ch.pick, pushes, pops);
      if e.PopOk? {
        assert Units(pushes - pops)[1..] == Units(pushes - (pops + 1));
      }
    }
  }

  /**
   * Every run of every capacity, of any length, is a run of the bounded queue once values are
   * ignored: what breaks when the capacity does not divide 2^W is the cells, never the tests.
   */
  lemma {:induction false} RunRefinesCounter<T>(c: Config, sched: seq<Choice<T>>, strict: bool)
    requires c.Valid()
    requires strict ==> AllCurrent(c, sched)
    ensures var pushes, pops := |Pushed(Trace(c, sched))|, |Popped(Trace(c, sched))|;
            pops <= pushes
            && Replay(strict, c.cap, EraseAll(Trace(c, sched))) == Some(Units(pushes - pops))
  {
    hide IndexInv, Report, Step, Current, Perform, Pushed, Popped;
    if sched == [] {
      EmptyTrace<T>();
      assert EraseAll(Trace<T>(c, [])) == [] && Units(0) == [];
    } else {
      var before, ch := sched[..|sched| - 1], sched[|sched| - 1];
      RunRefinesCounter(c, before, strict);
      RunIndices(c, before);
      LastStep(c, sched);
      StepCounts(c, Run(c, before), ch, |Pushed(Trace(c, before))|, |Popped(Trace(c, before))|, strict);
      ErasePushed(Trace(c, before));
      assert EraseAll(Trace(c, sched)) == EraseAll(Trace(c, before)) + [Erase(Report(c, Run(c, before), ch))];
      assert EraseAll(Trace(c, sched))[..|sched| - 1] == EraseAll(Trace(c, before));
    }
  }
}
