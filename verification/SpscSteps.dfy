/**
 * What single steps of the ring buffer are, apart from what they keep: an acquire load may return
 * every visible value and stale ones change answers, a thread leaves the other one's own state
 * alone, and a call reports the item with which it began.
 */
module SpscSteps {
  import opened WrappedIndex
  import opened BoundedFifo
  import opened SpscMachine
  import opened SpscRuns
  import opened SpscIndices
  import opened SpscCalls
  import opened SpscOrder

  // Acquire loads

  /** The tail load may return every tail between the last one seen and the latest, and no other. */
  lemma ProducerLoadsAnyVisible<T>(c: Config, s: State<T>, item: T, n: nat)
    requires Shaped(c, s) && s.prod.PLoaded?
    ensures s.seenTail <= ProducerStep(c, s, item, n).seenTail < |s.tails|
    ensures s.seenTail <= n < |s.tails| ==> ProducerStep(c, s, item, n).seenTail == n
    ensures Current(c, s, Producer(item, n)) ==> ProducerStep(c, s, item, n).seenTail == |s.tails| - 1
    ensures var t := ProducerStep(c, s, item, n);
            t.prod == if c.WrappingSub(s.prod.head, s.tails[t.seenTail].index) == c.cap then PIdle
                      else PNotFull(s.prod.item, s.prod.head)
  {
  }

  /** The head load may return every head between the last one seen and the latest, and no other. */
  lemma ConsumerLoadsAnyVisible<T>(c: Config, s: State<T>, n: nat)
    requires Shaped(c, s) && s.cons.CLoaded?
    ensures s.seenHead <= ConsumerStep(c, s, n).seenHead < |s.heads|
    ensures s.seenHead <= n < |s.heads| ==> ConsumerStep(c, s, n).seenHead == n
    ensures Current(c, s, Consumer(n)) ==> ConsumerStep(c, s, n).seenHead == |s.heads| - 1
    ensures var t := ConsumerStep(c, s, n);
            t.cons == if s.heads[t.seenHead].index == s.cons.tail then CIdle else CNotEmpty(s.cons.tail)
  {
  }

  /** Fill the queue and pop once; then push, loading the tail that was published before the pop. */
  function MissedPlaceRun(c: Config): seq<Choice<nat>>
    requires c.Valid()
  {
    PopRun(c, Fill(c, 0, c.cap)) + [Producer(c.cap, 0)] + [Producer(c.cap, 0)]
  }

  /** Push once; then pop, loading the head that was published before the push. */
  function MissedItemRun(c: Config): seq<Choice<nat>>
    requires c.Valid()
  {
    PushRun(c, [], 0) + [Consumer(0)] + [Consumer(0)]
  }

  /** Staleness shows: a push can be refused with a place free, for every capacity. */
  lemma PushCanMissAPlace(c: Config)
    requires c.Valid()
    ensures var sched := MissedPlaceRun(c);
            Trace(c, sched)[|sched| - 1] == PushFull(c.cap)
            && |Pushed(Trace(c, sched))| == c.cap && |Popped(Trace(c, sched))| == 1
  {
    hide Run, Trace, AllCurrent, Pushed, Popped, PopRun, Fill, ConsumerStep, Config.Index, Config.Slot;
    var full := Fill(c, 0, c.cap);
    FillCounts(c, 0, c.cap);
    HeadNeverOverruns(c, full);
    IdleCore(c, full);
    SlotOfTail(c, 0);
    SoloPop(c, full);
    var popped := PopRun(c, full);
    RunIndices(c, popped);
    DistanceForward(c, 0, c.cap);
    Extend(c, popped, Producer(c.cap, 0));
    Extend(c, popped + [Producer(c.cap, 0)], Producer(c.cap, 0));
  }

  /** Staleness shows: a pop can find nothing with a value held, for every capacity. */
  lemma PopCanMissAnItem(c: Config)
    requires c.Valid()
    ensures var sched := MissedItemRun(c);
            Trace(c, sched)[|sched| - 1] == PopEmpty
            && |Pushed(Trace(c, sched))| == 1 && |Popped(Trace(c, sched))| == 0
  {
    hide Run, Trace, AllCurrent, Pushed, Popped, PushRun, ProducerStep, Config.Index, Config.Slot;
    var none: seq<Choice<nat>> := [];
    EmptyRun(c);
    HeadNeverOverruns(c, none);
    IdleCore(c, none);
    SoloPush(c, none, 0);
    var pushed := PushRun(c, none, 0);
    RunIndices(c, pushed);
    Extend(c, pushed, Consumer(0));
    Extend(c, pushed + [Consumer(0)], Consumer(0));
  }

  // What belongs to a thread

  /** A thread publishes only its own index and leaves alone what the other one has seen and is doing. */
  lemma OnlyOwnState<T>(c: Config, s: State<T>, ch: Choice<T>)
    requires Shaped(c, s)
    ensures var t := Step(c, s, ch);
            (ch.Producer? || ch.ProducerWork? ==>
               t.cons == s.cons && t.consView == s.consView && t.seenHead == s.seenHead
               && t.tails == s.tails && t.readAt == s.readAt)
            && (ch.Consumer? || ch.ConsumerWork? ==>
                  t.prod == s.prod && t.prodView == s.prodView && t.seenTail == s.seenTail
                  && t.heads == s.heads && t.writtenAt == s.writtenAt)
  {
  }

  /** Outside work is an access: between calls it raises the clock of the thread that does it, and no more. */
  lemma WorkRaisesClock<T>(c: Config, s: State<T>)
    requires Shaped(c, s)
    ensures Step(c, s, ProducerWork)
            == if s.prod.PIdle? then s.(prodView := View(s.prodView.p + 1, s.prodView.c)) else s
    ensures Step(c, s, ConsumerWork)
            == if s.cons.CIdle? then s.(consView := View(s.consView.p, s.consView.c + 1)) else s
  {
  }

  // The item of a call

  lemma CallGoesOn<T>(c: Config, s: State<T>, ch: Choice<T>)
    requires Shaped(c, s)
    ensures var t, e := Step(c, s, ch), Report(c, s, ch);
            (!t.prod.PIdle? && s.prod.PIdle? ==> ch.Producer? && t.prod.item == ch.item)
            && (!t.prod.PIdle? && !s.prod.PIdle? ==> t.prod.item == s.prod.item)
            && (e.PushOk? ==> !s.prod.PIdle? && e.item == s.prod.item)
            && (e.PushFull? ==> !s.prod.PIdle? && e.refused == s.prod.item)
            && (e.PopOk? ==> s.cons.CTaken? && e.taken == s.cons.item)
            && (s.cons.CTaken? && t.cons.CTaken? ==> t.cons.item == s.cons.item)
  {
  }

  /** A push under way carries the item of the step that began it. */
  lemma {:induction false} CallHasBegun<T>(c: Config, sched: seq<Choice<T>>) returns (start: nat)
    requires c.Valid() && !Run(c, sched).prod.PIdle?
    ensures start < |sched| && Run(c, sched[..start]).prod.PIdle?
    ensures sched[start].Producer? && sched[start].item == Run(c, sched).prod.item
    ensures forall k :: start < k <= |sched| ==> !Run(c, sched[..k]).prod.PIdle?
    decreases |sched|
  {
    hide Step, Report;
    assert sched[..|sched|] == sched;
    var before := sched[..|sched| - 1];
    CallGoesOn(c, Run(c, before), sched[|sched| - 1]);
    if Run(c, before).prod.PIdle? {
      start := |sched| - 1;
    } else {
      start := CallHasBegun(c, before);
      assert before[..start] == sched[..start];
      forall k | start < k <= |sched|
        ensures !Run(c, sched[..k]).prod.PIdle?
      {
        assert k < |sched| ==> before[..k] == sched[..k];
      }
    }
  }

  /** What a push reports, accepted or refused, is the item with which that very call began. */
  lemma ReportNamesItsItem<T>(c: Config, sched: seq<Choice<T>>, ch: Choice<T>) returns (start: nat)
    requires c.Valid() && (Report(c, Run(c, sched), ch).PushOk? || Report(c, Run(c, sched), ch).PushFull?)
    ensures start < |sched| && sched[start].Producer? && Run(c, sched[..start]).prod.PIdle?
    ensures Report(c, Run(c, sched), ch) in {PushOk(sched[start].item), PushFull(sched[start].item)}
    ensures forall k :: start < k <= |sched| ==> !Run(c, sched[..k]).prod.PIdle?
  {
    hide Run, Report, Step;
    CallGoesOn(c, Run(c, sched), ch);
    start := CallHasBegun(c, sched);
  }
}
