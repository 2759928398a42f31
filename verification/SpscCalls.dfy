/** Whole calls of `push` and `pop` made while the other side does not move. */
module SpscCalls {
  import opened Wrappers
  import opened WrappedIndex
  import opened BoundedFifo
  import opened SpscMachine
  import opened SpscRuns

  /** The stored part of the queue, without threads. */
  datatype Core<T> = Core(cells: seq<Cell<T>>, head: nat, tail: nat)

  predicate CoreShaped<T>(c: Config, q: Core<T>) {
    c.Valid() && |q.cells| == c.cap && q.head < c.modulus && q.tail < c.modulus
  }

  function CoreOf<T>(c: Config, s: State<T>): (q: Core<T>)
    requires Shaped(c, s)
    ensures CoreShaped(c, q)
  {
    Core(s.cells, s.Head(), s.Tail())
  }

  predicate CoreFull<T>(c: Config, q: Core<T>)
    requires CoreShaped(c, q)
  {
    c.WrappingSub(q.head, q.tail) == c.cap
  }

  /** One uninterrupted `push_inner`. */
  function CorePush<T>(c: Config, q: Core<T>, x: T): (Core<T>, bool)
    requires CoreShaped(c, q)
  {
    if CoreFull(c, q) then (q, false)
    else (Core(q.cells[q.head % c.cap := Full(x)], c.WrappingInc(q.head), q.tail), true)
  }

  lemma CorePushSucceeds<T>(c: Config, q: Core<T>, x: T)
    requires CoreShaped(c, q)
    ensures CorePush(c, q, x).1 <==> !CoreFull(c, q)
  {
  }

  /** One uninterrupted `pop_inner`; the slot it reads must hold a value. */
  function CorePop<T>(c: Config, q: Core<T>): (Core<T>, Option<T>)
    requires CoreShaped(c, q)
    requires q.head != q.tail ==> q.cells[q.tail % c.cap].Full?
  {
    if q.head == q.tail then (q, None)
    else (Core(q.cells[q.tail % c.cap := Moved], q.head, c.WrappingInc(q.tail)),
          Some(q.cells[q.tail % c.cap].value))
  }

  /** A schedule followed by one whole push with current loads. */
  function PushRun<T>(c: Config, sched: seq<Choice<T>>, x: T): seq<Choice<T>>
    requires c.Valid()
  {
    var s := Run(c, sched);
    var ch := Producer(x, |s.tails| - 1);
    if CoreFull(c, CoreOf(c, s)) then sched + [ch] + [ch] else sched + [ch] + [ch] + [ch] + [ch]
  }

  /** A schedule followed by one whole pop with current loads. */
  function PopRun<T>(c: Config, sched: seq<Choice<T>>): seq<Choice<T>>
    requires c.Valid()
  {
    var s := Run(c, sched);
    var ch := Consumer(|s.heads| - 1);
    if s.Head() == s.Tail() then sched + [ch] + [ch] else sched + [ch] + [ch] + [ch] + [ch]
  }

  /** What one more step does to a run, its trace, and its loads being current. */
  lemma Extend<T>(c: Config, sched: seq<Choice<T>>, ch: Choice<T>)
    requires c.Valid()
    ensures var s, trace := Run(c, sched), Trace(c, sched);
            var e, more := Report(c, s, ch), Trace(c, sched + [ch]);
            Run(c, sched + [ch]) == Step(c, s, ch)
            && more == trace + [e]
            && Pushed(more) == AfterPush(Pushed(trace), e)
            && Popped(more) == AfterPop(Popped(trace), e)
            && (AllCurrent(c, sched + [ch]) <==> AllCurrent(c, sched) && Current(c, s, ch))
  {
    hide Report, Step, Pushed, Popped, AfterPush, AfterPop;
    assert (sched + [ch])[..|sched|] == sched;
    LastStep(c, sched + [ch]);
  }

  /** The four steps of a push that is not disturbed, or the two of one that finds the queue full. */
  lemma PushSteps<T>(c: Config, s: State<T>, ch: Choice<T>)
    requires Shaped(c, s) && s.prod.PIdle? && ch.Producer? && Current(c, s, ch)
    ensures var t1 := Step(c, s, ch);
            var t2 := Step(c, t1, ch);
            var t3 := Step(c, t2, ch);
            var t4 := Step(c, t3, ch);
            var q := CorePush(c, CoreOf(c, s), ch.item).0;
            Report(c, s, ch) == Silent
            && Current(c, t1, ch) && Current(c, t2, ch) && Current(c, t3, ch)
            && (if CoreFull(c, CoreOf(c, s)) then
                  Report(c, t1, ch) == PushFull(ch.item) && CoreOf(c, t2) == q
                  && t2.prod.PIdle? && t2.cons == s.cons && t2.tails == s.tails && t2.heads == s.heads
                  && t2.seenHead == s.seenHead
                else
                  Report(c, t1, ch) == Silent && Report(c, t2, ch) == Silent
                  && Report(c, t3, ch) == PushOk(ch.item) && CoreOf(c, t4) == q
                  && t4.prod.PIdle? && t4.cons == s.cons && t4.tails == s.tails && t4.seenHead == s.seenHead
                  && |t4.heads| == |s.heads| + 1 && t4.heads[..|s.heads|] == s.heads)
  {
    hide Config.Index, Config.Slot;
  }

  lemma SoloPush<T>(c: Config, sched: seq<Choice<T>>, x: T)
    requires c.Valid() && Run(c, sched).prod.PIdle?
    ensures var s, more := Run(c, sched), PushRun(c, sched, x);
            var t := Run(c, more);
            var ok := CorePush(c, CoreOf(c, s), x).1;
            CoreOf(c, t) == CorePush(c, CoreOf(c, s), x).0
            && t.prod.PIdle? && t.cons == s.cons && t.tails == s.tails && t.seenHead == s.seenHead
            && |t.heads| == |s.heads| + (if ok then 1 else 0)
            && (ok ==> t.heads[..|s.heads|] == s.heads)
            && Pushed(Trace(c, more)) == (if ok then Pushed(Trace(c, sched)) + [x] else Pushed(Trace(c, sched)))
            && Popped(Trace(c, more)) == Popped(Trace(c, sched))
            && Trace(c, more)[|more| - 1] == (if ok then PushOk(x) else PushFull(x))
            && (AllCurrent(c, sched) ==> AllCurrent(c, more))
  {
    hide Run, Trace, AllCurrent, Pushed, Popped, Step, Report, CoreOf, CorePush;
    var s := Run(c, sched);
    var ch := Producer(x, |s.tails| - 1);
    PushSteps(c, s, ch);
    assert CorePush(c, CoreOf(c, s), x).1 <==> !CoreFull(c, CoreOf(c, s)) by {
      CorePushSucceeds(c, CoreOf(c, s), x);
    }
    Extend(c, sched, ch);
    Extend(c, sched + [ch], ch);
    if !CoreFull(c, CoreOf(c, s)) {
      Extend(c, sched + [ch] + [ch], ch);
      Extend(c, sched + [ch] + [ch] + [ch], ch);
    }
  }

  /** The four steps of a pop that is not disturbed, or the two of one that finds the queue empty. */
  lemma PopSteps<T>(c: Config, s: State<T>, ch: Choice<T>)
    requires Shaped(c, s) && s.cons.CIdle? && ch.Consumer? && Current(c, s, ch)
    requires s.Head() != s.Tail() ==> s.cells[s.Tail() % c.cap].Full?
    ensures var t1 := Step(c, s, ch);
            var t2 := Step(c, t1, ch);
            var t3 := Step(c, t2, ch);
            var t4 := Step(c, t3, ch);
            var (q, got) := CorePop(c, CoreOf(c, s));
            Report(c, s, ch) == Silent
            && Current(c, t1, ch) && Current(c, t2, ch) && Current(c, t3, ch)
            && (if s.Head() == s.Tail() then
                  got == None && Report(c, t1, ch) == PopEmpty && CoreOf(c, t2) == q
                  && t2.cons.CIdle? && t2.prod == s.prod && t2.heads == s.heads && t2.tails == s.tails
                  && t2.seenTail == s.seenTail
                else
                  got.Some? && Report(c, t1, ch) == Silent && Report(c, t2, ch) == Silent
                  && Report(c, t3, ch) == PopOk(got.value) && CoreOf(c, t4) == q
                  && t4.cons.CIdle? && t4.prod == s.prod && t4.heads == s.heads && t4.seenTail == s.seenTail
                  && |t4.tails| == |s.tails| + 1)
  {
    hide Config.Index, Config.Slot;
  }

  lemma SoloPop<T>(c: Config, sched: seq<Choice<T>>)
    requires c.Valid() && Run(c, sched).cons.CIdle?
    requires var q := CoreOf(c, Run(c, sched)); q.head != q.tail ==> q.cells[q.tail % c.cap].Full?
    ensures var s, more := Run(c, sched), PopRun(c, sched);
            var t := Run(c, more);
            var got := CorePop(c, CoreOf(c, s)).1;
            CoreOf(c, t) == CorePop(c, CoreOf(c, s)).0
            && t.cons.CIdle? && t.prod == s.prod && t.heads == s.heads && t.seenTail == s.seenTail
            && |t.tails| == |s.tails| + (if got.Some? then 1 else 0)
            && Popped(Trace(c, more))
               == (if got.Some? then Popped(Trace(c, sched)) + [got.value] else Popped(Trace(c, sched)))
            && Pushed(Trace(c, more)) == Pushed(Trace(c, sched))
            && Trace(c, more)[|more| - 1] == (if got.Some? then PopOk(got.value) else PopEmpty)
            && (AllCurrent(c, sched) ==> AllCurrent(c, more))
  {
    hide Run, Trace, AllCurrent, Pushed, Popped, Step, Report, CorePop, Config.Index, Config.Slot;
    var s := Run(c, sched);
    var ch := Consumer(|s.heads| - 1);
    PopSteps(c, s, ch);
    Extend(c, sched, ch);
    Extend(c, sched + [ch], ch);
    if s.Head() != s.Tail() {
      Extend(c, sched + [ch] + [ch], ch);
      Extend(c, sched + [ch] + [ch] + [ch], ch);
    }
  }
}
