/**
 * The ring buffer as two threads taking atomic steps.  One producer and one consumer interleave
 * arbitrarily; an `Acquire` load of the other side's index may return any published value that is
 * not older than the last one seen, and brings with it what its publisher had done.
 *
 * Races are judged by vector clocks, independently of why the algorithm is correct: each slot
 * remembers when it was last written and last read, and an access is racy unless the last
 * conflicting access is within the view of the thread that makes it.
 */
module SpscMachine {
  import opened WrappedIndex
  import opened BoundedFifo

  /** A buffer cell: never written, holding a value, or holding bits whose value was moved out. */
  datatype Cell<T> = Uninit | Full(value: T) | Moved

  /**
   * How many accesses of the producer and of the consumer, to cells and to memory outside the
   * queue, happened before.
   */
  datatype View = View(p: nat, c: nat) {
    function Join(v: View): View {
      View(if p < v.p then v.p else p, if c < v.c then v.c else c)
    }
  }

  /** A published index value with the view of the thread that released it. */
  datatype Msg = Msg(index: nat, view: View)

  /** Where the producer is inside `push_inner`. */
  datatype ProdPc<T> =
    | PIdle
    | PLoaded(item: T, head: nat)
    | PNotFull(item: T, head: nat)
    | PWritten(item: T, head: nat)

  /** Where the consumer is inside `pop_inner`. */
  datatype ConsPc<T> =
    | CIdle
    | CLoaded(tail: nat)
    | CNotEmpty(tail: nat)
    | CTaken(tail: nat, item: T)

  /** What must never happen. */
  datatype Fault = RacyWrite | RacyRead | BadRead | LostValue

  datatype State<T> = State(
    cells: seq<Cell<T>>, writtenAt: seq<nat>, readAt: seq<nat>,
    heads: seq<Msg>, tails: seq<Msg>,
    prod: ProdPc<T>, prodView: View, seenTail: nat,
    cons: ConsPc<T>, consView: View, seenHead: nat,
    faults: set<Fault>)
  {
    function Head(): nat
      requires heads != []
    {
      heads[|heads| - 1].index
    }

    function Tail(): nat
      requires tails != []
    {
      tails[|tails| - 1].index
    }

    predicate Idle() {
      prod.PIdle? && cons.CIdle?
    }
  }

  /**
   * Which thread moves next, and which published value its acquire load (if it makes one) returns.
   * Between its calls a thread may also work on memory outside the queue.
   */
  datatype Choice<T> = Producer(item: T, pick: nat) | Consumer(pick: nat) | ProducerWork | ConsumerWork

  predicate Shaped<T>(c: Config, s: State<T>) {
    c.Valid()
    && |s.cells| == |s.writtenAt| == |s.readAt| == c.cap
    && s.seenTail < |s.tails| && s.seenHead < |s.heads|
    && (forall i :: 0 <= i < |s.heads| ==> s.heads[i].index < c.modulus)
    && (forall i :: 0 <= i < |s.tails| ==> s.tails[i].index < c.modulus)
    && (!s.prod.PIdle? ==> s.prod.head < c.modulus)
    && (!s.cons.CIdle? ==> s.cons.tail < c.modulus)
  }

  function Init<T>(c: Config): (s: State<T>)
    requires c.Valid()
    ensures Shaped(c, s)
  {
    var zero := Msg(0, View(0, 0));
    State(seq(c.cap, _ => Uninit), seq(c.cap, _ => 0), seq(c.cap, _ => 0),
          [zero], [zero], PIdle, View(0, 0), 0, CIdle, View(0, 0), 0, {})
  }

  /** The value an acquire load returns: the picked one, kept between the last seen and the latest. */
  function Visible(seen: nat, latest: nat, pick: nat): nat {
    if pick < seen then seen else if latest < pick then latest else pick
  }

  /** The next step of `push_inner`; an idle producer starts pushing `item`. */
  function ProducerStep<T>(c: Config, s: State<T>, item: T, pick: nat): (t: State<T>)
    requires Shaped(c, s)
    ensures Shaped(c, t)
  {
    match s.prod
    case PIdle => s.(prod := PLoaded(item, s.Head()))
    case PLoaded(x, h) =>
      var n := Visible(s.seenTail, |s.tails| - 1, pick);
      var t := s.(seenTail := n, prodView := s.prodView.Join(s.tails[n].view));
      if c.WrappingSub(h, s.tails[n].index) == c.cap then t.(prod := PIdle) else t.(prod := PNotFull(x, h))
    case PNotFull(x, h) =>
      var k := h % c.cap;
      var now := s.prodView.p + 1;
      s.(cells := s.cells[k := Full(x)], writtenAt := s.writtenAt[k := now],
         prodView := s.prodView.(p := now), prod := PWritten(x, h),
         faults := s.faults + (if s.readAt[k] > s.prodView.c then {RacyWrite} else {})
                            + (if s.cells[k].Full? then {LostValue} else {}))
    case PWritten(_, h) =>
      s.(heads := s.heads + [Msg(c.WrappingInc(h), s.prodView)], prod := PIdle)
  }

  /** The next step of `pop_inner`.  A read of a cell that holds no value goes no further. */
  function ConsumerStep<T>(c: Config, s: State<T>, pick: nat): (t: State<T>)
    requires Shaped(c, s)
    ensures Shaped(c, t)
  {
    match s.cons
    case CIdle => s.(cons := CLoaded(s.Tail()))
    case CLoaded(l) =>
      var n := Visible(s.seenHead, |s.heads| - 1, pick);
      var t := s.(seenHead := n, consView := s.consView.Join(s.heads[n].view));
      if l == s.heads[n].index then t.(cons := CIdle) else t.(cons := CNotEmpty(l))
    case CNotEmpty(l) =>
      var k := l % c.cap;
      var now := s.consView.c + 1;
      var t := s.(readAt := s.readAt[k := now], consView := s.consView.(c := now),
                  faults := s.faults + (if s.writtenAt[k] > s.consView.p then {RacyRead} else {}));
      if s.cells[k].Full? then t.(cells := s.cells[k := Moved], cons := CTaken(l, s.cells[k].value))
      else t.(faults := t.faults + {BadRead})
    case CTaken(l, _) =>
      s.(tails := s.tails + [Msg(c.WrappingInc(l), s.consView)], cons := CIdle)
  }

  function Step<T>(c: Config, s: State<T>, ch: Choice<T>): (t: State<T>)
    requires Shaped(c, s)
    ensures Shaped(c, t)
  {
    match ch
    case Producer(item, pick) => ProducerStep(c, s, item, pick)
    case Consumer(pick) => ConsumerStep(c, s, pick)
    case ProducerWork => if s.prod.PIdle? then s.(prodView := s.prodView.(p := s.prodView.p + 1)) else s
    case ConsumerWork => if s.cons.CIdle? then s.(consView := s.consView.(c := s.consView.c + 1)) else s
  }

  /** What the step reports: a push at its head store or refusing tail load, a pop likewise. */
  function Report<T>(c: Config, s: State<T>, ch: Choice<T>): Event<T>
    requires Shaped(c, s)
  {
    match ch
    case Producer(_, pick) =>
      (match s.prod
       case PLoaded(x, h) => if ProducerStep(c, s, ch.item, pick).prod.PIdle? then PushFull(x) else Silent
       case PWritten(x, _) => PushOk(x)
       case _ => Silent)
    case Consumer(pick) =>
      (match s.cons
       case CLoaded(_) => if ConsumerStep(c, s, pick).cons.CIdle? then PopEmpty else Silent
       case CTaken(_, x) => PopOk(x)
       case _ => Silent)
    case _ => Silent
  }

  /** The state after a schedule, from a new queue. */
  function Run<T>(c: Config, sched: seq<Choice<T>>): (s: State<T>)
    requires c.Valid()
    ensures Shaped(c, s)
  {
    if sched == [] then Init(c)
    else Step(c, Run(c, sched[..|sched| - 1]), sched[|sched| - 1])
  }

  function Trace<T>(c: Config, sched: seq<Choice<T>>): (trace: seq<Event<T>>)
    requires c.Valid()
    ensures |trace| == |sched|
  {
    if sched == [] then []
    else
      var before := sched[..|sched| - 1];
      Trace(c, before) + [Report(c, Run(c, before), sched[|sched| - 1])]
  }

  /** An acquire load made by this choice returns the latest published value. */
  predicate Current<T>(c: Config, s: State<T>, ch: Choice<T>)
    requires Shaped(c, s)
  {
    match ch
    case Producer(_, pick) => |s.tails| - 1 <= pick
    case Consumer(pick) => |s.heads| - 1 <= pick
    case _ => true
  }

  /** The plain interleaving model: no load of the run is stale. */
  predicate AllCurrent<T>(c: Config, sched: seq<Choice<T>>)
    requires c.Valid()
  {
    sched == []
    || (AllCurrent(c, sched[..|sched| - 1]) && Current(c, Run(c, sched[..|sched| - 1]), sched[|sched| - 1]))
  }

  /** Slot writes so far: the pushes that succeeded and one that has written but not yet published. */
  function Writes<T>(s: State<T>): nat
    requires s.heads != []
  {
    |s.heads| - (if s.prod.PWritten? then 0 else 1)
  }
}
