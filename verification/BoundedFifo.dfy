/** The bounded first-in first-out queue that the ring buffer implements, as a judge of event traces. */
module BoundedFifo {
  import opened Wrappers

  /** What a completed queue call tells its caller; `Silent` marks the steps inside a call. */
  datatype Event<T> = Silent | PushOk(item: T) | PushFull(refused: T) | PopOk(taken: T) | PopEmpty

  function Pushed<T>(trace: seq<Event<T>>): seq<T> {
    if trace == [] then []
    else
      var before, e := Pushed(trace[..|trace| - 1]), trace[|trace| - 1];
      if e.PushOk? then before + [e.item] else before
  }

  function Popped<T>(trace: seq<Event<T>>): seq<T> {
    if trace == [] then []
    else
      var before, e := Popped(trace[..|trace| - 1]), trace[|trace| - 1];
      if e.PopOk? then before + [e.taken] else before
  }

  lemma EmptyTrace<T>()
    ensures Pushed<T>([]) == [] && Popped<T>([]) == []
  {
  }

  /**
   * One event of a queue with `cap` places and contents `q`, of which `pushes` were pushed in
   * all.  With `strict`, a push is refused exactly when full and a pop exactly when empty.
   * Without it, a pop may miss an item and a push may miss a free place, as a stale view of the
   * other side allows, but a push is never refused before `cap` pushes have succeeded.
   */
  function Perform<T(==)>(strict: bool, cap: nat, q: seq<T>, pushes: nat, e: Event<T>): Option<seq<T>> {
    match e
    case Silent => Some(q)
    case PushOk(x) => if |q| < cap then Some(q + [x]) else None
    case PushFull(_) => if (if strict then |q| == cap else pushes >= cap) then Some(q) else None
    case PopOk(x) => if q != [] && q[0] == x then Some(q[1..]) else None
    case PopEmpty => if strict && q != [] then None else Some(q)
  }

  /** The contents after a trace, or nothing when some event of it is not allowed. */
  function Replay<T(==)>(strict: bool, cap: nat, trace: seq<Event<T>>): Option<seq<T>> {
    if trace == [] then Some([])
    else
      var before := trace[..|trace| - 1];
      match Replay(strict, cap, before)
      case None => None
      case Some(q) => Perform(strict, cap, q, |Pushed(before)|, trace[|trace| - 1])
  }

  /** An allowed trace pops a prefix of what it pushes and never holds more than `cap` items. */
  lemma {:induction false} AllowedTraceIsFifo<T>(strict: bool, cap: nat, trace: seq<Event<T>>)
    requires Replay(strict, cap, trace).Some?
    ensures Pushed(trace) == Popped(trace) + Replay(strict, cap, trace).value
    ensures |Replay(strict, cap, trace).value| <= cap
  {
    if trace != [] {
      AllowedTraceIsFifo(strict, cap, trace[..|trace| - 1]);
    }
  }

  /** The strict queue allows nothing that the lax one refuses. */
  lemma {:induction false} StrictIsLax<T>(cap: nat, trace: seq<Event<T>>)
    requires Replay(true, cap, trace).Some?
    ensures Replay(false, cap, trace) == Replay(true, cap, trace)
  {
    if trace != [] {
      var before := trace[..|trace| - 1];
      StrictIsLax(cap, before);
      AllowedTraceIsFifo(true, cap, before);
    }
  }
}
