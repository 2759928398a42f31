/**
 * The ring buffer as an object used by one thread: an array of cells and two stored indices,
 * updated in place.  Each method does what the uninterrupted call of the two-thread machine does
 * to the stored part, and is a step of the abstract queue.
 */
module SpscQueue {
  import opened Wrappers
  import opened WrappedIndex
  import opened SpscMachine
  import opened SpscCalls

  /** The stored indices are the wrapped counts of `pushed` and `popped`. */
  ghost predicate Indexed<T>(c: Config, q: Core<T>, pushed: seq<T>, popped: seq<T>) {
    CoreShaped(c, q)
    && popped <= pushed && |pushed| <= |popped| + c.cap
    && q.head == c.Index(|pushed|) && q.tail == c.Index(|popped|)
  }

  /** The cells of live positions hold the contents and no other cell holds a value. */
  ghost predicate Holds<T>(c: Config, q: Core<T>, pushed: seq<T>, popped: seq<T>)
    requires CoreShaped(c, q)
  {
    c.Regular(|pushed|)
    && (forall p :: |popped| <= p < |pushed| ==> q.cells[c.Slot(p)] == Full(pushed[p]))
    && (forall p :: |pushed| <= p < |popped| + c.cap && c.Regular(p + 1) ==> !q.cells[c.Slot(p)].Full?)
  }

  predicate CanPop<T>(c: Config, q: Core<T>)
    requires CoreShaped(c, q)
  {
    q.head != q.tail ==> q.cells[q.tail % c.cap].Full?
  }

  class SpscQueue<T> {
    const c: Config
    const buffer: array<Cell<T>>
    var head: nat
    var tail: nat
    /** The values pushed so far, and those of them, in order, for which a pop was made. */
    ghost var pushed: seq<T>
    ghost var popped: seq<T>

    function Core(): Core<T>
      reads this, buffer
    {
      SpscCalls.Core(buffer[..], head, tail)
    }

    ghost predicate Shape()
      reads this, buffer
    {
      Indexed(c, Core(), pushed, popped)
    }

    ghost predicate Valid()
      reads this, buffer
    {
      Shape() && Holds(c, Core(), pushed, popped)
    }

    /** The values inside, oldest first. */
    ghost function Contents(): seq<T>
      requires popped <= pushed
      reads this
    {
      pushed[|popped|..]
    }

    constructor (c: Config)
      requires c.Valid()
      ensures Valid() && fresh(buffer) && this.c == c && pushed == [] && popped == []
    {
      this.c := c;
      var cells := new Cell<T>[c.cap](_ => Uninit);
      buffer := cells;
      head, tail := 0, 0;
      pushed, popped := [], [];
    }

    /**
     * Refused exactly when full.  A push beyond 2^W with a capacity that does not divide 2^W still
     * does what the machine does, but then the cells need not hold the contents any more.
     */
    method Push(item: T) returns (ok: bool)
      requires Shape()
      modifies this, buffer
      ensures Shape() && (Core(), ok) == CorePush(c, old(Core()), item)
      ensures ok == (|old(Contents())| < c.cap)
      ensures popped == old(popped) && pushed == (if ok then old(pushed) + [item] else old(pushed))
      ensures Contents() == if ok then old(Contents()) + [item] else old(Contents())
      ensures old(Valid()) && c.Regular(|pushed|) ==> Valid()
    {
      hide Indexed, Holds, Config.Index, Config.Slot, Config.Regular, CorePush;
      PushKeeps(c, Core(), pushed, popped, item);
      if c.WrappingSub(head, tail) == c.cap {
        return false;
      }
      var index := head % c.cap;
      buffer[index] := Full(item);
      head := c.WrappingInc(head);
      pushed := pushed + [item];
      ok := true;
    }

    /**
     * Takes the value out of the oldest live cell, and takes nothing exactly when empty.  The only
     * demand is that of the unchecked read: the cell holds a value.  While the queue is valid that
     * is so, and the value is the oldest of the contents.
     */
    method Pop() returns (got: Option<T>)
      requires Shape() && CanPop(c, Core())
      modifies this, buffer
      ensures Shape() && CanPop(c, old(Core())) && (Core(), got) == CorePop(c, old(Core()))
      ensures got == None <==> old(Contents()) == []
      ensures pushed == old(pushed) && Contents() == if got.Some? then old(Contents())[1..] else old(Contents())
      ensures popped == if got.Some? then old(popped) + [old(Contents())[0]] else old(popped)
      ensures old(Valid()) ==> Valid() && (got.Some? ==> got.value == old(Contents())[0])
    {
      hide Indexed, Holds, Config.Index, Config.Slot, Config.Regular;
      PopKeeps(c, Core(), pushed, popped);
      if tail == head {
        return None;
      }
      var index := tail % c.cap;
      got := Some(buffer[index].value);
      buffer[index] := Moved;
      tail := c.WrappingInc(tail);
      popped := popped + [pushed[|popped|]];
    }

    method IsEmpty() returns (empty: bool)
      requires Shape()
      ensures empty <==> Contents() == []
    {
      hide Config.Index;
      DistanceForward(c, |popped|, |pushed| - |popped|);
      empty := head == tail;
    }

    method IsFull() returns (full: bool)
      requires Shape()
      ensures full <==> |Contents()| == c.cap
    {
      hide Config.Index;
      DistanceForward(c, |popped|, |pushed| - |popped|);
      full := c.WrappingSub(head, tail) == c.cap;
    }

    /** The destructor's loop: pops until nothing is left, so every value is moved out. */
    method Drop()
      requires Valid()
      modifies this, buffer
      ensures Valid() && Contents() == [] && pushed == old(pushed) && popped == old(pushed)
    {
      hide Holds, Config.Index, Config.Slot, Config.Regular, CanPop, CorePop;
      ValidCanPop(c, Core(), pushed, popped);
      var got := Pop();
      while got.Some?
        invariant Valid() && pushed == old(pushed)
        invariant got.None? ==> Contents() == []
        decreases |pushed| - |popped|, got.Some?
      {
        ValidCanPop(c, Core(), pushed, popped);
        got := Pop();
      }
    }
  }

  lemma PushKeeps<T>(c: Config, q: Core<T>, pushed: seq<T>, popped: seq<T>, x: T)
    requires Indexed(c, q, pushed, popped)
    ensures var (r, ok) := CorePush(c, q, x);
            CoreShaped(c, q) && CoreShaped(c, r) && popped <= pushed
            && ok == (|pushed| < |popped| + c.cap)
            && CorePush(c, q, x)
               == (if c.WrappingSub(q.head, q.tail) == c.cap then (q, false)
                   else (SpscCalls.Core(q.cells[q.head % c.cap := Full(x)], c.WrappingInc(q.head), q.tail), true))
            && (ok ==> Indexed(c, r, pushed + [x], popped)
                       && (pushed + [x])[|popped|..] == pushed[|popped|..] + [x])
            && (ok && Holds(c, q, pushed, popped) && c.Regular(|pushed| + 1) ==> Holds(c, r, pushed + [x], popped))
  {
    hide Config.Slot, Holds;
    DistanceForward(c, |popped|, |pushed| - |popped|);
    IndexSucc(c, |pushed|);
    if |pushed| < |popped| + c.cap && Holds(c, q, pushed, popped) && c.Regular(|pushed| + 1) {
      PushKeepsCells(c, q, pushed, popped, x);
    }
  }

  lemma PushKeepsCells<T>(c: Config, q: Core<T>, pushed: seq<T>, popped: seq<T>, x: T)
    requires Indexed(c, q, pushed, popped) && Holds(c, q, pushed, popped)
    requires |pushed| < |popped| + c.cap && c.Regular(|pushed| + 1)
    ensures Holds(c, SpscCalls.Core(q.cells[q.head % c.cap := Full(x)], c.WrappingInc(q.head), q.tail),
                  pushed + [x], popped)
  {
    var next, first := |pushed|, |popped|;
    assert q.head % c.cap == c.Slot(next);
    hide Config.Index, Config.Slot;
    IndexSucc(c, next);
    forall p | first <= p < first + c.cap && p != next && c.Regular(p + 1)
      ensures c.Slot(p) != c.Slot(next)
    {
      SlotDistance(c, if p < next then p else next, if p < next then next - p else p - next);
    }
  }

  lemma PopKeeps<T>(c: Config, q: Core<T>, pushed: seq<T>, popped: seq<T>)
    requires Indexed(c, q, pushed, popped) && CanPop(c, q)
    ensures CoreShaped(c, q) && popped <= pushed
    ensures var (r, got) := CorePop(c, q);
            CoreShaped(c, r)
            && (got.None? <==> |popped| == |pushed|)
            && (got.Some? ==> var due := pushed[|popped|];
                              popped + [due] <= pushed
                              && pushed[|popped|..] == [due] + pushed[|popped| + 1..]
                              && Indexed(c, r, pushed, popped + [due])
                              && (Holds(c, q, pushed, popped) ==>
                                    got.value == due && Holds(c, r, pushed, popped + [due])))
  {
    var next, first := |pushed|, |popped|;
    assert q.tail % c.cap == c.Slot(first);
    hide Config.Index, Config.Slot;
    DistanceForward(c, first, next - first);
    IndexSucc(c, first);
    if first < next && Holds(c, q, pushed, popped) {
      PopKeepsCells(c, q, pushed, popped);
    }
  }

  /** A valid queue can be popped. */
  lemma ValidCanPop<T>(c: Config, q: Core<T>, pushed: seq<T>, popped: seq<T>)
    requires Indexed(c, q, pushed, popped) && Holds(c, q, pushed, popped)
    ensures CanPop(c, q)
  {
    var next, first := |pushed|, |popped|;
    assert q.tail % c.cap == c.Slot(first);
    hide Config.Index, Config.Slot;
    DistanceForward(c, first, next - first);
  }

  lemma PopKeepsCells<T>(c: Config, q: Core<T>, pushed: seq<T>, popped: seq<T>)
    requires Indexed(c, q, pushed, popped) && Holds(c, q, pushed, popped) && |popped| < |pushed|
    requires q.tail % c.cap == c.Slot(|popped|) && c.WrappingInc(q.tail) < c.modulus
    ensures Holds(c, SpscCalls.Core(q.cells[q.tail % c.cap := Moved], q.head, c.WrappingInc(q.tail)),
                  pushed, popped + [pushed[|popped|]])
  {
    hide Config.Index, Config.Slot;
    var first := |popped|;
    forall p | first < p < first + c.cap && c.Regular(p + 1)
      ensures c.Slot(p) != c.Slot(first)
    {
      SlotDistance(c, first, p - first);
    }
    if c.Regular(first + c.cap + 1) {
      SlotDistance(c, first, c.cap);
    }
  }
}
