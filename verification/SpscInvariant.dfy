/**
 * The invariant of the two-thread ring buffer, kept by every step under every choice of stale
 * loads, as long as the slot numbers of live positions differ.  `pushed` and `popped` are the values
 * whose push and pop have completed.
 */
module SpscInvariant {
  import opened WrappedIndex
  import opened SpscMachine
  import opened SpscIndices

  /** One past the last position whose value has been read out of its cell. */
  function ReadPos<T>(s: State<T>, popped: seq<T>): nat {
    |popped| + if s.cons.CTaken? then 1 else 0
  }

  /** One past the last position whose value has been written into its cell. */
  function WritePos<T>(s: State<T>, pushed: seq<T>): nat {
    |pushed| + if s.prod.PWritten? then 1 else 0
  }

  /** A value taken out of its cell and not yet handed over is the oldest one held. */
  ghost predicate ItemOk<T>(s: State<T>, pushed: seq<T>, popped: seq<T>) {
    s.cons.CTaken? ==> |popped| < |pushed| && s.cons.item == pushed[|popped|]
  }

  /** Cells of live positions hold their values; all other cells hold none. */
  ghost predicate CellsOk<T>(c: Config, s: State<T>, pushed: seq<T>, popped: seq<T>)
    requires Shaped(c, s)
  {
    (forall p :: ReadPos(s, popped) <= p < |pushed| ==> s.cells[c.Slot(p)] == Full(pushed[p]))
    && (s.prod.PWritten? ==> s.cells[c.Slot(|pushed|)] == Full(s.prod.item))
    && (forall p :: WritePos(s, pushed) <= p < ReadPos(s, popped) + c.cap && c.Regular(p + 1)
                    ==> !s.cells[c.Slot(p)].Full?)
  }

  /** A published tail carries the reads of all cells it frees. */
  ghost predicate ReadsPublished<T>(c: Config, s: State<T>, popped: seq<T>)
    requires Shaped(c, s) && |s.tails| == |popped| + 1
  {
    (forall k :: 0 <= k < c.cap ==> s.readAt[k] <= s.consView.c)
    && (forall n, p :: 0 <= n <= |popped| && ReadPos(s, popped) <= p < n + c.cap && c.Regular(p + 1)
                       ==> s.readAt[c.Slot(p)] <= s.tails[n].view.c)
    && s.tails[s.seenTail].view.c <= s.prodView.c
  }

  /** A published head carries the writes of all positions before it. */
  ghost predicate WritesPublished<T>(c: Config, s: State<T>, pushed: seq<T>, popped: seq<T>)
    requires Shaped(c, s) && |s.heads| == |pushed| + 1
  {
    (forall k :: 0 <= k < c.cap ==> s.writtenAt[k] <= s.prodView.p)
    && (forall n, p :: |popped| <= p < n <= |pushed| ==> s.writtenAt[c.Slot(p)] <= s.heads[n].view.p)
    && s.heads[s.seenHead].view.p <= s.consView.p
  }

  ghost predicate Inv<T>(c: Config, s: State<T>, pushed: seq<T>, popped: seq<T>) {
    Shaped(c, s)
    && popped <= pushed
    && IndexInv(c, s, |pushed|, |popped|)
    && ItemOk(s, pushed, popped)
    && CellsOk(c, s, pushed, popped)
    && ReadsPublished(c, s, popped)
    && WritesPublished(c, s, pushed, popped)
    && s.faults == {}
  }

  lemma InitInv<T>(c: Config)
    requires c.Valid()
    ensures Inv(c, Init<T>(c), [], [])
  {
    IndexOfZero(c);
  }

  lemma IndexOfZero(c: Config)
    requires c.Valid()
    ensures c.Index(0) == 0
  {
  }

  /** Positions of one window of `cap` that are not equal use different slots. */
  lemma SlotsDiffer(c: Config, p: nat, q: nat)
    requires c.Valid() && p != q && p < q + c.cap && q < p + c.cap
    requires c.Regular(p + 1) && c.Regular(q + 1)
    ensures c.Slot(p) != c.Slot(q)
  {
    SlotDistance(c, if p < q then p else q, if p < q then q - p else p - q);
  }

  // One lemma for each step

  lemma ProducerLoadsHead<T>(c: Config, s: State<T>, pushed: seq<T>, popped: seq<T>, item: T, pick: nat)
    requires Inv(c, s, pushed, popped) && s.prod.PIdle?
    ensures Inv(c, ProducerStep(c, s, item, pick), pushed, popped)
  {
    hide Config.Index, Config.Slot, Config.Regular;
  }

  lemma ProducerLoadsTail<T>(c: Config, s: State<T>, pushed: seq<T>, popped: seq<T>, item: T, pick: nat)
    requires Inv(c, s, pushed, popped) && s.prod.PLoaded?
    ensures var t := ProducerStep(c, s, item, pick);
            Inv(c, t, pushed, popped)
            && (t.prod.PIdle? <==> |pushed| == t.seenTail + c.cap)
  {
    hide Config.Index, Config.Slot, Config.Regular, CellsOk;
    var t := ProducerStep(c, s, item, pick);
    ProducerKeepsIndices(c, s, item, pick, |pushed|, |popped|);
    CellsSame(c, s, t, pushed, popped);
  }

  lemma CellsSame<T>(c: Config, s: State<T>, t: State<T>, pushed: seq<T>, popped: seq<T>)
    requires Shaped(c, s) && Shaped(c, t) && CellsOk(c, s, pushed, popped) && t.cells == s.cells
    requires ReadPos(t, popped) == ReadPos(s, popped)
    requires t.prod.PWritten? <==> s.prod.PWritten?
    requires t.prod.PWritten? ==> t.prod == s.prod
    ensures CellsOk(c, t, pushed, popped)
  {
    hide Config.Index, Config.Slot, Config.Regular;
  }

  lemma ProducerWrites<T>(c: Config, s: State<T>, pushed: seq<T>, popped: seq<T>, item: T, pick: nat)
    requires Inv(c, s, pushed, popped) && s.prod.PNotFull?
    requires c.Regular(|pushed| + 1)
    ensures Inv(c, ProducerStep(c, s, item, pick), pushed, popped)
  {
    hide CellsOk, ReadsPublished, WritesPublished;
    var t := ProducerStep(c, s, item, pick);
    assert s.prod.head % c.cap == c.Slot(|pushed|);
    WriteKeepsCells(c, s, t, pushed, popped, item, pick);
    WriteKeepsReads(c, s, t, pushed, popped, item, pick);
    WriteKeepsWrites(c, s, t, pushed, popped, item, pick);
  }

  lemma WriteKeepsCells<T>(c: Config, s: State<T>, t: State<T>, pushed: seq<T>, popped: seq<T>, item: T, pick: nat)
    requires Inv(c, s, pushed, popped) && s.prod.PNotFull? && c.Regular(|pushed| + 1)
    requires t == ProducerStep(c, s, item, pick)
    ensures CellsOk(c, t, pushed, popped)
    ensures !s.cells[c.Slot(|pushed|)].Full?
  {
    hide ReadsPublished, WritesPublished;
    var next := |pushed|;
    forall p | ReadPos(s, popped) <= p < next + c.cap && p != next && p < ReadPos(s, popped) + c.cap && c.Regular(p + 1)
      ensures c.Slot(p) != c.Slot(next)
    {
      SlotsDiffer(c, p, next);
    }
  }

  lemma WriteKeepsReads<T>(c: Config, s: State<T>, t: State<T>, pushed: seq<T>, popped: seq<T>, item: T, pick: nat)
    requires Inv(c, s, pushed, popped) && s.prod.PNotFull? && c.Regular(|pushed| + 1)
    requires t == ProducerStep(c, s, item, pick)
    ensures ReadsPublished(c, t, popped)
    ensures s.readAt[c.Slot(|pushed|)] <= s.prodView.c
  {
    hide Config.Index, Config.Slot, Config.Regular, CellsOk, WritesPublished;
    assert s.readAt[c.Slot(|pushed|)] <= s.tails[s.seenTail].view.c;
  }

  lemma WriteKeepsWrites<T>(c: Config, s: State<T>, t: State<T>, pushed: seq<T>, popped: seq<T>, item: T, pick: nat)
    requires Inv(c, s, pushed, popped) && s.prod.PNotFull? && c.Regular(|pushed| + 1)
    requires t == ProducerStep(c, s, item, pick)
    ensures WritesPublished(c, t, pushed, popped)
  {
    hide CellsOk, ReadsPublished;
    var next := |pushed|;
    forall p | |popped| <= p < next
      ensures c.Slot(p) != c.Slot(next)
    {
      SlotsDiffer(c, p, next);
    }
  }

  lemma ProducerPublishes<T>(c: Config, s: State<T>, pushed: seq<T>, popped: seq<T>, item: T, pick: nat)
    requires Inv(c, s, pushed, popped) && s.prod.PWritten?
    ensures Inv(c, ProducerStep(c, s, item, pick), pushed + [s.prod.item], popped)
  {
    hide Config.Index, Config.Slot, Config.Regular;
    ProducerKeepsIndices(c, s, item, pick, |pushed|, |popped|);
  }

  lemma ConsumerLoadsTail<T>(c: Config, s: State<T>, pushed: seq<T>, popped: seq<T>, pick: nat)
    requires Inv(c, s, pushed, popped) && s.cons.CIdle?
    ensures Inv(c, ConsumerStep(c, s, pick), pushed, popped)
  {
    hide Config.Index, Config.Slot, Config.Regular;
  }

  lemma ConsumerLoadsHead<T>(c: Config, s: State<T>, pushed: seq<T>, popped: seq<T>, pick: nat)
    requires Inv(c, s, pushed, popped) && s.cons.CLoaded?
    ensures var t := ConsumerStep(c, s, pick);
            Inv(c, t, pushed, popped)
            && (t.cons.CIdle? <==> |popped| == t.seenHead)
  {
    hide Config.Index, Config.Slot, Config.Regular, CellsOk;
    var t := ConsumerStep(c, s, pick);
    ConsumerKeepsIndices(c, s, pick, |pushed|, |popped|);
    CellsSame(c, s, t, pushed, popped);
  }

  lemma ConsumerReads<T>(c: Config, s: State<T>, pushed: seq<T>, popped: seq<T>, pick: nat)
    requires Inv(c, s, pushed, popped) && s.cons.CNotEmpty? && c.Regular(WritePos(s, pushed))
    ensures Inv(c, ConsumerStep(c, s, pick), pushed, popped)
  {
    hide CellsOk, ReadsPublished, WritesPublished;
    var t := ConsumerStep(c, s, pick);
    assert s.cons.tail % c.cap == c.Slot(|popped|);
    ReadKeepsCells(c, s, t, pushed, popped, pick);
    ReadKeepsReads(c, s, t, pushed, popped, pick);
    ReadKeepsWrites(c, s, t, pushed, popped, pick);
  }

  lemma ReadKeepsCells<T>(c: Config, s: State<T>, t: State<T>, pushed: seq<T>, popped: seq<T>, pick: nat)
    requires Inv(c, s, pushed, popped) && s.cons.CNotEmpty? && c.Regular(WritePos(s, pushed))
    requires t == ConsumerStep(c, s, pick)
    ensures s.cells[c.Slot(|popped|)] == Full(pushed[|popped|])
    ensures CellsOk(c, t, pushed, popped)
  {
    hide ReadsPublished, WritesPublished;
    var first := |popped|;
    forall p | first < p < first + c.cap && c.Regular(p + 1)
      ensures c.Slot(p) != c.Slot(first)
    {
      SlotsDiffer(c, p, first);
    }
    if c.Regular(first + c.cap + 1) {
      SlotDistance(c, first, c.cap);
    }
  }

  lemma ReadKeepsReads<T>(c: Config, s: State<T>, t: State<T>, pushed: seq<T>, popped: seq<T>, pick: nat)
    requires Inv(c, s, pushed, popped) && s.cons.CNotEmpty? && c.Regular(WritePos(s, pushed))
    requires t == ConsumerStep(c, s, pick) && s.cells[c.Slot(|popped|)].Full?
    ensures ReadsPublished(c, t, popped)
  {
    hide CellsOk, WritesPublished;
    var first := |popped|;
    forall p | first < p < first + c.cap && c.Regular(p + 1)
      ensures c.Slot(p) != c.Slot(first)
    {
      SlotsDiffer(c, p, first);
    }
  }

  lemma ReadKeepsWrites<T>(c: Config, s: State<T>, t: State<T>, pushed: seq<T>, popped: seq<T>, pick: nat)
    requires Inv(c, s, pushed, popped) && s.cons.CNotEmpty?
    requires t == ConsumerStep(c, s, pick) && s.cells[c.Slot(|popped|)].Full?
    ensures WritesPublished(c, t, pushed, popped)
    ensures s.writtenAt[c.Slot(|popped|)] <= s.consView.p
  {
    hide Config.Index, Config.Slot, Config.Regular, CellsOk, ReadsPublished;
    assert s.writtenAt[c.Slot(|popped|)] <= s.heads[s.seenHead].view.p;
  }

  lemma ConsumerPublishes<T>(c: Config, s: State<T>, pushed: seq<T>, popped: seq<T>, pick: nat)
    requires Inv(c, s, pushed, popped) && s.cons.CTaken?
    ensures Inv(c, ConsumerStep(c, s, pick), pushed, popped + [s.cons.item])
  {
    hide Config.Index, Config.Slot, Config.Regular;
    ConsumerKeepsIndices(c, s, pick, |pushed|, |popped|);
  }

  lemma WorkKeepsInv<T>(c: Config, s: State<T>, ch: Choice<T>, pushed: seq<T>, popped: seq<T>)
    requires Inv(c, s, pushed, popped) && (ch.ProducerWork? || ch.ConsumerWork?)
    ensures Inv(c, Step(c, s, ch), pushed, popped)
  {
    hide Config.Index, Config.Slot, Config.Regular;
  }
}
