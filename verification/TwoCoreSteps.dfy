/**
 * What single steps of the two cores are, apart from what they keep: which accesses to plain memory
 * they make and when one is a race, what a stale queue operation or flag load may answer, and that
 * without the transfer by the tensor queue the accesses would race.
 */
module TwoCoreSteps {
  import opened Wrappers
  import opened CellCore
  import opened BoundedFifo
  import opened FrameSets
  import opened Supervisor
  import opened TwoCore
  import opened TwoCoreSafety
  import SpscMachine

  // Accesses to plain memory

  /**
   * The bootstrap processor accesses the allocator inside each of its calls and the frame's bytes
   * when it fills the tensor, and nothing else; an access that does not know the other core's last
   * one to the same place is a race.
   */
  lemma BspAccessesAreRecorded(u: Setup, s: Sys, stale: bool, pick: nat)
    requires Shaped(u, s)
    ensures var m, t := s.memory, BspStep(u, s, stale, pick);
            var now := SpscMachine.View(m.bsp.p + 1, m.bsp.c);
            t.memory == if s.bsp.BPmm? && s.bsp.inside then
                          Memory(now, m.ap, SpscMachine.View(m.bsp.p + 1, m.pmm.c), m.bytes,
                                 m.raced || m.bsp.c < m.pmm.c)
                        else if s.bsp.BPrepare? then
                          Memory(now, m.ap, m.pmm, SpscMachine.View(m.bsp.p + 1, m.bytes.c),
                                 m.raced || m.bsp.c < m.bytes.c)
                        else m
  {
    hide Packet, TensorIn, Logged;
  }

  /**
   * The application processor accesses the frame's bytes when it reduces the tensor and the allocator
   * when it gives the frame back, and its view grows only by what it takes from the tensor queue.
   */
  lemma ApAccessesAreRecorded(u: Setup, s: Sys, stale: bool)
    requires Shaped(u, s)
    ensures var m, t := s.memory, ApStep(u, s, stale);
            var now := SpscMachine.View(m.ap.p, m.ap.c + 1);
            t.memory == if s.ap.AReduce? then
                          Memory(m.bsp, now, m.pmm, SpscMachine.View(m.bytes.p, m.ap.c + 1),
                                 m.raced || m.ap.p < m.bytes.p)
                        else if s.ap.AFree? && s.ap.inside then
                          Memory(m.bsp, now, SpscMachine.View(m.pmm.p, m.ap.c + 1), m.bytes,
                                 m.raced || m.ap.p < m.pmm.p)
                        else if s.ap.AWaitTensor? && s.tensorQ.items != [] && !stale then
                          m.(ap := m.ap.Join(s.tensorQ.items[0].view))
                        else m
  {
    hide Packet, Validate, FromAddress;
  }

  /** The accesses the bootstrap processor has made by the time it is at `b`. */
  function BspAccesses(b: BspPc): nat {
    match b
    case BPmm(InitializePmm, _) => 0
    case BPmm(ProbeAllocate, _) => 1
    case BPmm(ProbeFree(_), _) => 2
    case BPmm(TensorAllocate, _) => 3
    case BPrepare(_) => 4
    case BHalted => 2
    case _ => 5
  }

  /** Four allocator calls and one filling on the one side, one reduction and one release on the other. */
  ghost predicate AccessesOk(s: Sys) {
    var m, b, a := s.memory, BspAccesses(s.bsp), ApStage(s.ap);
    m.bsp == SpscMachine.View(b, 0)
    && m.ap == SpscMachine.View(if a >= 4 then 5 else 0, if a <= 4 then 0 else if a <= 6 then 1 else 2)
    && m.pmm == SpscMachine.View(if b <= 4 then b else 4, if a <= 6 then 0 else 2)
    && m.bytes == SpscMachine.View(if b <= 4 then 0 else 5, if a <= 4 then 0 else 1)
    && (forall i :: 0 <= i < |s.tensorQ.items| ==> s.tensorQ.items[i].view == SpscMachine.View(5, 0))
  }

  lemma BspKeepsAccesses(u: Setup, s: Sys, stale: bool, pick: nat)
    requires Inv(u, s) && Capable(u) && AccessesOk(s)
    ensures AccessesOk(BspStep(u, s, stale, pick))
  {
    hide PacketsOk, ResultsOk, CountersOk, FlagsOk, MemoryOk, Packet, TensorIn, Collect;
    if s.bsp.BReport? {
      CollectFrame(u, s);
    }
  }

  lemma ApKeepsAccesses(u: Setup, s: Sys, stale: bool)
    requires Inv(u, s) && AccessesOk(s)
    ensures AccessesOk(ApStep(u, s, stale))
  {
    hide PacketsOk, ResultsOk, CountersOk, FlagsOk, MemoryOk, BspFrameOk, Packet, Validate;
  }

  lemma {:induction false} RunAccesses(u: Setup, sched: seq<Choice>)
    requires Capable(u)
    ensures AccessesOk(Run(u, sched))
  {
    hide Inv, AccessesOk, BspStep, ApStep;
    if sched == [] {
      StartAccesses(u);
    } else {
      var before := sched[..|sched| - 1];
      RunAccesses(u, before);
      RunInv(u, before);
      match sched[|sched| - 1] {
        case Bsp(stale, pick) => BspKeepsAccesses(u, Run(u, before), stale, pick);
        case Ap(stale) => ApKeepsAccesses(u, Run(u, before), stale);
      }
    }
  }

  lemma StartAccesses(u: Setup)
    ensures AccessesOk(Start(u))
  {
  }

  /**
   * From the filling of the tensor until the application processor takes it from the queue, an access
   * of that processor to the frame or to the allocator would be a race; from then on none is.
   */
  lemma TransferIsNeeded(u: Setup, sched: seq<Choice>)
    requires Capable(u) && BspStage(Run(u, sched).bsp) >= 2
    ensures var m := Run(u, sched).memory;
            (m.ap.p < m.bytes.p <==> ApStage(Run(u, sched).ap) < 4)
            && (m.ap.p < m.pmm.p <==> ApStage(Run(u, sched).ap) < 4)
  {
    hide Run;
    RunAccesses(u, sched);
  }

  // What is in transit

  /** A packet that is not empty says "CELL data". */
  lemma PacketSays(u: Setup, k: nat)
    requires 1 <= k <= u.Packets()
    ensures Packet(u, k).context == TraceContext(k, k, 0)
    ensures u.empties[k - 1] <==> Packet(u, k).data == []
    ensures !u.empties[k - 1] ==>
              |Packet(u, k).data| == |"CELL data"|
              && forall i :: 0 <= i < |"CELL data"| ==> Packet(u, k).data[i] as int == "CELL data"[i] as int
  {
  }

  /**
   * In every run the tensor that the application processor reduces, and whose frame it gives back, is
   * the one of the lowest usable frame: trace 100, as many ones as elements were asked for.
   */
  lemma TensorArrives(u: Setup, sched: seq<Choice>)
    requires Capable(u)
    ensures var a := Run(u, sched).ap;
            a.AReduce? || a.AStoreSum? || a.AFree? ==>
              a.tensor.context == TraceContext(100, 100, 0)
              && IsLowest(u.usable, FromAddress(a.tensor.physAddr))
              && FrameByte(FromAddress(a.tensor.physAddr), a.tensor.physAddr)
              && |a.tensor.values| == u.elements && forall i :: 0 <= i < u.elements ==> a.tensor.values[i] == 1
  {
    hide Run, MemoryOk, PacketsOk, ResultsOk, CountersOk, FlagsOk, StagesOk;
    RunInv(u, sched);
    if u.usable != {} {
      AddressRoundTrip(Lowest(u.usable));
      AddressIsFirstByte(Lowest(u.usable), TheTensor(u).physAddr);
    }
  }

  // Queue operations and flag loads

  /**
   * A core's queue operation is refused or finds nothing exactly when the bounded queue allows it:
   * the exact queue when its load is current, the queue with stale views when it is not.
   */
  lemma BspQueueSteps(u: Setup, s: Sys, stale: bool, pick: nat)
    requires Shaped(u, s) && s.inQ.Valid() && s.outQ.Valid() && s.tensorQ.Valid()
    ensures var t := BspStep(u, s, stale, pick);
            (s.bsp.BSend? ==>
               var e := PushFull(Packet(u, s.bsp.trace));
               (t == s <==> Perform(!stale, s.inQ.cap, s.inQ.items, s.inQ.pushes, e).Some?)
               && (t != s ==> t.inQ.items == s.inQ.items + [Packet(u, s.bsp.trace)]))
            && (s.bsp.BPushTensor? ==>
                  var parcel := Parcel(s.bsp.tensor, s.memory.bsp);
                  (t.bsp.BHalted? <==>
                     Perform(!stale, s.tensorQ.cap, s.tensorQ.items, s.tensorQ.pushes, PushFull(parcel)).Some?)
                  && (!t.bsp.BHalted? ==> t.tensorQ.items == s.tensorQ.items + [parcel]))
            && (s.bsp.BReport? ==>
                  (t == s <==> Perform(!stale, s.outQ.cap, s.outQ.items, s.outQ.pushes, PopEmpty).Some?)
                  && (t != s ==> [t.received[|s.received|]] + t.outQ.items == s.outQ.items))
            && (s.bsp.BWaitReady? ==> (t == s <==> stale || !s.apReady))
  {
    hide Packet, Logged;
  }

  lemma ApQueueSteps(u: Setup, s: Sys, stale: bool)
    requires Shaped(u, s) && s.inQ.Valid() && s.outQ.Valid() && s.tensorQ.Valid()
    ensures var t := ApStep(u, s, stale);
            (s.ap.ALoop? && s.processed < u.Packets() ==>
               (t == s <==> Perform(!stale, s.inQ.cap, s.inQ.items, s.inQ.pushes, PopEmpty).Some?)
               && (t != s ==> t.inQ.items == s.inQ.items[1..]))
            && (s.ap.AHave? ==>
                  (t == s <==> Perform(!stale, s.outQ.cap, s.outQ.items, s.outQ.pushes, PushFull(s.ap.result)).Some?)
                  && (t != s ==> t.outQ.items == s.outQ.items + [s.ap.result]))
            && (s.ap.AWaitTensor? ==>
                  (t == s <==> Perform(!stale, s.tensorQ.cap, s.tensorQ.items, s.tensorQ.pushes, PopEmpty).Some?)
                  && (t != s ==> t.ap == AReduce(s.tensorQ.items[0].tensor) && t.tensorQ.items == s.tensorQ.items[1..]))
  {
    hide Validate;
  }

  /**
   * The flag load may return any value published so far and the sum load any that is not older than
   * what came with the flag; a false flag keeps the bootstrap processor waiting.
   */
  lemma FlagLoads(u: Setup, s: Sys, stale: bool, n: nat)
    requires Shaped(u, s)
    ensures var t := BspStep(u, s, stale, n);
            (s.bsp.BWaitTensor? && n < |s.dones| ==>
               if s.dones[n].value then t.bsp.BReadSum? && s.dones[n].sum <= t.seenSum && s.seenSum <= t.seenSum
               else t == s)
            && (s.bsp.BReadSum? && s.seenSum <= n < |s.sums| ==> t.sumRead == Some(s.sums[n]))
            && (s.bsp.BWaitTensor? && t.bsp.BReadSum? ==> t.seenSum == s.seenSum || exists d :: d in s.dones && d.sum == t.seenSum)
  {
  }

  /** In every run, until it has seen the flag, the bootstrap processor may go on waiting. */
  lemma MayKeepWaiting(u: Setup, sched: seq<Choice>, stale: bool)
    requires Capable(u) && Run(u, sched).bsp.BWaitTensor?
    ensures Run(u, sched + [Bsp(stale, 0)]) == Run(u, sched)
  {
    RunInv(u, sched);
    assert (sched + [Bsp(stale, 0)])[..|sched|] == sched;
    FlagLoads(u, Run(u, sched), stale, 0);
  }
}
