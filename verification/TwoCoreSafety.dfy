/** What every reachable state of the two-core protocol satisfies, whatever the schedule. */
module TwoCoreSafety {
  import opened Wrappers
  import opened CellCore
  import opened FrameSets
  import opened Supervisor
  import opened TwoCore
  import Binary32

  /** How far the bootstrap processor has come. */
  function BspStage(b: BspPc): nat {
    match b
    case BPmm(_, _) => 0
    case BPrepare(_) => 1
    case BStartAp(_) => 2
    case BWaitReady(_) => 3
    case BSend(_, _) => 4
    case BPushTensor(_) => 5
    case BWaitTensor => 6
    case BReadSum => 7
    case BReport(_) => 8
    case BDone => 9
    case BHalted => 0
  }

  function ApStage(a: ApPc): nat {
    match a
    case AOff => 0
    case ABoot => 1
    case ALoop => 2
    case AHave(_) => 2
    case ACount => 2
    case AWaitTensor => 3
    case AReduce(_) => 4
    case AStoreSum(_, _) => 5
    case AFree(_, _) => 6
    case ASetComplete(_) => 7
    case AHalted => 8
  }

  /** The order in which the cores may be at their stages. */
  ghost predicate StagesOk(u: Setup, s: Sys) {
    (ApStage(s.ap) == 0 <==> BspStage(s.bsp) <= 2)
    && (s.apReady <==> ApStage(s.ap) >= 2)
    && (BspStage(s.bsp) >= 4 ==> s.apReady)
    && (ApStage(s.ap) >= 4 ==> BspStage(s.bsp) >= 6)
    && (BspStage(s.bsp) >= 7 ==> s.ap.AHalted?)
    && (s.bsp.BHalted? ==> u.usable == {})
  }

  // Packets and results

  function Sent(u: Setup, b: BspPc): nat {
    match b
    case BSend(_, k) => if k > 0 then k - 1 else 0
    case _ => if BspStage(b) >= 5 then u.Packets() else 0
  }

  function TakenPackets(s: Sys): nat {
    s.processed + if s.ap.AHave? || s.ap.ACount? then 1 else 0
  }

  function Completions(s: Sys): nat {
    s.processed + if s.ap.ACount? then 1 else 0
  }

  function Reported(u: Setup, b: BspPc): nat {
    match b
    case BReport(k) => k
    case BDone => u.Packets()
    case _ => 0
  }

  /** The packets from trace `from` up to trace `to`. */
  function PacketsBetween(u: Setup, from: nat, to: nat): (packets: seq<RawPayload>)
    requires 1 <= from <= to + 1 && to <= u.Packets()
    ensures |packets| == to + 1 - from
  {
    seq(to + 1 - from, i requires 0 <= i < to + 1 - from => Packet(u, from + i))
  }

  /** The one result of trace `k`: failed exactly when its packet is empty. */
  function ResultOf(u: Setup, k: nat): WorkResult
    requires 1 <= k <= u.Packets()
  {
    var context := TraceContext(k, k, 0);
    if u.empties[k - 1] then Failed(context, 1, "Corrupted payload in AP1") else Completed(context)
  }

  function ResultsUpTo(u: Setup, n: nat): (results: seq<WorkResult>)
    requires n <= u.Packets()
    ensures |results| == n
  {
    seq(n, i requires 0 <= i < n => ResultOf(u, i + 1))
  }

  /** Every packet sent is in the queue, in hand, or answered, in trace order. */
  ghost predicate PacketsOk(u: Setup, s: Sys) {
    var sent, taken := Sent(u, s.bsp), TakenPackets(s);
    taken <= sent <= u.Packets()
    && s.inQ == Queue(u.inCap, PacketsBetween(u, taken + 1, sent), sent) && s.inQ.Valid()
    && (s.bsp.BSend? ==> 1 <= s.bsp.trace <= u.Packets())
    && (s.ap.AHave? ==> s.ap.result == ResultOf(u, taken))
    && (ApStage(s.ap) >= 3 ==> s.processed == u.Packets())
    && (ApStage(s.ap) <= 1 ==> s.processed == 0)
  }

  /** Every answer is in the queue or received, in trace order, and the counters count. */
  ghost predicate ResultsOk(u: Setup, s: Sys) {
    var done := Completions(s);
    done <= u.Packets() && |s.received| == Reported(u, s.bsp) <= done
    && s.received == ResultsUpTo(u, done)[..|s.received|]
    && s.outQ == Queue(u.outCap, ResultsUpTo(u, done)[|s.received|..], done) && s.outQ.Valid()
    && (s.bsp.BReport? ==> s.bsp.reports < u.Packets())
  }

  ghost predicate CountersOk(u: Setup, s: Sys) {
    s.succeeded + s.failed == |s.received|
    && s.failed == |Failures(s.received)|
    && |s.received| <= u.Packets()
    && s.records == First(u.Packets(), Failures(s.received))
  }

  // The tensor frame

  ghost function TheTensor(u: Setup): Tensor
    requires u.usable != {}
  {
    TensorIn(u, Lowest(u.usable))
  }

  ghost function Taken(u: Setup): PmmState {
    Allocate(FreshState(u.usable)).0
  }

  ghost predicate BspFrameOk(u: Setup, s: Sys) {
    match s.bsp
    case BPmm(InitializePmm, _) => s.pmm == PmmState({}, {})
    case BPmm(ProbeAllocate, _) => s.pmm == FreshState(u.usable)
    case BPmm(ProbeFree(f), _) => u.usable != {} && f == Lowest(u.usable) && s.pmm == Taken(u)
    case BPmm(TensorAllocate, _) => u.usable != {} && s.pmm == FreshState(u.usable)
    case BPrepare(f) => u.usable != {} && f == Lowest(u.usable) && s.pmm == Taken(u)
    case BStartAp(t) => u.usable != {} && t == TheTensor(u) && s.pmm == Taken(u)
    case BWaitReady(t) => u.usable != {} && t == TheTensor(u) && s.pmm == Taken(u)
    case BSend(t, _) => u.usable != {} && t == TheTensor(u) && s.pmm == Taken(u)
    case BPushTensor(t) => u.usable != {} && t == TheTensor(u) && s.pmm == Taken(u)
    case BHalted => s.pmm == FreshState({})
    case _ => u.usable != {} && s.pmm == if ApStage(s.ap) >= 7 then FreshState(u.usable) else Taken(u)
  }

  ghost predicate ApFrameOk(u: Setup, s: Sys) {
    (match s.ap
     case AReduce(t) => u.usable != {} && t == TheTensor(u)
     case AStoreSum(t, sum) => u.usable != {} && t == TheTensor(u) && sum == Binary32.Sum32(t.values)
     case AFree(t, _) => u.usable != {} && t == TheTensor(u)
     case ASetComplete(returned) => returned
     case _ => true)
    && s.tensorQ.cap == u.tensorCap && s.tensorQ.Valid()
    && (if BspStage(s.bsp) >= 6 && ApStage(s.ap) <= 3
        then u.usable != {} && |s.tensorQ.items| == 1 && s.tensorQ.items[0].tensor == TheTensor(u)
        else s.tensorQ.items == [])
    && (BspStage(s.bsp) < 6 ==> s.tensorQ.pushes == 0)
  }

  // The flags

  ghost function TheSum(u: Setup): nat {
    Binary32.Sum32(seq(u.elements, _ => 1))
  }

  ghost predicate FlagsOk(u: Setup, s: Sys) {
    s.sums == (if ApStage(s.ap) >= 6 then [0, TheSum(u)] else [0])
    && s.dones == (if ApStage(s.ap) >= 8 then [Done(false, 0), Done(true, 1)] else [Done(false, 0)])
    && s.seenSum == (if BspStage(s.bsp) >= 7 then 1 else 0)
    && s.sumRead == (if BspStage(s.bsp) >= 8 then Some(TheSum(u)) else None)
  }

  // Memory without atomics

  /** `v` covers every access the bootstrap processor has made to the allocator and to the frame. */
  predicate CoversBsp(m: Memory, v: View) {
    m.pmm.p <= v.p && m.bytes.p <= v.p
  }

  /**
   * The bootstrap processor's accesses end before the tensor is sent, what is sent covers them, and
   * the application processor's begin after it is received.
   */
  ghost predicate MemoryOk(u: Setup, s: Sys) {
    !s.memory.raced
    && CoversBsp(s.memory, s.memory.bsp)
    && (ApStage(s.ap) <= 4 ==> s.memory.bytes.c == 0)
    && (ApStage(s.ap) <= 6 ==> s.memory.pmm.c == 0)
    && (ApStage(s.ap) >= 4 ==> CoversBsp(s.memory, s.memory.ap))
    && (forall i :: 0 <= i < |s.tensorQ.items| ==> CoversBsp(s.memory, s.tensorQ.items[i].view))
  }

  ghost predicate Inv(u: Setup, s: Sys) {
    Shaped(u, s) && StagesOk(u, s) && PacketsOk(u, s) && ResultsOk(u, s) && CountersOk(u, s)
    && BspFrameOk(u, s) && ApFrameOk(u, s) && FlagsOk(u, s) && MemoryOk(u, s)
  }

  ghost predicate Capable(u: Setup) {
    u.tensorCap >= 1
  }

  lemma StartInv(u: Setup)
    ensures Inv(u, Start(u))
  {
    assert ResultsUpTo(u, 0) == [];
    assert PacketsBetween(u, 1, 0) == [];
  }

  /** A return from the allocator moves only the allocator and the bootstrap processor. */
  lemma PmmReturnFrame(u: Setup, s: Sys, call: PmmCall)
    ensures var t := BspPmmReturn(u, s, call);
            t == s.(pmm := t.pmm, bsp := t.bsp) && BspStage(t.bsp) <= 1
  {
  }

  lemma BspKeepsMemory(u: Setup, s: Sys, stale: bool, pick: nat)
    requires Inv(u, s) && Capable(u)
    ensures MemoryOk(u, BspStep(u, s, stale, pick))
  {
    hide PacketsOk, ResultsOk, CountersOk, BspFrameOk, FlagsOk, Packet, TensorIn, BspPmmReturn, Collect;
    if s.bsp.BPmm? {
      PmmReturnFrame(u, s.(memory := s.memory.BspUsesPmm()), s.bsp.call);
    } else if s.bsp.BReport? {
      CollectFrame(u, s);
    }
  }

  lemma ApKeepsMemory(u: Setup, s: Sys, stale: bool)
    requires Inv(u, s)
    ensures MemoryOk(u, ApStep(u, s, stale))
  {
    hide PacketsOk, ResultsOk, CountersOk, BspFrameOk, FlagsOk, Packet, Validate;
  }

  lemma BspKeepsStages(u: Setup, s: Sys, stale: bool, pick: nat)
    requires Inv(u, s) && Capable(u)
    ensures StagesOk(u, BspStep(u, s, stale, pick))
  {
    hide MemoryOk, PacketsOk, ResultsOk, CountersOk;
  }

  lemma BspKeepsPackets(u: Setup, s: Sys, stale: bool, pick: nat)
    requires Inv(u, s) && Capable(u)
    ensures PacketsOk(u, BspStep(u, s, stale, pick))
  {
    hide MemoryOk, ResultsOk, CountersOk, BspFrameOk, FlagsOk, Packet, BspPmmReturn, Collect, TensorIn, PacketsBetween,
      ResultOf;
    if s.bsp.BPmm? {
      PmmReturnFrame(u, s.(memory := s.memory.BspUsesPmm()), s.bsp.call);
    } else if s.bsp.BReport? {
      CollectFrame(u, s);
    } else if s.bsp.BSend? {
      SendExtendsPackets(u, TakenPackets(s) + 1, s.bsp.trace);
    }
  }

  lemma SendExtendsPackets(u: Setup, from: nat, trace: nat)
    requires 1 <= from <= trace <= u.Packets()
    ensures PacketsBetween(u, from, trace) == PacketsBetween(u, from, trace - 1) + [Packet(u, trace)]
  {
    hide Packet;
  }

  lemma BspKeepsResults(u: Setup, s: Sys, stale: bool, pick: nat)
    requires Inv(u, s) && Capable(u)
    ensures ResultsOk(u, BspStep(u, s, stale, pick))
  {
    hide MemoryOk, PacketsOk, CountersOk, BspFrameOk, ApFrameOk, FlagsOk, Packet, ResultOf, BspPmmReturn, ResultsUpTo, TensorIn;
    if s.bsp.BPmm? {
      PmmReturnFrame(u, s.(memory := s.memory.BspUsesPmm()), s.bsp.call);
    } else if s.bsp.BReport? && s.outQ.items != [] && !stale {
      CollectKeepsResults(u, s);
    }
  }

  lemma CollectFrame(u: Setup, s: Sys)
    requires s.bsp.BReport?
    ensures forall q, r ::
              var t := Collect(u, s, q, r, s.bsp.reports);
              t.inQ == s.inQ && t.tensorQ == s.tensorQ && t.memory == s.memory && t.ap == s.ap && t.processed == s.processed && (t.bsp.BReport? || t.bsp.BDone?)
  {
  }

  lemma CollectKeepsResults(u: Setup, s: Sys)
    requires PacketsOk(u, s) && ResultsOk(u, s) && s.bsp.BReport? && s.outQ.items != []
    ensures var (q, r) := TryPop(s.outQ, false);
            ResultsOk(u, Collect(u, s, q, r.value, s.bsp.reports))
  {
    hide PacketsOk, ResultOf, ResultsUpTo, Logged;
    var k := |s.received|;
    var all := ResultsUpTo(u, Completions(s));
    assert all[..k] + [all[k]] == all[..k + 1];
    assert all[k..][1..] == all[k + 1..];
  }

  lemma BspKeepsCounters(u: Setup, s: Sys, stale: bool, pick: nat)
    requires Inv(u, s) && Capable(u)
    ensures CountersOk(u, BspStep(u, s, stale, pick))
  {
    hide MemoryOk, StagesOk, PacketsOk, BspFrameOk, ApFrameOk, FlagsOk, Packet, ResultOf, First, Logged, ResultsUpTo, TensorIn,
      BspPmmReturn, Failures;
    if s.bsp.BPmm? {
      PmmReturnFrame(u, s.(memory := s.memory.BspUsesPmm()), s.bsp.call);
    } else if s.bsp.BReport? && s.outQ.items != [] && !stale {
      CollectKeepsCounters(u, s);
    }
  }

  lemma CollectKeepsCounters(u: Setup, s: Sys)
    requires ResultsOk(u, s) && CountersOk(u, s) && s.bsp.BReport? && s.outQ.items != []
    ensures var (q, r) := TryPop(s.outQ, false);
            CountersOk(u, Collect(u, s, q, r.value, s.bsp.reports))
  {
    hide ResultOf, ResultsUpTo, First, Logged;
    var r := s.outQ.items[0];
    assert (s.received + [r])[..|s.received|] == s.received;
    ObserveKeepsFirst(u.Packets(), s.received, r);
  }

  lemma BspKeepsFrames(u: Setup, s: Sys, stale: bool, pick: nat)
    requires Inv(u, s) && Capable(u)
    ensures BspFrameOk(u, BspStep(u, s, stale, pick)) && ApFrameOk(u, BspStep(u, s, stale, pick))
  {
    hide MemoryOk, PacketsOk, ResultsOk, CountersOk, Packet, TensorIn, First, Logged;
    if u.usable != {} {
      var low := Lowest(u.usable);
      assert u.usable - {low} + {low} == u.usable;
    }
  }

  lemma BspKeepsFlags(u: Setup, s: Sys, stale: bool, pick: nat)
    requires Inv(u, s) && Capable(u)
    ensures FlagsOk(u, BspStep(u, s, stale, pick))
  {
    hide MemoryOk, PacketsOk, ResultsOk, CountersOk, BspFrameOk, Packet, TensorIn, First, Logged, TheSum;
  }

  lemma ApKeepsStages(u: Setup, s: Sys, stale: bool)
    requires Inv(u, s)
    ensures StagesOk(u, ApStep(u, s, stale))
  {
    hide MemoryOk, PacketsOk, ResultsOk, CountersOk, BspFrameOk, FlagsOk;
  }

  lemma ApKeepsPackets(u: Setup, s: Sys, stale: bool)
    requires Inv(u, s)
    ensures PacketsOk(u, ApStep(u, s, stale))
  {
    hide MemoryOk, ResultsOk, CountersOk, BspFrameOk, ApFrameOk, FlagsOk, Packet, ResultOf, Validate;
    var taken, sent := TakenPackets(s), Sent(u, s.bsp);
    if s.ap.ALoop? && s.processed < u.Packets() && s.inQ.items != [] {
      assert s.inQ.items[0] == Packet(u, taken + 1);
      assert s.inQ.items[1..] == PacketsBetween(u, taken + 2, sent);
      AnswerIsResult(u, taken + 1);
    }
  }

  /** The application processor answers a packet with its result. */
  lemma AnswerIsResult(u: Setup, k: nat)
    requires 1 <= k <= u.Packets()
    ensures Validate(Packet(u, k)) == ResultOf(u, k)
    ensures Validate(Packet(u, k)).context == TraceContext(k, k, 0)
    ensures Validate(Packet(u, k)).Failed? <==> u.empties[k - 1]
  {
  }

  lemma ApKeepsResults(u: Setup, s: Sys, stale: bool)
    requires Inv(u, s)
    ensures ResultsOk(u, ApStep(u, s, stale))
  {
    hide MemoryOk, CountersOk, BspFrameOk, ApFrameOk, FlagsOk, Packet, ResultOf, Validate;
    var done := Completions(s);
    if s.ap.AHave? {
      assert ResultsUpTo(u, done + 1) == ResultsUpTo(u, done) + [ResultOf(u, done + 1)];
    }
  }

  lemma ApKeepsFrames(u: Setup, s: Sys, stale: bool)
    requires Inv(u, s)
    ensures BspFrameOk(u, ApStep(u, s, stale)) && ApFrameOk(u, ApStep(u, s, stale))
    ensures CountersOk(u, ApStep(u, s, stale))
  {
    hide MemoryOk, PacketsOk, ResultsOk, Packet, Validate, First;
    if u.usable != {} {
      var low := Lowest(u.usable);
      assert u.usable - {low} + {low} == u.usable;
      AddressRoundTrip(low);
    }
  }

  lemma ApKeepsFlags(u: Setup, s: Sys, stale: bool)
    requires Inv(u, s)
    ensures FlagsOk(u, ApStep(u, s, stale))
  {
    hide MemoryOk, PacketsOk, ResultsOk, CountersOk, BspFrameOk, Packet, Validate;
  }

  lemma StepInv(u: Setup, s: Sys, ch: Choice)
    requires Inv(u, s) && Capable(u)
    ensures Inv(u, Step(u, s, ch))
  {
    hide StagesOk, PacketsOk, ResultsOk, CountersOk, BspFrameOk, ApFrameOk, FlagsOk, MemoryOk, BspStep, ApStep;
    match ch {
      case Bsp(stale, pick) =>
        BspKeepsStages(u, s, stale, pick);
        BspKeepsPackets(u, s, stale, pick);
        BspKeepsResults(u, s, stale, pick);
        BspKeepsCounters(u, s, stale, pick);
        BspKeepsFrames(u, s, stale, pick);
        BspKeepsFlags(u, s, stale, pick);
        BspKeepsMemory(u, s, stale, pick);
      case Ap(stale) =>
        ApKeepsStages(u, s, stale);
        ApKeepsPackets(u, s, stale);
        ApKeepsResults(u, s, stale);
        ApKeepsFrames(u, s, stale);
        ApKeepsFlags(u, s, stale);
        ApKeepsMemory(u, s, stale);
    }
  }

  lemma {:induction false} RunInv(u: Setup, sched: seq<Choice>)
    requires Capable(u)
    ensures Inv(u, Run(u, sched))
  {
    hide Inv, Step;
    if sched == [] {
      StartInv(u);
    } else {
      RunInv(u, sched[..|sched| - 1]);
      StepInv(u, Run(u, sched[..|sched| - 1]), sched[|sched| - 1]);
    }
  }
}
