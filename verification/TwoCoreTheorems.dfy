/** The properties of whole two-core runs: ownership, reporting, progress and its exact condition. */
module TwoCoreTheorems {
  import opened Wrappers
  import opened CellCore
  import opened FrameSets
  import opened Supervisor
  import opened TwoCore
  import opened TwoCoreSafety
  import Binary32

  // Frame ownership

  /** The frames held by the bootstrap processor, the tensor queue and the application processor. */
  function BspHolds(b: BspPc): seq<nat> {
    match b
    case BPmm(ProbeFree(f), _) => [f]
    case BPrepare(f) => [f]
    case BStartAp(t) => [FromAddress(t.physAddr)]
    case BWaitReady(t) => [FromAddress(t.physAddr)]
    case BSend(t, _) => [FromAddress(t.physAddr)]
    case BPushTensor(t) => [FromAddress(t.physAddr)]
    case _ => []
  }

  function QueueHolds(q: Queue<Parcel>): seq<nat> {
    seq(|q.items|, i requires 0 <= i < |q.items| => FromAddress(q.items[i].tensor.physAddr))
  }

  function ApHolds(a: ApPc): seq<nat> {
    match a
    case AReduce(t) => [FromAddress(t.physAddr)]
    case AStoreSum(t, _) => [FromAddress(t.physAddr)]
    case AFree(t, _) => [FromAddress(t.physAddr)]
    case _ => []
  }

  function Holders(s: Sys): seq<nat> {
    BspHolds(s.bsp) + QueueHolds(s.tensorQ) + ApHolds(s.ap)
  }

  lemma HoldersAreOutstanding(u: Setup, s: Sys)
    requires Inv(u, s)
    ensures !(s.BspInPmm() && s.ApInPmm())
    ensures |Holders(s)| <= 1 && s.pmm.usable - s.pmm.free == set f | f in Holders(s)
  {
    hide MemoryOk, PacketsOk, ResultsOk, CountersOk, FlagsOk;
    if u.usable == {} {
      assert Holders(s) == [];
    } else {
      var low := Lowest(u.usable);
      AddressRoundTrip(low);
      assert u.usable - (u.usable - {low}) == {low};
      if s.pmm == Taken(u) {
        assert Holders(s) == [low];
      } else {
        assert Holders(s) == [];
      }
    }
  }

  /**
   * There is no lock, yet the cores are never both inside the allocator; at any time there is at
   * most one holder of a frame, and the frames out of the allocator are exactly those held.
   */
  lemma FrameOwnership(u: Setup, sched: seq<Choice>)
    requires Capable(u)
    ensures var s := Run(u, sched);
            !(s.BspInPmm() && s.ApInPmm())
            && |Holders(s)| <= 1
            && s.pmm.usable - s.pmm.free == set f | f in Holders(s)
  {
    hide Inv, Run, Holders;
    RunInv(u, sched);
    HoldersAreOutstanding(u, Run(u, sched));
  }

  /**
   * The allocator and the frame's bytes are plain memory.  In every run each core's accesses to them
   * are ordered after the other's, by nothing but the release and acquire of the tensor queue.
   */
  lemma NoDataRace(u: Setup, sched: seq<Choice>)
    requires Capable(u)
    ensures !Run(u, sched).memory.raced
  {
    hide Run;
    RunInv(u, sched);
  }

  /** The completion flag has been published as set. */
  ghost predicate Complete(s: Sys) {
    exists d :: d in s.dones && d.value
  }

  /**
   * Once the flag is set the allocator is back in the state `initialize` left it in, and what the
   * bootstrap processor then loads is the sum that was stored, however stale its loads may be.
   */
  lemma AfterCompletion(u: Setup, sched: seq<Choice>)
    requires Capable(u)
    ensures var s := Run(u, sched);
            (Complete(s) ==> s.pmm == FreshState(u.usable) && u.usable != {})
            && (s.bsp.BReadSum? || s.bsp.BReport? || s.bsp.BDone? ==> Complete(s))
            && (s.bsp.BReport? || s.bsp.BDone? ==> s.sumRead == Some(s.sums[|s.sums| - 1]))
            && (s.sumRead.Some? ==> s.sumRead.value
                                    == if u.elements < Binary32.SIGNIFICANDS then u.elements else Binary32.SIGNIFICANDS)
  {
    hide MemoryOk, PacketsOk, ResultsOk, CountersOk, Run, Binary32.Sum32;
    RunInv(u, sched);
    Binary32.SumOfOnes(seq(u.elements, _ => 1));
  }

  // Reporting

  /** The failure records of the empty packets among the first `n`, in trace order. */
  function EmptyRecords(u: Setup, n: nat): seq<FailureRecord>
    requires n <= u.Packets()
  {
    if n == 0 then []
    else if u.empties[n - 1] then
      EmptyRecords(u, n - 1) + [FailureRecord(TraceContext(n, n, 0), 1, "Corrupted payload in AP1")]
    else EmptyRecords(u, n - 1)
  }

  lemma {:induction false} FailuresAreEmpties(u: Setup, n: nat)
    requires n <= u.Packets()
    ensures Failures(ResultsUpTo(u, n)) == EmptyRecords(u, n)
  {
    if n == 0 {
      assert ResultsUpTo(u, 0) == [];
    } else {
      FailuresAreEmpties(u, n - 1);
      assert ResultsUpTo(u, n)[..n - 1] == ResultsUpTo(u, n - 1);
    }
  }

  /**
   * In every run the bootstrap processor receives one result per trace, in the order sent, failed
   * exactly for the empty packets; the log holds every failure received.
   */
  lemma ReportsAreExact(u: Setup, sched: seq<Choice>)
    requires Capable(u)
    ensures var s := Run(u, sched);
            var n := |s.received|;
            n <= u.Packets()
            && s.received == ResultsUpTo(u, n)
            && s.succeeded + s.failed == n && s.failed == |EmptyRecords(u, n)|
            && s.records == EmptyRecords(u, n)
            && (s.bsp.BDone? ==> n == u.Packets())
    ensures var s := Run(u, sched);
            forall i :: 0 <= i < |s.received| && i < u.Packets() ==>
              s.received[i].context == TraceContext(i + 1, i + 1, 0) && (s.received[i].Failed? <==> u.empties[i])
  {
    hide BspFrameOk, ApFrameOk, FlagsOk, StagesOk, Run;
    RunInv(u, sched);
    var s := Run(u, sched);
    var n := |s.received|;
    assert ResultsUpTo(u, Completions(s))[..n] == ResultsUpTo(u, n);
    FailuresAreEmpties(u, n);
    NoMoreFailuresThanResults(s.received);
  }

  // Progress

  function BspLeft(u: Setup, b: BspPc): nat {
    var n := u.Packets();
    match b
    case BPmm(InitializePmm, inside) => 2 * n + 13 + (if inside then 0 else 1)
    case BPmm(ProbeAllocate, inside) => 2 * n + 11 + (if inside then 0 else 1)
    case BPmm(ProbeFree(_), inside) => 2 * n + 9 + (if inside then 0 else 1)
    case BPmm(TensorAllocate, inside) => 2 * n + 7 + (if inside then 0 else 1)
    case BPrepare(_) => 2 * n + 6
    case BStartAp(_) => 2 * n + 5
    case BWaitReady(_) => 2 * n + 4
    case BSend(_, k) => n + 3 + (if k <= n then n - k + 1 else 0)
    case BPushTensor(_) => n + 3
    case BWaitTensor => n + 2
    case BReadSum => n + 1
    case BReport(k) => if k <= n then n - k else 0
    case BDone => 0
    case BHalted => 0
  }

  function ApLeft(u: Setup, a: ApPc, processed: nat): nat {
    var packets := if processed <= u.Packets() then 3 * (u.Packets() - processed) else 0;
    match a
    case AOff => 3 * u.Packets() + 8
    case ABoot => 3 * u.Packets() + 8
    case ALoop => packets + 7
    case AHave(_) => packets + 6
    case ACount => packets + 5
    case AWaitTensor => 6
    case AReduce(_) => 5
    case AStoreSum(_, _) => 4
    case AFree(_, inside) => if inside then 2 else 3
    case ASetComplete(_) => 1
    case AHalted => 0
  }

  /** The steps the cores have left. */
  function Left(u: Setup, s: Sys): nat {
    BspLeft(u, s.bsp) + ApLeft(u, s.ap, s.processed)
  }

  lemma BspSpinsOrAdvances(u: Setup, s: Sys, stale: bool, pick: nat)
    requires Inv(u, s) && Capable(u)
    ensures var t := BspStep(u, s, stale, pick);
            t == s || (Left(u, t) < Left(u, s) && ((t.bsp.BHalted? && !s.bsp.BHalted?) || Left(u, t) + 1 == Left(u, s)))
  {
    hide MemoryOk, BspFrameOk, ApFrameOk, CountersOk, FlagsOk, Packet, TensorIn, ResultsUpTo, PacketsBetween, Logged, ApLeft;
    assert s.ap.AOff? ==> ApLeft(u, AOff, s.processed) == ApLeft(u, ABoot, s.processed) by {
      OffIsBoot(u, s.processed);
    }
  }

  lemma OffIsBoot(u: Setup, processed: nat)
    ensures ApLeft(u, AOff, processed) == ApLeft(u, ABoot, processed)
  {
  }

  lemma ApSpinsOrAdvances(u: Setup, s: Sys, stale: bool)
    requires Inv(u, s)
    ensures var t := ApStep(u, s, stale);
            t == s || (t.bsp == s.bsp && Left(u, t) + 1 == Left(u, s))
  {
    hide MemoryOk, BspFrameOk, ApFrameOk, CountersOk, FlagsOk, Packet, ResultOf, Validate, BspLeft;
  }

  /** A step either spins, changing nothing, or brings the end nearer by one; only a halt cuts more off. */
  lemma StepSpinsOrAdvances(u: Setup, s: Sys, ch: Choice)
    requires Inv(u, s) && Capable(u)
    ensures Step(u, s, ch) == s || Left(u, Step(u, s, ch)) < Left(u, s)
    ensures var t := Step(u, s, ch);
            t == s || (t.bsp.BHalted? && !s.bsp.BHalted?) || Left(u, t) + 1 == Left(u, s)
  {
    hide Inv, BspStep, ApStep, Left;
    match ch {
      case Bsp(stale, pick) => BspSpinsOrAdvances(u, s, stale, pick);
      case Ap(stale) => ApSpinsOrAdvances(u, s, stale);
    }
  }

  /** The steps of a run that did not spin. */
  ghost function Moves(u: Setup, sched: seq<Choice>): nat {
    if sched == [] then 0
    else
      var before := sched[..|sched| - 1];
      Moves(u, before) + if Run(u, sched) == Run(u, before) then 0 else 1
  }

  /** No run makes more than 5N + 22 steps that are not spinning. */
  lemma {:induction false} MovesAreBounded(u: Setup, sched: seq<Choice>)
    requires Capable(u)
    ensures Moves(u, sched) + Left(u, Run(u, sched)) <= 5 * u.Packets() + 22
    ensures !Run(u, sched).bsp.BHalted? ==> Moves(u, sched) + Left(u, Run(u, sched)) == 5 * u.Packets() + 22
  {
    hide Inv, Step, Left;
    if sched == [] {
      StartLeft(u);
    } else {
      var before := sched[..|sched| - 1];
      MovesAreBounded(u, before);
      RunInv(u, before);
      StepSpinsOrAdvances(u, Run(u, before), sched[|sched| - 1]);
      HaltedStays(u, Run(u, before), sched[|sched| - 1]);
    }
  }

  lemma HaltedStays(u: Setup, s: Sys, ch: Choice)
    requires Shaped(u, s)
    ensures s.bsp.BHalted? ==> Step(u, s, ch).bsp.BHalted?
  {
  }

  /** Every run that collects all reports has made exactly 5N + 22 steps that are not spinning. */
  lemma CompletionTakes(u: Setup, sched: seq<Choice>)
    requires Capable(u) && Run(u, sched).bsp.BDone?
    ensures Moves(u, sched) == 5 * u.Packets() + 22
  {
    hide Run, Moves;
    MovesAreBounded(u, sched);
    RunInv(u, sched);
  }

  lemma StartLeft(u: Setup)
    ensures Left(u, Start(u)) == 5 * u.Packets() + 22
  {
  }

  predicate Finished(s: Sys) {
    s.bsp.BDone? || s.bsp.BHalted?
  }

  /** Every queue has room for what the protocol puts into it before somebody must take it out. */
  ghost predicate RoomForAll(u: Setup) {
    u.inCap >= 1 && u.tensorCap >= 1 && u.Packets() <= u.outCap
  }

  /** A choice that moves on: nothing stale, and the latest published flag. */
  ghost function Helpful(s: Sys): Choice {
    match s.bsp
    case BPmm(_, _) => Bsp(false, 0)
    case BPrepare(_) => Bsp(false, 0)
    case BStartAp(_) => Bsp(false, 0)
    case BWaitReady(_) => if s.apReady then Bsp(false, 0) else Ap(false)
    case BSend(_, _) => if |s.inQ.items| < s.inQ.cap then Bsp(false, 0) else Ap(false)
    case BWaitTensor => if s.ap.AHalted? then Bsp(false, 1) else Ap(false)
    case _ => Bsp(false, 1)
  }

  /** In every reachable state that is not finished, some step is not a spin. */
  lemma NoDeadlock(u: Setup, s: Sys)
    requires Inv(u, s) && RoomForAll(u) && !Finished(s)
    ensures Step(u, s, Helpful(s)) != s
  {
    hide MemoryOk, CountersOk, BspFrameOk, Packet, TensorIn, ResultOf, Validate, Logged, TheSum;
  }

  /** From every reachable state the protocol can be run to its end. */
  lemma {:induction false} CanFinishFrom(u: Setup, sched: seq<Choice>) returns (more: seq<Choice>)
    requires RoomForAll(u)
    ensures sched <= more && Finished(Run(u, more))
    decreases Left(u, Run(u, sched))
  {
    hide Inv, Step, Left, Helpful;
    var s := Run(u, sched);
    if Finished(s) {
      more := sched;
    } else {
      RunInv(u, sched);
      NoDeadlock(u, s);
      StepSpinsOrAdvances(u, s, Helpful(s));
      assert (sched + [Helpful(s)])[..|sched|] == sched;
      more := CanFinishFrom(u, sched + [Helpful(s)]);
    }
  }

  /** It halts early only when there is no usable frame. */
  lemma HaltsOnlyWithoutMemory(u: Setup, sched: seq<Choice>)
    requires Capable(u) && Run(u, sched).bsp.BHalted?
    ensures u.usable == {}
  {
    hide Run;
    RunInv(u, sched);
  }

  // The capacity condition

  /** With more packets than the completion queue holds, neither core gets past the exchange of packets. */
  ghost predicate Stuck(u: Setup, s: Sys) {
    ApStage(s.ap) <= 2 && BspStage(s.bsp) <= 6 && !Complete(s)
  }

  lemma StuckStaysStuck(u: Setup, s: Sys, ch: Choice)
    requires Inv(u, s) && Capable(u) && u.Packets() > u.outCap && Stuck(u, s)
    ensures Stuck(u, Step(u, s, ch))
  {
    hide MemoryOk, CountersOk, BspFrameOk, Packet, TensorIn, ResultOf, Validate, Logged, TheSum;
  }

  lemma {:induction false} NeverCompletes(u: Setup, sched: seq<Choice>)
    requires Capable(u) && u.Packets() > u.outCap
    ensures Stuck(u, Run(u, sched))
  {
    hide Inv, Step, Stuck;
    if sched == [] {
      StartIsStuck(u);
    } else {
      var before := sched[..|sched| - 1];
      NeverCompletes(u, before);
      RunInv(u, before);
      StuckStaysStuck(u, Run(u, before), sched[|sched| - 1]);
    }
  }

  lemma StartIsStuck(u: Setup)
    ensures Stuck(u, Start(u))
  {
  }

  /** Some run collects every report, exactly when the completion queue has room for all of them. */
  lemma CompletesIffRoom(u: Setup)
    requires u.usable != {} && u.inCap >= 1 && u.tensorCap >= 1
    ensures (exists sched :: Run(u, sched).bsp.BDone?) <==> u.Packets() <= u.outCap
  {
    hide Run;
    if u.Packets() <= u.outCap {
      var sched := CanFinishFrom(u, []);
      if Run(u, sched).bsp.BHalted? {
        HaltsOnlyWithoutMemory(u, sched);
      }
      assert Run(u, sched).bsp.BDone?;
    } else {
      forall sched
        ensures !Run(u, sched).bsp.BDone?
      {
        NeverCompletes(u, sched);
      }
    }
  }

  // The shipped configuration

  /** Ten packets of which the fourth is empty, a tensor of 1024 ones, queues of 16, 32 and 2. */
  function Shipped(usable: set<nat>): Setup {
    Setup(usable, [false, false, false, true, false, false, false, false, false, false], 1024, 16, 32, 2)
  }

  /** Every finished run of it reports nine successes, one recorded failure, and the sum 1024. */
  lemma ShippedVerdict(usable: set<nat>, sched: seq<Choice>)
    requires Run(Shipped(usable), sched).bsp.BDone?
    ensures var s := Run(Shipped(usable), sched);
            s.succeeded == 9 && s.failed == 1
            && s.records == [FailureRecord(TraceContext(4, 4, 0), 1, "Corrupted payload in AP1")]
            && s.sumRead == Some(1024)
            && s.pmm == FreshState(usable)
  {
    hide Run;
    var u := Shipped(usable);
    ReportsAreExact(u, sched);
    AfterCompletion(u, sched);
    ShippedRecords(usable);
    RunInv(u, sched);
  }

  lemma ShippedRecords(usable: set<nat>)
    ensures EmptyRecords(Shipped(usable), 10)
            == [FailureRecord(TraceContext(4, 4, 0), 1, "Corrupted payload in AP1")]
  {
    var u := Shipped(usable);
    assert EmptyRecords(u, 1) == EmptyRecords(u, 2) == EmptyRecords(u, 3) == [];
    assert EmptyRecords(u, 4) == EmptyRecords(u, 5) == EmptyRecords(u, 6) == EmptyRecords(u, 7);
    assert EmptyRecords(u, 7) == EmptyRecords(u, 8) == EmptyRecords(u, 9) == EmptyRecords(u, 10);
  }
}
