/**
 * Endless runs.  A schedule is fair when each core is given, again and again, a step whose loads are
 * not stale.  Nothing else is asked: spinning, stale and other steps may come in between at will.
 */
module TwoCoreFairness {
  import opened CellCore
  import opened FrameSets
  import opened Wrappers
  import opened Supervisor
  import opened TwoCore
  import opened TwoCoreSafety
  import opened TwoCoreTheorems

  /** A step of the bootstrap processor that sees the latest published values. */
  predicate BspAttends(ch: Choice) {
    ch.Bsp? && !ch.stale && ch.pick >= 1
  }

  predicate ApAttends(ch: Choice) {
    ch.Ap? && !ch.stale
  }

  ghost predicate BspAttendsAfter(f: nat -> Choice, n: nat) {
    exists m: nat :: n <= m && BspAttends(f(m))
  }

  ghost predicate ApAttendsAfter(f: nat -> Choice, n: nat) {
    exists m: nat :: n <= m && ApAttends(f(m))
  }

  ghost predicate Fair(f: nat -> Choice) {
    forall n: nat :: BspAttendsAfter(f, n) && ApAttendsAfter(f, n)
  }

  /** The state after the first `n` steps. */
  ghost function At(u: Setup, f: nat -> Choice, n: nat): (s: Sys)
    ensures Shaped(u, s)
  {
    if n == 0 then Start(u) else Step(u, At(u, f, n - 1), f(n - 1))
  }

  function Prefix(f: nat -> Choice, n: nat): seq<Choice> {
    seq(n, i requires 0 <= i < n => f(i))
  }

  /** These are the states of the finite runs. */
  lemma {:induction false} AtIsRun(u: Setup, f: nat -> Choice, n: nat)
    ensures At(u, f, n) == Run(u, Prefix(f, n))
  {
    if n > 0 {
      AtIsRun(u, f, n - 1);
      assert Prefix(f, n)[..n - 1] == Prefix(f, n - 1);
    }
  }

  lemma AtInv(u: Setup, f: nat -> Choice, n: nat)
    requires Capable(u)
    ensures Inv(u, At(u, f, n))
  {
    hide Inv, At;
    AtIsRun(u, f, n);
    RunInv(u, Prefix(f, n));
  }

  /** In an unfinished state, the core whose turn it is moves as soon as it attends. */
  lemma AttendedStepMoves(u: Setup, s: Sys, ch: Choice)
    requires Inv(u, s) && RoomForAll(u) && !Finished(s)
    requires if Helpful(s).Bsp? then BspAttends(ch) else ApAttends(ch)
    ensures Step(u, s, ch) != s
  {
    hide CountersOk, BspFrameOk, MemoryOk, Packet, TensorIn, ResultOf, Validate, Logged, TheSum;
  }

  /** Later states are the same or have less left. */
  lemma {:induction false} LeftFalls(u: Setup, f: nat -> Choice, n: nat, m: nat)
    requires Capable(u) && n <= m
    ensures At(u, f, m) == At(u, f, n) || Left(u, At(u, f, m)) < Left(u, At(u, f, n))
    decreases m
  {
    hide Inv, Step, Left;
    if n < m {
      LeftFalls(u, f, n, m - 1);
      AtInv(u, f, m - 1);
      StepSpinsOrAdvances(u, At(u, f, m - 1), f(m - 1));
    }
  }

  /** A fair run does not stay for ever in an unfinished state. */
  lemma FairMoves(u: Setup, f: nat -> Choice, n: nat) returns (m: nat)
    requires RoomForAll(u) && Fair(f) && !Finished(At(u, f, n))
    ensures n < m && Left(u, At(u, f, m)) < Left(u, At(u, f, n))
  {
    hide Inv, At, Step, Left, Finished, Helpful, BspAttends, ApAttends;
    var s := At(u, f, n);
    assert BspAttendsAfter(f, n) && ApAttendsAfter(f, n);
    var k: nat;
    if Helpful(s).Bsp? {
      k :| n <= k && BspAttends(f(k));
    } else {
      k :| n <= k && ApAttends(f(k));
    }
    m := k + 1;
    LeftFalls(u, f, n, k);
    AtInv(u, f, k);
    StepSpinsOrAdvances(u, At(u, f, k), f(k));
    if At(u, f, k) == s {
      AttendedStepMoves(u, s, f(k));
    }
    OneStep(u, f, k);
  }

  lemma OneStep(u: Setup, f: nat -> Choice, n: nat)
    ensures At(u, f, n + 1) == Step(u, At(u, f, n), f(n))
  {
  }

  /** With room for all packets every fair run finishes. */
  lemma {:induction false} FairRunsFinish(u: Setup, f: nat -> Choice, n: nat) returns (m: nat)
    requires RoomForAll(u) && Fair(f)
    ensures n <= m && Finished(At(u, f, m))
    decreases Left(u, At(u, f, n))
  {
    hide At, Fair, Left, Finished;
    if Finished(At(u, f, n)) {
      m := n;
    } else {
      var k := FairMoves(u, f, n);
      m := FairRunsFinish(u, f, k);
    }
  }

  /** Every fair run collects all reports. */
  ghost predicate FairRunsComplete(u: Setup) {
    forall f: nat -> Choice :: Fair(f) ==> exists n: nat :: At(u, f, n).bsp.BDone?
  }

  /** The cores take turns. */
  function Alternating(n: nat): Choice {
    if n % 2 == 0 then Bsp(false, 1) else Ap(false)
  }

  lemma AlternatingIsFair()
    ensures Fair(Alternating)
  {
    forall n: nat
      ensures BspAttendsAfter(Alternating, n) && ApAttendsAfter(Alternating, n)
    {
      var even, odd: nat := 2 * n, 2 * n + 1;
      assert BspAttends(Alternating(even)) && ApAttends(Alternating(odd));
    }
  }

  /**
   * Completion is inevitable under fairness exactly when the completion queue has room for all
   * packets; nothing else about the schedule, the packets or the stale loads matters.
   */
  lemma FairRunsCompleteIffRoom(u: Setup)
    requires u.usable != {} && u.inCap >= 1 && u.tensorCap >= 1
    ensures FairRunsComplete(u) <==> u.Packets() <= u.outCap
  {
    hide Fair, At, Run;
    if u.Packets() <= u.outCap {
      forall f: nat -> Choice | Fair(f)
        ensures exists n: nat :: At(u, f, n).bsp.BDone?
      {
        var n := FairRunsFinish(u, f, 0);
        AtIsRun(u, f, n);
        if At(u, f, n).bsp.BHalted? {
          HaltsOnlyWithoutMemory(u, Prefix(f, n));
        }
        assert At(u, f, n).bsp.BDone?;
      }
    } else {
      AlternatingIsFair();
      forall n: nat
        ensures !At(u, Alternating, n).bsp.BDone?
      {
        AtIsRun(u, Alternating, n);
        NeverCompletes(u, Prefix(Alternating, n));
      }
    }
  }

  /**
   * The shipped configuration reaches its verdict in every fair run on a machine with a usable frame,
   * and halts in every fair run on one without.
   */
  lemma ShippedRunsReachVerdict(usable: set<nat>, f: nat -> Choice) returns (n: nat)
    requires Fair(f)
    ensures var s := At(Shipped(usable), f, n);
            if usable == {} then s.bsp.BHalted?
            else s.bsp.BDone? && s.succeeded == 9 && s.failed == 1
                 && s.records == [FailureRecord(TraceContext(4, 4, 0), 1, "Corrupted payload in AP1")]
                 && s.sumRead == Some(1024) && s.pmm == FreshState(usable)
  {
    hide Fair, At, Run;
    var u := Shipped(usable);
    n := FairRunsFinish(u, f, 0);
    AtIsRun(u, f, n);
    if At(u, f, n).bsp.BHalted? {
      HaltsOnlyWithoutMemory(u, Prefix(f, n));
    } else {
      ShippedVerdict(usable, Prefix(f, n));
      AfterCompletion(u, Prefix(f, n));
    }
  }
}
