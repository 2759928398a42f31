/**
 * The two cores as a state machine over three bounded queues, the flags and the frame allocator.
 * The bootstrap processor (Bsp) allocates a tensor frame, starts the application processor (Ap),
 * sends the packets and the tensor, waits for the reduction and only then collects the results.
 *
 * Every allocator call is two steps, so that calls of the two cores could overlap.  Queues are the
 * lax bounded queues that the ring buffer refines under stale loads.
 */
module TwoCore {
  import opened Wrappers
  import opened CellCore
  import opened BoundedFifo
  import opened FrameSets
  import opened Supervisor
  import SpscMachine
  import Binary32

  type View = SpscMachine.View

  // Queues

  /** Capacity, contents, and the number of pushes made in all. */
  datatype Queue<T> = Queue(cap: nat, items: seq<T>, pushes: nat) {
    predicate Valid() {
      |items| <= cap && |items| <= pushes
    }
  }

  /** A push; with a stale view of the other side it may be refused once `cap` pushes were made. */
  function TryPush<T>(q: Queue<T>, x: T, stale: bool): (Queue<T>, bool) {
    if |q.items| >= q.cap || (stale && q.pushes >= q.cap) then (q, false)
    else (Queue(q.cap, q.items + [x], q.pushes + 1), true)
  }

  /** A pop; with a stale view of the other side it may find nothing. */
  function TryPop<T>(q: Queue<T>, stale: bool): (Queue<T>, Option<T>) {
    if q.items == [] || stale then (q, None)
    else (q.(items := q.items[1..]), Some(q.items[0]))
  }

  /** These are the moves of the lax bounded queue, no more and no fewer. */
  lemma QueueIsLaxFifo<T>(q: Queue<T>, x: T)
    requires q.Valid()
    ensures Perform(false, q.cap, q.items, q.pushes, PushOk(x))
            == (if TryPush(q, x, false).1 then Some(TryPush(q, x, false).0.items) else None)
    ensures Perform(false, q.cap, q.items, q.pushes, PushFull(x))
            == (if TryPush(q, x, true).1 then None else Some(q.items))
    ensures q.items != [] ==>
              Perform(false, q.cap, q.items, q.pushes, PopOk(q.items[0])) == Some(TryPop(q, false).0.items)
              && TryPop(q, false).1 == Some(q.items[0])
    ensures Perform(false, q.cap, q.items, q.pushes, PopEmpty) == Some(q.items)
            && TryPop(q, true) == (q, None)
  {
  }

  // Data

  const CELL_DATA: seq<bv8> := [0x43, 0x45, 0x4c, 0x4c, 0x20, 0x64, 0x61, 0x74, 0x61]

  datatype Tensor = Tensor(context: TraceContext, physAddr: nat, values: seq<nat>)

  /** The usable frames, which packets are empty, the tensor size, and the queue capacities. */
  datatype Setup = Setup(usable: set<nat>, empties: seq<bool>, elements: nat,
                         inCap: nat, outCap: nat, tensorCap: nat)
  {
    function Packets(): nat {
      |empties|
    }
  }

  /** The packet with trace number `k`, counted from one. */
  function Packet(u: Setup, k: nat): RawPayload
    requires 1 <= k <= u.Packets()
  {
    RawPayload(TraceContext(k, k, 0), if u.empties[k - 1] then [] else CELL_DATA)
  }

  function TensorIn(u: Setup, frame: nat): Tensor {
    Tensor(TraceContext(100, 100, 0), Address(frame), seq(u.elements, _ => 1))
  }

  /** A tensor in the queue, with the view its sender released with it. */
  datatype Parcel = Parcel(tensor: Tensor, view: View)

  // Memory that both cores use without atomics

  /**
   * Each core's view (`p` counts accesses of the bootstrap processor, `c` of the application
   * processor), the last access of each core to the allocator and to the frame's bytes, and whether
   * some access was not ordered after the other core's last one.
   */
  datatype Memory = Memory(bsp: View, ap: View, pmm: View, bytes: View, raced: bool) {
    function BspUsesPmm(): Memory {
      var now := bsp.p + 1;
      this.(bsp := bsp.(p := now), pmm := pmm.(p := now), raced := raced || pmm.c > bsp.c)
    }

    function BspUsesBytes(): Memory {
      var now := bsp.p + 1;
      this.(bsp := bsp.(p := now), bytes := bytes.(p := now), raced := raced || bytes.c > bsp.c)
    }

    function ApUsesPmm(): Memory {
      var now := ap.c + 1;
      this.(ap := ap.(c := now), pmm := pmm.(c := now), raced := raced || pmm.p > ap.p)
    }

    function ApUsesBytes(): Memory {
      var now := ap.c + 1;
      this.(ap := ap.(c := now), bytes := bytes.(c := now), raced := raced || bytes.p > ap.p)
    }

    function ApReceives(v: View): Memory {
      this.(ap := ap.Join(v))
    }
  }

  // The machine

  datatype PmmCall = InitializePmm | ProbeAllocate | ProbeFree(frame: nat) | TensorAllocate

  datatype BspPc =
    | BPmm(call: PmmCall, inside: bool)
    | BPrepare(frame: nat)
    | BStartAp(tensor: Tensor)
    | BWaitReady(tensor: Tensor)
    | BSend(tensor: Tensor, trace: nat)
    | BPushTensor(tensor: Tensor)
    | BWaitTensor
    | BReadSum
    | BReport(reports: nat)
    | BDone
    | BHalted

  datatype ApPc =
    | AOff
    | ABoot
    | ALoop
    | AHave(result: WorkResult)
    | ACount
    | AWaitTensor
    | AReduce(tensor: Tensor)
    | AStoreSum(tensor: Tensor, sum: nat)
    | AFree(tensor: Tensor, inside: bool)
    | ASetComplete(returned: bool)
    | AHalted

  /** A published value of the completion flag, with the index of the sum its publisher had stored. */
  datatype Done = Done(value: bool, sum: nat)

  datatype Sys = Sys(
    bsp: BspPc, ap: ApPc,
    inQ: Queue<RawPayload>, outQ: Queue<WorkResult>, tensorQ: Queue<Parcel>,
    apReady: bool, processed: nat,
    sums: seq<nat>, dones: seq<Done>, seenSum: nat,
    pmm: PmmState, memory: Memory,
    sumRead: Option<nat>,
    received: seq<WorkResult>, succeeded: nat, failed: nat, records: seq<FailureRecord>)
  {
    /** A core is inside an allocator call. */
    predicate BspInPmm() {
      bsp.BPmm? && bsp.inside
    }

    predicate ApInPmm() {
      ap.AFree? && ap.inside
    }
  }

  /** Which core moves; whether its queue operation or flag load is stale; which published value it loads. */
  datatype Choice = Bsp(stale: bool, pick: nat) | Ap(stale: bool)

  function Start(u: Setup): Sys {
    Sys(BPmm(InitializePmm, false), AOff,
        Queue(u.inCap, [], 0), Queue(u.outCap, [], 0), Queue(u.tensorCap, [], 0),
        false, 0, [0], [Done(false, 0)], 0, PmmState({}, {}),
        Memory(SpscMachine.View(0, 0), SpscMachine.View(0, 0), SpscMachine.View(0, 0), SpscMachine.View(0, 0), false), None, [], 0, 0, [])
  }

  function NextSend(u: Setup, t: Tensor, sent: nat): BspPc {
    if sent < u.Packets() then BSend(t, sent + 1) else BPushTensor(t)
  }

  function NextReport(u: Setup, reports: nat): BspPc {
    if reports < u.Packets() then BReport(reports) else BDone
  }

  ghost function BspPmmReturn(u: Setup, s: Sys, call: PmmCall): Sys {
    match call
    case InitializePmm => s.(pmm := FreshState(u.usable), bsp := BPmm(ProbeAllocate, false))
    case ProbeAllocate =>
      var (p, f) := Allocate(s.pmm);
      s.(pmm := p, bsp := if f.None? then BHalted else BPmm(ProbeFree(f.value), false))
    case ProbeFree(frame) =>
      var (p, freed) := Release(s.pmm, frame);
      s.(pmm := p, bsp := if freed then BPmm(TensorAllocate, false) else BHalted)
    case TensorAllocate =>
      var (p, f) := Allocate(s.pmm);
      s.(pmm := p, bsp := if f.None? then BHalted else BPrepare(f.value))
  }

  function Collect(u: Setup, s: Sys, q: Queue<WorkResult>, r: WorkResult, reports: nat): Sys {
    s.(outQ := q, received := s.received + [r],
       succeeded := s.succeeded + (if r.Completed? then 1 else 0),
       failed := s.failed + (if r.Failed? then 1 else 0),
       records := Logged(u.Packets(), s.records, r),
       bsp := NextReport(u, reports + 1))
  }

  ghost predicate Shaped(u: Setup, s: Sys) {
    |s.sums| > 0 && |s.dones| > 0 && s.seenSum < |s.sums|
    && (forall i :: 0 <= i < |s.dones| ==> s.dones[i].sum < |s.sums|)
    && (s.bsp.BSend? ==> 1 <= s.bsp.trace <= u.Packets())
  }

  ghost function BspStep(u: Setup, s: Sys, stale: bool, pick: nat): (t: Sys)
    requires Shaped(u, s)
    ensures Shaped(u, t)
  {
    match s.bsp
    case BPmm(call, inside) => if inside then BspPmmReturn(u, s.(memory := s.memory.BspUsesPmm()), call) else s.(bsp := BPmm(call, true))
    case BPrepare(frame) => s.(memory := s.memory.BspUsesBytes(), bsp := BStartAp(TensorIn(u, frame)))
    case BStartAp(t) => s.(ap := ABoot, bsp := BWaitReady(t))
    case BWaitReady(t) => if s.apReady && !stale then s.(bsp := NextSend(u, t, 0)) else s
    case BSend(t, k) =>
      var (q, ok) := TryPush(s.inQ, Packet(u, k), stale);
      if ok then s.(inQ := q, bsp := NextSend(u, t, k)) else s
    case BPushTensor(t) =>
      var (q, ok) := TryPush(s.tensorQ, Parcel(t, s.memory.bsp), stale);
      s.(tensorQ := q, bsp := if ok then BWaitTensor else BHalted)
    case BWaitTensor =>
      var d := s.dones[SpscMachine.Visible(0, |s.dones| - 1, pick)];
      if d.value then s.(bsp := BReadSum, seenSum := if s.seenSum < d.sum then d.sum else s.seenSum) else s
    case BReadSum =>
      s.(sumRead := Some(s.sums[SpscMachine.Visible(s.seenSum, |s.sums| - 1, pick)]), bsp := NextReport(u, 0))
    case BReport(k) =>
      var (q, r) := TryPop(s.outQ, stale);
      if r.Some? then Collect(u, s, q, r.value, k) else s
    case BDone => s
    case BHalted => s
  }

  ghost function ApStep(u: Setup, s: Sys, stale: bool): (t: Sys)
    requires Shaped(u, s)
    ensures Shaped(u, t)
  {
    match s.ap
    case AOff => s
    case ABoot => s.(apReady := true, ap := ALoop)
    case ALoop =>
      if s.processed < u.Packets() then
        var (q, raw) := TryPop(s.inQ, stale);
        if raw.Some? then s.(inQ := q, ap := AHave(Validate(raw.value))) else s
      else s.(ap := AWaitTensor)
    case AHave(r) =>
      var (q, ok) := TryPush(s.outQ, r, stale);
      if ok then s.(outQ := q, ap := ACount) else s
    case ACount => s.(processed := s.processed + 1, ap := ALoop)
    case AWaitTensor =>
      var (q, got) := TryPop(s.tensorQ, stale);
      if got.Some? then
        s.(tensorQ := q, memory := s.memory.ApReceives(got.value.view), ap := AReduce(got.value.tensor))
      else s
    case AReduce(t) => s.(memory := s.memory.ApUsesBytes(), ap := AStoreSum(t, Binary32.Sum32(t.values)))
    case AStoreSum(t, sum) => s.(sums := s.sums + [sum], ap := AFree(t, false))
    case AFree(t, inside) =>
      if inside then
        var (p, returned) := Release(s.pmm, FromAddress(t.physAddr));
        s.(pmm := p, memory := s.memory.ApUsesPmm(), ap := ASetComplete(returned))
      else s.(ap := AFree(t, true))
    case ASetComplete(_) => s.(dones := s.dones + [Done(true, |s.sums| - 1)], ap := AHalted)
    case AHalted => s
  }

  ghost function Step(u: Setup, s: Sys, ch: Choice): (t: Sys)
    requires Shaped(u, s)
    ensures Shaped(u, t)
  {
    match ch
    case Bsp(stale, pick) => BspStep(u, s, stale, pick)
    case Ap(stale) => ApStep(u, s, stale)
  }

  /** The state after a schedule. */
  ghost function Run(u: Setup, sched: seq<Choice>): (s: Sys)
    ensures Shaped(u, s)
  {
    if sched == [] then Start(u) else Step(u, Run(u, sched[..|sched| - 1]), sched[|sched| - 1])
  }
}
