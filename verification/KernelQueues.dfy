/** The kernel's three queues are rings of the machine's word size, so the ring buffer's theorems apply to them. */
module KernelQueues {
  import opened Wrappers
  import opened WrappedIndex
  import opened BoundedFifo
  import opened SpscMachine
  import opened SpscTheorems
  import opened TwoCoreTheorems

  /** The ring that carries a queue of `cap` places: its indices are 64-bit words. */
  function Ring(cap: nat): Config {
    Config(cap, 0x1_0000_0000_0000_0000)
  }

  /**
   * Every run of each of the three queues, of any length and with any stale loads, is without fault
   * and is a run of the bounded queue of the protocol, which holds 16, 32 or 2 values.
   */
  lemma KernelQueuesAreSafe<T>(usable: set<nat>, cap: nat, sched: seq<Choice<T>>)
    requires cap in {Shipped(usable).inCap, Shipped(usable).outCap, Shipped(usable).tensorCap}
    ensures Shipped(usable).inCap == 16 && Shipped(usable).outCap == 32 && Shipped(usable).tensorCap == 2
    ensures Ring(cap).Valid()
    ensures Run(Ring(cap), sched).faults == {}
    ensures Replay(false, cap, Trace(Ring(cap), sched)).Some?
    ensures Popped(Trace(Ring(cap), sched)) <= Pushed(Trace(Ring(cap), sched))
  {
    hide Run, Trace, Writes, Pushed, Popped;
    RunIsSafe(Ring(cap), sched);
    RunRefinesFifo(Ring(cap), sched, false);
  }
}
