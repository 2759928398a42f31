# Verified model of the CELL dataflow kernel

CELL is a small x86_64 kernel in which two processors exchange work through lock-free
single-producer single-consumer ring buffers.  This project models its core and proves properties
of it over every run and every input:

- **The ring buffer** (`cell-queue`).  `SpscMachine` has one producer and one consumer taking the
  atomic steps of `push_inner` and `pop_inner` in any order, with indices that wrap at the size of
  the index type (`modulus`, 2^W) and slots taken modulo the capacity (`cap`).  An acquire load of
  the other side's index may return any published value not older than the last one seen and brings
  the releasing thread's view with it; between calls a thread may also work on memory of its own.
  Races are judged by vector clocks.  `SpscIndices` has what holds of every run of every capacity:
  the stored indices and both tests are right for any number of pushes.  `SpscInvariant` and
  `SpscTheorems` show that, while slot numbers are regular (`cap` divides 2^W, or there were at most
  2^W slot writes), no run has a race, an uninitialised read or a lost value and every run is a run
  of the bounded queue of `BoundedFifo`: exactly so when loads are current (linearizability), and
  with missed items or places when they are stale.  `SpscFaults` shows that this condition is exact
  for each kind of fault, and `SpscOrder` that order is kept for ever if and only if `cap` divides
  2^W, and that the destructor hands out exactly what is left.  `SpscObservers` has the exact
  conditions under which the two-load queries are right.  `SpscSync` shows what the queue orders
  beside its values, and `SpscSteps` that stale loads really are possible and change answers, that a
  thread touches only what is its own, and that a report names the item its call began with.
  `SpscRuns` is how runs grow, `SpscCalls` runs whole calls alone, and
  `SpscQueue` is the in-place object, tied to those calls.
- **The frame allocator** (`pmm.rs`).  `BitmapPmm` is the class over arrays of 64-bit words, proved
  against the set-valued allocator of `FrameSets` with the bit facts of `Bits64`; `PmmHistory` has
  the ownership history of arbitrary sequences of calls, on the abstract state and on the object.  The number of words is a parameter (16384
  in the kernel, for 4 GiB).
- **The two-core protocol** (`main.rs`).  `TwoCore` is the state machine of `_start` and `ap_entry`
  over three such queues, the flags and the allocator, with the number of packets, the empty
  packets, the tensor size, the usable frames and the capacities as parameters.  `TwoCoreSafety` has
  its invariant; `TwoCoreTheorems` has frame ownership, freedom from data races on the allocator and
  the frame's bytes, exact reporting and bounded progress; `TwoCoreFairness` has completion of every
  fair endless run and the capacity condition on which it depends; `TwoCoreSteps` has which accesses
  each step makes and shows that without the tensor queue's transfer they would race.
- **Supporting pieces**: `Tensor` (saturating counts, wrapping byte lengths, filling in place),
  `TensorPipeline` (the tensor's way through the real allocator and tensor objects), `Binary32`
  (rounding and the reduction), `Supervisor` (the bounded failure log), `CellCore` (the values in
  transit), `Arithmetic`.  `KernelQueues` applies the ring buffer's theorems to the three queues of
  the kernel.

Findings about the code:

- With a capacity that does not divide 2^W the queue loses order: the push at position 2^W goes to
  slot 0 while slot 0 may still hold the value of position 2^W - (2^W mod CAP)
  (`SpscOrder.OverwritingRunLosesOrder`).  With that one write a live value can be lost, and the
  write or the read of its slot can race; a later pop can read a slot whose value is gone.  No stale
  load is needed.  Each of the four is ruled out in all runs of at most n writes if and only if CAP
  divides 2^W or n is at most 2^W (`SpscFaults.FaultFreeIffRegular`).  Only the contents of the cells
  are affected: the full and empty tests stay right, and pushes and pops at most CAP apart, in runs
  of any length (`SpscIndices.RunRefinesCounter`).  The kernel's capacities 16, 32 and 2 divide 2^64.
- A true `is_full` is right about the whole time between its two loads if and only if fewer than
  2^W - CAP pops were made in between (`SpscObservers.IsFullExactly`); at that number even an empty
  queue can be called full.
- A false `is_empty` is always right about some moment between its two loads.  A true one of a third
  observer always is if and only if the queue has one cell
  (`SpscObservers.TrueIsEmptyIsRightIffSingleCell`): with two cells or more it can be true of a queue
  that is never empty.  Barring a whole turn of the index in between, it is true exactly when the
  values held at the head load, and no others, were popped (`SpscObservers.IsEmptyExactly`).  The
  consumer's own `is_empty` is exact.
- The comments at crates/cell-baremetal/src/pmm.rs:139-145 say that only the bootstrap processor uses
  the allocator, but the application processor frees the tensor frame
  (crates/cell-baremetal/src/main.rs:335).  The model follows the code, and the two are kept apart by
  ownership of the frame (`TwoCoreTheorems.FrameOwnership`), not by the rule in the comments.
- The bootstrap processor collects results only after the tensor is complete, so the protocol
  completes, in every fair run, if and only if the completion queue has room for all packets
  (`TwoCoreFairness.FairRunsCompleteIffRoom`); without the room no run at all completes, and nothing
  in the code checks this.
- The byte length of a tensor is a wrapping product in a release build, so a tensor whose bytes
  cannot be counted in a machine word yields a shorter slice without a panic
  (`Tensor.SliceHasAllElements`); 2^62 elements of four bytes are counted as no bytes at all
  (`Tensor.HugeTensorTakesNoBytes`).

Run `dafny verify dfyconfig.toml` to check the project.

## Model

| member | source | states |
|---|---|---|
| WrappedIndex.IndexSucc | crates/cell-queue/src/lib.rs:61 | the wrapping increment of a stored index is the stored form of the next position |
| WrappedIndex.DistanceForward | crates/cell-queue/src/lib.rs:51 | wrapping subtraction of stored indices recovers every distance below 2^W, in both directions, and equality of indices is equality of such positions |
| WrappedIndex.DistanceModulo | crates/cell-queue/src/lib.rs:51 | wrapping subtraction of any two stored indices is the difference of the positions modulo 2^W |
| WrappedIndex.SlotDistance | crates/cell-queue/src/lib.rs:55 | positions less than CAP apart use different slots and positions CAP apart the same one, while slot numbers are regular |
| WrappedIndex.CollisionAtWrap | crates/cell-queue/src/lib.rs:55 | if CAP leaves remainder r of 2^W, positions 2^W - r and 2^W both use slot 0 |
| WrappedIndex.WindowCoversSlots | crates/cell-queue/src/lib.rs:55 | when CAP divides 2^W every window of CAP positions uses every slot |
| WrappedIndex.InjectiveIffDivides | crates/cell-queue/src/lib.rs:55 | windows of CAP positions of any age have distinct slots if and only if CAP divides 2^W |
| BoundedFifo.AllowedTraceIsFifo | crates/cell-queue/src/lib.rs:43-83 | what the abstract queue promises: pops are a prefix of pushes and at most CAP values are held |
| BoundedFifo.StrictIsLax | crates/cell-queue/src/lib.rs:43-83 | every trace of the exact queue is a trace of the queue with stale views, with the same contents |
| SpscIndices.ProducerKeepsIndices | crates/cell-queue/src/lib.rs:47-63 | every producer step, for any capacity and position, keeps the stored indices in step with the completed pushes; a refusal means CAP ahead of the tail seen, a success that fewer than CAP were held |
| SpscIndices.ConsumerKeepsIndices | crates/cell-queue/src/lib.rs:69-83 | every consumer step keeps them in step with the completed pops; an empty answer means nothing visible, a success that something was held |
| SpscIndices.StepKeepsIndices | crates/cell-queue/src/lib.rs:47-83 | every step of either thread keeps the index invariant |
| SpscIndices.RunIndices | crates/cell-queue/src/lib.rs:47-83 | the index invariant holds after every schedule, for every capacity and any number of pushes |
| SpscIndices.HeadNeverOverruns | crates/cell-queue/src/lib.rs:51-53 | in every run the head is at most CAP ahead of the tail seen, so the equality test for full suffices, and pushes are at most CAP ahead of pops |
| SpscIndices.CurrentAnswersAreExact | crates/cell-queue/src/lib.rs:49-76 | at a step with a current load, after any run of any capacity, a push is refused if and only if CAP values are held and a pop finds nothing if and only if none is |
| SpscIndices.StepCounts | crates/cell-queue/src/lib.rs:47-83 | every report is right about the number of values held, exactly so when its load is current |
| SpscIndices.RunRefinesCounter | crates/cell-queue/src/lib.rs:47-83 | every run of every capacity and length refines the bounded queue once values are ignored; exactly, when loads are current |
| SpscSteps.ProducerLoadsAnyVisible | crates/cell-queue/src/lib.rs:50-53 | the acquire load may return every tail from the last one seen to the latest, and no other, and the test is made on the one returned |
| SpscSteps.ConsumerLoadsAnyVisible | crates/cell-queue/src/lib.rs:72-75 | the same of the head the consumer loads |
| SpscSteps.PushCanMissAPlace | crates/cell-queue/src/lib.rs:50-53 | for every capacity, a run whose last push is refused with a place free, because of a stale tail |
| SpscSteps.PopCanMissAnItem | crates/cell-queue/src/lib.rs:72-75 | for every capacity, a run whose last pop finds nothing with a value held, because of a stale head |
| SpscSteps.OnlyOwnState | crates/cell-queue/src/lib.rs:43-83 | a step of one thread leaves alone what the other has published, seen and is doing |
| SpscSteps.WorkRaisesClock | crates/cell-queue/src/lib.rs:43-83 | an access outside the queue counts on the clock of the thread that makes it |
| SpscSteps.CallHasBegun | crates/cell-queue/src/lib.rs:47-63 | a push under way carries the item of the step that began it, and has been under way since |
| SpscSteps.ReportNamesItsItem | crates/cell-queue/src/lib.rs:47-63 | the item a push reports, accepted or refused, is the one with which that very call began |
| SpscInvariant.ProducerLoadsHead | crates/cell-queue/src/lib.rs:49 | the own-index load keeps the invariant |
| SpscInvariant.ProducerLoadsTail | crates/cell-queue/src/lib.rs:50-53 | whichever tail the acquire load returns, the invariant is kept and the equality test is true exactly when the head is CAP ahead of it |
| SpscInvariant.ProducerWrites | crates/cell-queue/src/lib.rs:55-60 | the slot write is ordered after the read of the previous occupant and overwrites no live value |
| SpscInvariant.ProducerPublishes | crates/cell-queue/src/lib.rs:61 | the head store publishes the write and appends the item to the pushed values |
| SpscInvariant.ConsumerLoadsTail | crates/cell-queue/src/lib.rs:71 | the own-index load keeps the invariant |
| SpscInvariant.ConsumerLoadsHead | crates/cell-queue/src/lib.rs:72-75 | whichever head the acquire load returns, the equality test is true exactly when nothing is visible |
| SpscInvariant.ConsumerReads | crates/cell-queue/src/lib.rs:77-80 | the slot read is ordered after the write of its value and takes exactly the value of that position |
| SpscInvariant.ConsumerPublishes | crates/cell-queue/src/lib.rs:81 | the tail store publishes the read and appends the value to the popped ones |
| SpscTheorems.StepKeepsInv | crates/cell-queue/src/lib.rs:47-83 | every step of either thread, with any visible value loaded, keeps the invariant and extends the pushed or popped values by what it reports |
| SpscTheorems.StepIsAllowed | crates/cell-queue/src/lib.rs:47-83 | every report is one the bounded queue allows at that step, and the exact one when the load is current |
| SpscTheorems.RunInv | crates/cell-queue/src/lib.rs:47-83 | the full invariant holds after every schedule while slot numbers are regular |
| SpscTheorems.RunIsSafe | crates/cell-queue/src/lib.rs:47-83 | over every run with stale loads the head is never more than CAP ahead of the tail seen; while slot numbers are regular there is no race, no read of an empty cell and no value overwritten |
| SpscTheorems.RunRefinesFifo | crates/cell-queue/src/lib.rs:47-83 | while slot numbers are regular every run refines the bounded queue holding the values pushed and not popped; exactly, when loads are current |
| SpscTheorems.RunIsFifo | crates/cell-queue/src/lib.rs:47-83 | pushes and pops are at most CAP apart in every run, and while slot numbers are regular the popped values are a prefix of the pushed ones |
| SpscSync.StepKeepsViewsGrow | crates/cell-queue/src/lib.rs:50-81 | released views only grow, every thread's view covers what it acquired, and no view is ahead of the thread it tells of |
| SpscSync.Synchronises | crates/cell-queue/src/lib.rs:50-81 | in every run of every capacity, a consumer that found a value has acquired the view its push released, and a producer that found a place the view released by the pop that freed it |
| SpscSync.LaterReleases | crates/cell-queue/src/lib.rs:61-81 | what a thread releases after a point of a run covers everything it had done and seen by then, inside the queue or outside |
| SpscSync.Transfers | crates/cell-queue/src/lib.rs:50-81 | between any two points of any run: all the producer had done and seen is known to the consumer once it takes a value whose push was then incomplete, and all the consumer had done and seen to the producer once it fills a place whose pop was then incomplete |
| SpscSync.OutsideWorkIsTransferred | crates/cell-queue/src/lib.rs:50-81 | the last row in numbers: outside work before a push is within the consumer's view after that value's pop, and outside work before a pop within the producer's after the reuse of its place |
| SpscCalls.PushSteps | crates/cell-queue/src/lib.rs:47-63 | which step of a push reports what, and the stored part it leaves |
| SpscCalls.PopSteps | crates/cell-queue/src/lib.rs:69-83 | which step of a pop reports what, and the stored part it leaves |
| SpscCalls.SoloPush | crates/cell-queue/src/lib.rs:47-63 | four undisturbed producer steps (two when full) have the effect of one sequential push |
| SpscCalls.SoloPop | crates/cell-queue/src/lib.rs:69-83 | four undisturbed consumer steps (two when empty) have the effect of one sequential pop |
| SpscOrder.IdleCore | crates/cell-queue/src/lib.rs:49-81 | between calls of any run the stored indices are the wrapped counts and the full and empty tests are exact; while slot numbers are regular, live cells hold the values in order |
| SpscOrder.Conservation | crates/cell-queue/src/lib.rs:118-122 | after any run that ends idle, the destructor pops exactly the values inside and stops: every pushed value is moved out exactly once, and when CAP divides 2^W no cell keeps one |
| SpscOrder.EmptyQueueHasNoValues | crates/cell-queue/src/lib.rs:118-122 | when CAP divides 2^W, an idle queue that has popped everything keeps no value in any cell |
| SpscOrder.OverwritingRunLosesOrder | crates/cell-queue/src/lib.rs:55-61 | a concrete run with current loads that pops the wrong value, for every capacity that does not divide 2^W |
| SpscOrder.FifoIffRegular | crates/cell-queue/src/lib.rs:55-81 | all runs of at most n slot writes keep first-in first-out order if and only if CAP divides 2^W or n is at most 2^W |
| SpscOrder.FifoIffDivides | crates/cell-queue/src/lib.rs:55-81 | all runs keep first-in first-out order if and only if CAP divides 2^W |
| SpscFaults.WriteFirst | crates/cell-queue/src/lib.rs:55-60 | when the next write goes to the cell of the oldest value, it loses that value, and a read of the cell before the write is published is racy |
| SpscFaults.ReadFirst | crates/cell-queue/src/lib.rs:55-81 | in the same queue, a write made after the oldest value was read but before that is published is racy |
| SpscFaults.WrapCollides | crates/cell-queue/src/lib.rs:55-61 | for every capacity that does not divide 2^W a run without stale loads reaches that queue with exactly 2^W writes |
| SpscFaults.ShowFault | crates/cell-queue/src/lib.rs:55-81 | for each kind of fault and every capacity that does not divide 2^W, a run without stale loads and with a single write past 2^W that shows it |
| SpscFaults.FaultFreeIffRegular | crates/cell-queue/src/lib.rs:55-81 | for each kind of fault: no run of at most n slot writes shows it if and only if CAP divides 2^W or n is at most 2^W |
| SpscFaults.SafeIffDivides | crates/cell-queue/src/lib.rs:55-81 | no run has a fault, and no run has any one given kind of fault, if and only if CAP divides 2^W |
| SpscObservers.AnswersModulo | crates/cell-queue/src/lib.rs:85-93 | for every run and observer, both answers are determined by the number held at the head load minus the pops in between, modulo 2^W |
| SpscObservers.IsFullIsSound | crates/cell-queue/src/lib.rs:89-93 | one half of the next row: a true is_full with fewer than 2^W - CAP pops in between means full and unmoved at every moment in between |
| SpscObservers.IsFullExactly | crates/cell-queue/src/lib.rs:89-93 | a true is_full is right about the whole time between the loads if and only if fewer than 2^W - CAP pops were made in between |
| SpscObservers.IsFullAfterManyPops | crates/cell-queue/src/lib.rs:89-93 | with exactly 2^W - CAP pops in between, an empty queue is reported full |
| SpscObservers.RunsGrow | crates/cell-queue/src/lib.rs:85-93 | between the two loads of an observer, completed pushes and pops only grow |
| SpscObservers.ConsumerIsEmptyIsExact | crates/cell-queue/src/lib.rs:107-109 | the consumer's is_empty answers exactly as of its head load, whatever the producer does |
| SpscObservers.IsEmptyExactly | crates/cell-queue/src/lib.rs:85-87 | with fewer than 2^W pops in between, is_empty is true if and only if just the values held at the head load were popped; and exactly when it is right as of the head load |
| SpscObservers.HeldBeforePop | crates/cell-queue/src/lib.rs:85-87 | a pop between the loads leaves a moment with a value held, and in a one-cell queue a moment with none |
| SpscObservers.FalseIsEmptyIsRight | crates/cell-queue/src/lib.rs:85-87 | a false is_empty is right about some moment between the loads, for any observer |
| SpscObservers.SingleCellIsEmptyIsRight | crates/cell-queue/src/lib.rs:85-87 | with one cell a true is_empty is right about some moment between the loads, over runs of any length |
| SpscObservers.ThirdObserverIsEmptyFails | crates/cell-queue/src/lib.rs:85-87 | with two cells or more, a run in which is_empty of a third observer is true of a queue that holds a value throughout |
| SpscObservers.TrueIsEmptyIsRightIffSingleCell | crates/cell-queue/src/lib.rs:85-87 | every true is_empty of a third observer is right about some moment if and only if the queue has one cell |
| SpscQueue.SpscQueue.constructor | crates/cell-queue/src/lib.rs:31-37 | a new queue is empty and valid |
| SpscQueue.SpscQueue.Push | crates/cell-queue/src/lib.rs:47-63 | refused exactly when CAP values are held, otherwise appends; the stored part changes as in the machine's push |
| SpscQueue.SpscQueue.Pop | crates/cell-queue/src/lib.rs:69-83 | takes nothing exactly when empty; the stored part changes as in the machine's pop, and in a valid queue the value is the oldest held |
| SpscQueue.SpscQueue.IsEmpty | crates/cell-queue/src/lib.rs:85-87 | true exactly when nothing is held |
| SpscQueue.SpscQueue.IsFull | crates/cell-queue/src/lib.rs:89-93 | true exactly when CAP values are held |
| SpscQueue.SpscQueue.Drop | crates/cell-queue/src/lib.rs:118-122 | the loop ends with everything pushed also popped |
| SpscQueue.PushKeeps | crates/cell-queue/src/lib.rs:47-63 | a push is refused exactly when full and keeps indices and cells in step with the contents |
| SpscQueue.PopKeeps | crates/cell-queue/src/lib.rs:69-83 | a pop keeps the indices in step, and with intact cells takes the oldest value and keeps the cells in step |
| SpscQueue.ValidCanPop | crates/cell-queue/src/lib.rs:78-80 | while the cells hold the contents, the unchecked read finds a value |
| Bits64.SetBit | crates/cell-baremetal/src/pmm.rs:96 | setting a bit turns on that bit and no other |
| Bits64.ClearBit | crates/cell-baremetal/src/pmm.rs:131 | clearing a bit turns off that bit and no other |
| Bits64.DifferenceBit | crates/cell-baremetal/src/pmm.rs:113 | the available word has exactly the bits usable and not allocated |
| Bits64.LowestBit | crates/cell-baremetal/src/pmm.rs:117 | trailing_zeros of a nonzero word is its lowest set bit |
| Bits64.MaskRoundsDown | crates/cell-baremetal/src/pmm.rs:69 | masking off the lowest k bits rounds the number of a word down to a multiple of 2^k |
| FrameSets.SameFramesSameWords | crates/cell-baremetal/src/pmm.rs:36-42 | bitmaps that denote the same frames are equal word for word |
| FrameSets.MaskIsRoundUp | crates/cell-baremetal/src/pmm.rs:66-69 | the masked word for base + 4095 stands for the rounded-up base that the scan uses |
| FrameSets.ScanRange | crates/cell-baremetal/src/pmm.rs:66-82 | rounding up the base and clipping the end yields exactly the frames all of whose bytes lie in the entry |
| FrameSets.CoveredExactly | crates/cell-baremetal/src/pmm.rs:63-82 | a frame is covered if and only if it is in range and one entry marked usable, whose base + 4095 and base + length do not overflow, reaches from its first byte to its last |
| FrameSets.AddressIsFirstByte | crates/cell-baremetal/src/pmm.rs:19-31 | a frame's address is that of its first byte, and exactly the addresses of its bytes lead back to it |
| FrameSets.CoveredIgnoresOrder | crates/cell-baremetal/src/pmm.rs:62-83 | the frames covered depend only on which entries there are |
| FrameSets.SplitFrameIsExcluded | crates/cell-baremetal/src/pmm.rs:62-83 | a frame split between two usable entries is not usable |
| BitmapPmm.BitmapPmm.constructor | crates/cell-baremetal/src/pmm.rs:45-53 | no frame usable, every bit of the allocation bitmap set |
| BitmapPmm.BitmapPmm.Initialize | crates/cell-baremetal/src/pmm.rs:55-90 | usable and free are exactly the frames that a single usable entry without overflow covers; the counts are their number and max_frame is one past the highest |
| BitmapPmm.BitmapPmm.ScanEntry | crates/cell-baremetal/src/pmm.rs:63-82 | one entry adds the frames it covers, nothing when not usable or overflowing |
| BitmapPmm.BitmapPmm.MarkUsable | crates/cell-baremetal/src/pmm.rs:92-101 | adds one frame to usable and free; out of range or already usable frames change nothing |
| BitmapPmm.BitmapPmm.IsUsable | crates/cell-baremetal/src/pmm.rs:103-105 | membership in the usable set, false out of range |
| BitmapPmm.BitmapPmm.IsAllocated | crates/cell-baremetal/src/pmm.rs:107-109 | membership in the allocation bitmap |
| BitmapPmm.BitmapPmm.Allocate | crates/cell-baremetal/src/pmm.rs:111-124 | takes the smallest free frame, fails exactly when the free counter is zero; the counter never underflows |
| BitmapPmm.BitmapPmm.Free | crates/cell-baremetal/src/pmm.rs:126-134 | succeeds exactly for a usable frame that is taken and otherwise changes nothing |
| BitmapPmm.StateDeterminesRepresentation | crates/cell-baremetal/src/pmm.rs:36-42 | words and counters are a function of the usable and free sets |
| BitmapPmm.InitializeIgnoresOrder | crates/cell-baremetal/src/pmm.rs:55-90 | permuted memory maps give equal words, counts and highest frame |
| BitmapPmm.Marked | crates/cell-baremetal/src/pmm.rs:96-100 | the two bit operations and three counters of marking keep the representation consistent and add one frame |
| BitmapPmm.TakenRepresentation | crates/cell-baremetal/src/pmm.rs:117-121 | taking a free frame keeps the representation consistent; the free counter was positive |
| BitmapPmm.FreedRepresentation | crates/cell-baremetal/src/pmm.rs:131-132 | freeing a taken frame keeps the representation consistent and adds one free frame |
| BitmapPmm.LowestFree | crates/cell-baremetal/src/pmm.rs:112-118 | the lowest available bit of the first word that has one is the smallest free frame |
| PmmHistory.Conservation | crates/cell-baremetal/src/pmm.rs:111-134 | over every history, free and outstanding frames split the usable ones and their numbers add up |
| PmmHistory.Ownership | crates/cell-baremetal/src/pmm.rs:111-134 | an allocation is never an outstanding frame, a release succeeds exactly for an outstanding one, a refused call changes nothing |
| PmmHistory.TakeManyAscends | crates/cell-baremetal/src/pmm.rs:111-124 | k allocations give the k smallest free frames in ascending order |
| PmmHistory.PerformAll | crates/cell-baremetal/src/pmm.rs:111-134 | a whole history on the allocator object replies and ends as the abstract history does |
| PmmHistory.InitializeAndPerform | crates/cell-baremetal/src/pmm.rs:55-134 | from initialize on, over any history on the object, its free counter plus the frames still out is the number of frames the memory map makes usable |
| PmmHistory.BootFrames | crates/cell-baremetal/src/main.rs:154-173 | allocate, free, allocate: the tensor frame is the probe frame, the lowest free one |
| PmmHistory.ProbeCycle | crates/cell-baremetal/src/main.rs:154-166 | releasing the frame just allocated succeeds and restores the state |
| TwoCore.QueueIsLaxFifo | crates/cell-queue/src/lib.rs:43-67 | the protocol's queue moves are exactly those of the queue that the ring buffer refines |
| KernelQueues.KernelQueuesAreSafe | crates/cell-baremetal/src/main.rs:47-49 | every run of each of the kernel's queues, of 16, 32 and 2 places with 64-bit indices, is without fault and a run of the bounded queue the protocol uses |
| TwoCoreSteps.PacketSays | crates/cell-baremetal/src/main.rs:221-224 | packet k has trace k and is empty or says "CELL data" |
| TwoCoreSteps.TensorArrives | crates/cell-baremetal/src/main.rs:173-335 | in every run the tensor reduced and given back is that of the lowest usable frame, trace 100, with the ones it was filled with |
| TwoCoreSafety.AnswerIsResult | crates/cell-baremetal/src/main.rs:298-307 | the answer to a packet carries the packet's context and is a failure exactly when the packet is empty |
| TwoCoreSafety.StepInv | crates/cell-baremetal/src/main.rs:147-347 | every step of either core keeps the protocol invariant |
| TwoCoreSafety.RunInv | crates/cell-baremetal/src/main.rs:147-347 | the protocol invariant holds after every schedule |
| TwoCoreTheorems.FrameOwnership | crates/cell-baremetal/src/main.rs:147-335 | allocator calls never overlap, at most one holder of a frame exists, and the frames out of the allocator are those held |
| TwoCoreTheorems.NoDataRace | crates/cell-baremetal/src/main.rs:173-335 | in every run the cores' accesses to the allocator and to the frame's bytes are ordered, by the tensor queue's release and acquire alone |
| TwoCoreSteps.BspAccessesAreRecorded | crates/cell-baremetal/src/main.rs:147-188 | which plain memory each step of the bootstrap processor accesses, and that an access not ordered after the other core's last one to the same place is a race |
| TwoCoreSteps.ApAccessesAreRecorded | crates/cell-baremetal/src/main.rs:315-335 | the same of the application processor, whose view grows only by what it takes from the tensor queue |
| TwoCoreSteps.RunAccesses | crates/cell-baremetal/src/main.rs:147-335 | in every run the accesses made so far to the allocator and to the frame, and both views, are those of the stages reached |
| TwoCoreSteps.TransferIsNeeded | crates/cell-baremetal/src/main.rs:173-335 | in every run with the tensor filled, an access of the application processor to the frame or the allocator would be a race exactly until it takes the tensor from the queue |
| TwoCoreSteps.BspQueueSteps | crates/cell-baremetal/src/main.rs:217-252 | the bootstrap processor's queue operations are refused or find nothing exactly when the bounded queue, exact or with stale views, allows it |
| TwoCoreSteps.ApQueueSteps | crates/cell-baremetal/src/main.rs:296-318 | the same of the application processor's |
| TwoCoreSteps.FlagLoads | crates/cell-baremetal/src/main.rs:234-237 | the flag load may return any value published, the sum load any not older than what came with the flag, and a false flag keeps the core waiting |
| TwoCoreSteps.MayKeepWaiting | crates/cell-baremetal/src/main.rs:234-236 | in every run the bootstrap processor may go on waiting on a stale flag |
| TwoCoreTheorems.AfterCompletion | crates/cell-baremetal/src/main.rs:230-237 | once the completion flag is published the allocator is as after initialize, and the sum read is the sum stored |
| TwoCoreTheorems.FailuresAreEmpties | crates/cell-baremetal/src/main.rs:298-307 | the failures among the first n results are those of the empty packets, in order |
| TwoCoreTheorems.ReportsAreExact | crates/cell-baremetal/src/main.rs:244-274 | in every run one result per trace arrives in send order, counters add up, and the log holds every failure |
| TwoCoreTheorems.StepSpinsOrAdvances | crates/cell-baremetal/src/main.rs:221-347 | a step changes nothing or lowers the number of steps left, by exactly one unless it halts |
| TwoCoreTheorems.MovesAreBounded | crates/cell-baremetal/src/main.rs:147-347 | no run makes more than 5N + 22 steps that are not spinning, and in one that has not halted those made and those left add up to that |
| TwoCoreTheorems.CompletionTakes | crates/cell-baremetal/src/main.rs:147-347 | a run that collects all reports has made exactly 5N + 22 steps that are not spinning |
| TwoCoreTheorems.NoDeadlock | crates/cell-baremetal/src/main.rs:221-252 | with room for all packets in the completion queue every unfinished reachable state has a step that is not a spin |
| TwoCoreTheorems.CanFinishFrom | crates/cell-baremetal/src/main.rs:221-274 | every run can be extended to a finished one |
| TwoCoreTheorems.HaltsOnlyWithoutMemory | crates/cell-baremetal/src/main.rs:154-173 | an early halt means there was no usable frame; the tensor queue is never found full |
| TwoCoreTheorems.NeverCompletes | crates/cell-baremetal/src/main.rs:234-252 | with more packets than the completion queue holds no run ever sets the completion flag |
| TwoCoreTheorems.CompletesIffRoom | crates/cell-baremetal/src/main.rs:221-274 | some run collects every report if and only if the completion queue has room for all packets |
| TwoCoreFairness.AttendedStepMoves | crates/cell-baremetal/src/main.rs:221-347 | in every unfinished state the core whose turn it is moves with any step whose loads are not stale |
| TwoCoreFairness.AtIsRun | crates/cell-baremetal/src/main.rs:221-347 | the states of an endless run are those of its finite beginnings |
| TwoCoreFairness.FairRunsFinish | crates/cell-baremetal/src/main.rs:221-347 | with room for all packets every fair endless run finishes, from any point on |
| TwoCoreFairness.FairRunsCompleteIffRoom | crates/cell-baremetal/src/main.rs:221-347 | every fair run collects all reports if and only if the completion queue has room for all packets |
| TwoCoreFairness.ShippedRunsReachVerdict | crates/cell-baremetal/src/main.rs:147-281 | every fair run of the shipped configuration reaches that verdict if there is a usable frame, and halts if there is none |
| TwoCoreTheorems.ShippedVerdict | crates/cell-baremetal/src/main.rs:276-281 | every finished run of the shipped configuration has nine successes, one recorded failure of trace 4, and the sum 1024 |
| Tensor.TotalElements | crates/cell-core/src/tensor.rs:62-70 | the loop returns the product of the used dimensions, or 2^64 - 1 when it is larger, or panics when the rank exceeds four |
| Tensor.SaturatingStep | crates/cell-core/src/tensor.rs:66 | capping after every product is capping the exact product once, also when a zero follows saturation |
| Tensor.ShapeProducts | crates/cell-core/src/tensor.rs:33-60 | the shapes of one to four dimensions have the product of the dimensions given |
| Tensor.ByteLengthIs | crates/cell-core/src/tensor.rs:17-24 | the byte length in numbers, for every shape and type: the elements' bytes modulo 2^64, and 2^64 less one element's size when the count saturates |
| Tensor.ProductIgnoresOrder | crates/cell-core/src/tensor.rs:62-70 | the count does not depend on the order of the dimensions |
| Tensor.SliceHasAllElements | crates/cell-core/src/tensor.rs:103-151 | the slice has as many elements as the shape if and only if their bytes can be counted in a word |
| Tensor.FitsOneFrame | crates/cell-baremetal/src/main.rs:173-184 | for every word-sized n, the counted bytes of n F32 elements are at most a frame exactly when n modulo 2^62 is at most 1024 |
| Tensor.HugeTensorTakesNoBytes | crates/cell-core/src/tensor.rs:103-107 | 2^62 F32 elements are counted as zero bytes and give an empty slice |
| Tensor.TensorChunk.constructor | crates/cell-core/src/tensor.rs:96-113 | a writable tensor over the given memory with the wrapping byte length, which is the number of elements times 4, 2 or 1 when that can be counted |
| Tensor.TensorChunk.FillOnes | crates/cell-baremetal/src/main.rs:185-188 | writes 1.0 into every whole element and no byte beyond them |
| Tensor.TensorChunk.Freeze | crates/cell-core/src/tensor.rs:124-134 | the same tensor, now readable |
| Tensor.TensorChunk.AsSliceF32 | crates/cell-core/src/tensor.rs:145-152 | the elements in memory order, or a panic exactly when element size or alignment does not match |
| Tensor.PatternIff | crates/cell-core/src/tensor.rs:145-152 | a 32-bit pattern reads as the natural number n if and only if n is below 2^24 and the pattern is the one that encodes n |
| Tensor.BytesAreDigits | crates/cell-core/src/tensor.rs:145-152 | the bytes of an element are the digits of its pattern, least significant first |
| Tensor.ElementsExactly | crates/cell-core/src/tensor.rs:145-152 | element i of a slice is n if and only if the four bytes from 4i on spell the pattern of n |
| Tensor.PrepareOnes | crates/cell-baremetal/src/main.rs:178-189 | filling and freezing a tensor of n elements gives one that reads back as n ones |
| TensorPipeline.Prepare | crates/cell-baremetal/src/main.rs:154-189 | the lowest free frame is taken and carries a frozen tensor of ones all of whose bytes lie in that frame; nothing when no frame is free |
| TensorPipeline.ReduceAndRelease | crates/cell-baremetal/src/main.rs:322-335 | the address given back by deconstructing the tensor releases the very frame it was built on; the sum is the element count up to 2^24 |
| TensorPipeline.RoundTrip | crates/cell-baremetal/src/main.rs:154-335 | after both cores' turns the allocator's words and counters are as before, the release succeeded and the sum is the element count |
| Tensor.OneDecodes | crates/cell-baremetal/src/main.rs:185 | the four bytes written are the binary32 number one |
| Binary32.RoundIsNearest | crates/cell-baremetal/src/main.rs:326 | rounding yields a representable number and none is nearer |
| Binary32.TiesGoToEven | crates/cell-baremetal/src/main.rs:326 | half-way sums go to the even significand |
| Binary32.FirstGap | crates/cell-baremetal/src/main.rs:326 | the naturals up to 2^24 are representable and 2^24 + 1 is not |
| Binary32.PartialSums | crates/cell-baremetal/src/main.rs:322-329 | every partial sum is representable, none is nearer to the exact sum of the last one and the next value, and a tie goes to the even significand |
| Binary32.Reduce | crates/cell-baremetal/src/main.rs:322-329 | the loop computes the left-to-right rounded sum |
| Binary32.SumIsExact | crates/cell-baremetal/src/main.rs:322-336 | sums of naturals are exact while the total is at most 2^24 |
| Binary32.SumOfOnes | crates/cell-baremetal/src/main.rs:322-336 | the sum of n ones is n up to 2^24 and stays at 2^24 beyond |
| Supervisor.ObserveKeepsFirst | crates/cell-supervisor/src/lib.rs:25-45 | the log of the first CAP failures is kept by one more observation |
| Supervisor.Supervisor.constructor | crates/cell-supervisor/src/lib.rs:18-23 | a new log is empty |
| Supervisor.Supervisor.Observe | crates/cell-supervisor/src/lib.rs:25-45 | answers with the record of a failure, stored or not, and stores it while there is room |
| Supervisor.Supervisor.FailureCount | crates/cell-supervisor/src/lib.rs:47-49 | the smaller of CAP and the number of failures observed |
| Supervisor.Supervisor.FindTrace | crates/cell-supervisor/src/lib.rs:51-57 | the earliest stored failure with the id, nothing exactly when none is stored |

## Left out

- Serial port, its lock and all printing: device output, taken as doing nothing.
- Limine requests, address mapping and processor start-up: the usable frames are a parameter of the protocol, and starting the application processor is one step; the halts for missing responses are not modelled.
- Capacity zero: the assertion in push and pop demands a positive capacity, so `Config.Valid` does too.
- Memory orderings of the queue beyond release and acquire on the two indices, and more than one producer or consumer: outside the queue's contract.
- Observers: their own loads are current and only the producer and the consumer may see stale values, because the two-load questions are about interleaving.
- Views between the cores: only the tensor queue is taken to transfer one (as `SpscSync.Transfers` proves of the ring buffer); the orderings by processor start-up, the flags and the other queues are not needed and not modelled.
- SpscQueue.SpscQueue.Pop: requires that the cell to be read holds a value, which is what the unchecked read demands; it is so in every valid queue, and `SpscFaults.PoppingFails` has the runs in which it is not.
- SpscQueue.SpscQueue.Drop: requires a valid queue, for the same reason.
- Tensor.TensorChunk.constructor: requires a rank of at most four, because a larger one panics in `TotalElements`, which is modelled there.
- `reset_failed_node`, validation tokens and the test harness's worker: single branches.
- Bit patterns of sums in `TENSOR_SUM_BITS`: the stored sum is the number itself.
- Floating-point numbers that are not natural, infinities and subnormals, because the reduction only meets naturals; reading bytes as elements, those of 2^24 and more.
- Tensor typestate and pointers: the state is a flag of one object rather than two types; raw pointers are an array plus an address used for the alignment check; the panicking debug-build multiplication is not modelled, the wrapping one is.
