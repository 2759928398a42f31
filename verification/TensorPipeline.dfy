/**
 * The tensor's way through the kernel on the real objects: the bootstrap processor takes a frame
 * and fills it, the application processor reads it, sums it, and gives the frame back.
 */
module TensorPipeline {
  import opened Wrappers
  import opened CellCore
  import opened FrameSets
  import opened Tensor
  import Binary32
  import PmmHistory
  import B = BitmapPmm

  /** A frozen tensor of ones built on a frame. */
  ghost predicate OnesOn(tensor: TensorChunk, frame: nat)
    reads tensor, tensor.memory
  {
    tensor.Valid() && tensor.ready && tensor.dtype == F32 && tensor.virtPtr % 4 == 0
    && tensor.physAddr == Address(frame)
    && ReadsAsOnes(Elements(tensor.memory[..tensor.byteLen]))
  }

  /** From the probe allocation to the frozen tensor; nothing when there is no usable frame left. */
  method Prepare(pmm: B.BitmapPmm, n: nat, virtPtr: nat, bytes: array<bv8>) returns (tensor: TensorChunk?)
    requires pmm.Valid() && n <= 1024 && bytes.Length == FRAME_SIZE && virtPtr % 4 == 0
    modifies pmm, pmm.allocatedMap, bytes
    ensures pmm.Valid() && pmm.State() == Allocate(old(pmm.State())).0
    ensures tensor == null <==> old(pmm.State()).free == {}
    ensures tensor != null ==> fresh(tensor) && tensor.memory == bytes && tensor.byteLen == 4 * n
                               && OnesOn(tensor, Lowest(old(pmm.State()).free))
    ensures tensor != null ==> tensor.context == TraceContext(100, 100, 0) && tensor.virtPtr == virtPtr
    ensures tensor != null ==>
              forall a :: tensor.physAddr <= a < tensor.physAddr + tensor.byteLen ==>
                FrameByte(Lowest(old(pmm.State()).free), a)
  {
    var probe, frame := PmmHistory.BootFrames(pmm);
    if frame == None {
      return null;
    }
    tensor := PrepareOnes(TraceContext(100, 100, 0), Address(frame.value), virtPtr, n, bytes);
    AddressIsFirstByte(frame.value, Address(frame.value));
  }

  /**
   * The application processor's turn: the sum of the elements, and the release of the frame that
   * the tensor's address denotes, which is the frame it was built on.
   */
  method ReduceAndRelease(tensor: TensorChunk, pmm: B.BitmapPmm, ghost frame: nat)
    returns (sum: nat, count: nat, returned: bool)
    requires pmm.Valid() && OnesOn(tensor, frame)
    modifies pmm, pmm.allocatedMap
    ensures pmm.Valid() && (pmm.State(), returned) == Release(old(pmm.State()), frame)
    ensures count == tensor.byteLen / 4
    ensures sum == if count < Binary32.SIGNIFICANDS then count else Binary32.SIGNIFICANDS
  {
    hide Elements, Product, Saturated, Binary32.Sum32, Binary32.Round, B.Consistent, B.StateOf;
    var slice := tensor.AsSliceF32();
    var values := seq(|slice.value|, i requires 0 <= i < |slice.value| => slice.value[i].value);
    count := |values|;
    sum := Binary32.Reduce(values);
    Binary32.SumOfOnes(values);
    var context, physAddr := tensor.Deconstruct();
    AddressRoundTrip(frame);
    returned := pmm.Free(FromAddress(physAddr));
  }

  /** Both turns: the sum is the number of elements, and the allocator is as it was, word for word. */
  method RoundTrip(pmm: B.BitmapPmm, n: nat, virtPtr: nat, bytes: array<bv8>) returns (done: bool, sum: nat)
    requires pmm.Valid() && n <= 1024 && bytes.Length == FRAME_SIZE && virtPtr % 4 == 0
    modifies pmm, pmm.allocatedMap, bytes
    ensures pmm.Valid() && pmm.State() == old(pmm.State()) && pmm.Stats() == old(pmm.Stats())
    ensures pmm.usableMap[..] == old(pmm.usableMap[..]) && pmm.allocatedMap[..] == old(pmm.allocatedMap[..])
    ensures done <==> old(pmm.State()).free != {}
    ensures done ==> sum == n
  {
    var tensor := Prepare(pmm, n, virtPtr, bytes);
    if tensor == null {
      SameRepresentation(pmm);
      return false, 0;
    }
    ghost var before := old(pmm.State());
    PmmHistory.ProbeCycle(before);
    var count;
    sum, count, done := ReduceAndRelease(tensor, pmm, Lowest(before.free));
    SameRepresentation(pmm);
  }

  /** An allocator back in an earlier state holds the words and the counts it held then. */
  twostate lemma SameRepresentation(pmm: B.BitmapPmm)
    requires old(pmm.Valid()) && pmm.Valid() && pmm.State() == old(pmm.State())
    ensures pmm.usableMap[..] == old(pmm.usableMap[..]) && pmm.allocatedMap[..] == old(pmm.allocatedMap[..])
    ensures pmm.Stats() == old(pmm.Stats())
  {
    hide B.Consistent, B.StateOf;
    B.StateDeterminesRepresentation(pmm.usableMap[..], pmm.allocatedMap[..], pmm.Stats(),
                                    old(pmm.usableMap[..]), old(pmm.allocatedMap[..]), old(pmm.Stats()));
  }
}
