/**
 Properties of the frame allocator that relate several calls, or relate a
 call to the abstract set of free frames it manages.
 */
module PmmProperties {
  import opened Outcomes
  import opened Frames
  import opened Bitmaps
  import opened Pmm

  /* ---------------------------------------------------------------------- */
  /* Each operation against the set of free frames                          */
  /* ---------------------------------------------------------------------- */

  /** Marking an area available adds exactly the area's frames to the free set. */
  lemma MarkAreaAsAvailableFrees(a: Allocator, address: nat, length: nat)
    requires AreaFits(|a.frameBitmap|, address, length)
    ensures FreeFrames(MarkAreaAsAvailable(a, address, length)) == FreeFrames(a) + AreaFrames(address, length)
  {
  }

  /** Marking an area in use removes exactly the area's frames from the free set. */
  lemma MarkAreaInUseReserves(a: Allocator, address: nat, length: nat)
    requires AreaFits(|a.frameBitmap|, address, length)
    ensures FreeFrames(MarkAreaInUse(a, address, length)) == FreeFrames(a) - AreaFrames(address, length)
  {
  }

  /**
   Under the hint invariant the forward-only scan is exhaustive: allocation
   fails only when no frame at all is free, and otherwise hands out the
   lowest-numbered free frame of the whole bitmap and removes just that frame
   from the free set.
   */
  lemma AllocateFrameTakesLowestFree(a: Allocator)
    requires Inv(a)
    ensures AllocateFrame(a).frame.None? <==> FreeFrames(a) == {}
    ensures AllocateFrame(a).frame.None? ==> AllocateFrame(a).allocator == a
    ensures AllocateFrame(a).frame.Some? ==>
              var n := AllocateFrame(a).frame.value.number;
              && n in FreeFrames(a)
              && (forall m :: m in FreeFrames(a) ==> n <= m)
              && FreeFrames(AllocateFrame(a).allocator) == FreeFrames(a) - {n}
  {
  }

  /** Deallocating a frame adds exactly that frame to the free set. */
  lemma DeallocateFrameFrees(a: Allocator, frame: Frame)
    requires frame.number < |a.frameBitmap|
    ensures FreeFrames(DeallocateFrame(a, frame)) == FreeFrames(a) + {frame.number}
  {
  }

  /* ---------------------------------------------------------------------- */
  /* Relations between calls                                                */
  /* ---------------------------------------------------------------------- */

  /** Reserving the same area twice gives the same state as reserving it once. */
  lemma MarkAreaInUseIdempotent(a: Allocator, address: nat, length: nat)
    requires AreaFits(|a.frameBitmap|, address, length)
    ensures MarkAreaInUse(MarkAreaInUse(a, address, length), address, length) == MarkAreaInUse(a, address, length)
  {
  }

  /**
   Freeing an area and then reserving it again leaves every frame of the area
   reserved and every other bit as it was; a bitmap whose area was reserved to
   begin with comes back unchanged.
   */
  lemma AvailableThenInUse(a: Allocator, address: nat, length: nat)
    requires AreaFits(|a.frameBitmap|, address, length)
    ensures MarkAreaInUse(MarkAreaAsAvailable(a, address, length), address, length).frameBitmap
              == MarkAreaInUse(a, address, length).frameBitmap
    ensures (forall i :: 0 <= i < |a.frameBitmap| && InArea(address, length, i) ==> a.frameBitmap[i]) ==>
              MarkAreaInUse(MarkAreaAsAvailable(a, address, length), address, length).frameBitmap == a.frameBitmap
  {
  }

  /**
   Giving back a frame just allocated restores the bitmap and leaves the hint
   on that frame, at or above where it was.
   */
  lemma AllocateThenDeallocate(a: Allocator)
    requires AllocateFrame(a).frame.Some?
    ensures var r := AllocateFrame(a);
            var back := DeallocateFrame(r.allocator, r.frame.value);
            && back.frameBitmap == a.frameBitmap
            && back.nextFreeFrame == r.frame.value.number
            && a.nextFreeFrame <= back.nextFreeFrame
  {
  }

  /**
   A frame below the hint is in use; once it is given back, the next
   allocation returns that same frame.
   */
  lemma DeallocateThenAllocate(a: Allocator, frame: Frame)
    requires Inv(a) && frame.number < a.nextFreeFrame
    ensures AllocateFrame(DeallocateFrame(a, frame)).frame == Some(frame)
  {
  }

  /* ---------------------------------------------------------------------- */
  /* Any sequence of calls                                                  */
  /* ---------------------------------------------------------------------- */

  /** One call on the allocator, as serialised by its lock. */
  datatype Op =
    | MarkAvailable(address: nat, length: nat)
    | MarkInUse(address: nat, length: nat)
    | Allocate
    | Deallocate(frame: Frame)

  /** What the call demands of its arguments on a bitmap of `capacity` bits. */
  predicate OpFits(capacity: nat, op: Op) {
    match op
    case MarkAvailable(address, length) => AreaFits(capacity, address, length)
    case MarkInUse(address, length) => AreaFits(capacity, address, length)
    case Allocate => true
    case Deallocate(frame) => frame.number < capacity
  }

  function Step(a: Allocator, op: Op): (r: Allocator)
    requires OpFits(|a.frameBitmap|, op)
    ensures |r.frameBitmap| == |a.frameBitmap|
    ensures Inv(a) ==> Inv(r)
  {
    match op
    case MarkAvailable(address, length) => MarkAreaAsAvailable(a, address, length)
    case MarkInUse(address, length) => MarkAreaInUse(a, address, length)
    case Allocate => AllocateFrame(a).allocator
    case Deallocate(frame) => DeallocateFrame(a, frame)
  }

  /**
   Runs the calls in order. The hint invariant holds after every sequence of
   calls that starts from a state where it holds, such as a fresh allocator.
   */
  function Run(a: Allocator, ops: seq<Op>): (r: Allocator)
    requires forall k :: 0 <= k < |ops| ==> OpFits(|a.frameBitmap|, ops[k])
    ensures |r.frameBitmap| == |a.frameBitmap|
    ensures Inv(a) ==> Inv(r)
    decreases |ops|
  {
    if |ops| == 0 then a else Run(Step(a, ops[0]), ops[1..])
  }

  /* ---------------------------------------------------------------------- */
  /* Initialisation                                                         */
  /* ---------------------------------------------------------------------- */

  /** A second call of `init` always fails, whatever it is given. */
  lemma InitRunsOnce(g: GlobalAllocator, memoryMap: Option<seq<MemoryArea>>, kernelEnd: nat,
                     memoryMap': Option<seq<MemoryArea>>, kernelEnd': nat)
    requires InitFits(g, memoryMap, kernelEnd)
    requires Init(g, memoryMap, kernelEnd).Success?
    ensures Init(Init(g, memoryMap, kernelEnd).value, memoryMap', kernelEnd') == Failure(AlreadyInitialised)
  {
  }

  /**
   Booting a fresh allocator: afterwards the free frames are exactly those the
   memory map reports that lie outside `[0, kernelEnd)`, and the hint
   invariant holds.
   */
  lemma InitFreshAllocator(maxFrames: nat, areas: seq<MemoryArea>, kernelEnd: nat)
    requires AreasFit(Capacity(maxFrames), areas) && AreaFits(Capacity(maxFrames), 0, kernelEnd)
    ensures var r := Init(GlobalAllocator(New(maxFrames), false), Some(areas), kernelEnd);
            && r.Success?
            && Inv(r.value.allocator)
            && FreeFrames(r.value.allocator) ==
                 set i: nat | i < Capacity(maxFrames) && Covered(areas, i) && !InArea(0, kernelEnd, i)
  {
  }
}
