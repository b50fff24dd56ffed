/**
 The bitmap physical frame allocator and its boot-time initialisation.

 State is a reservation bitmap (one bit per frame, `true` = reserved or in
 use) and a search hint `nextFreeFrame`. The central invariant `Inv` says that
 every frame below the hint is reserved; it is what lets `AllocateFrame` scan
 forward from the hint only and still find the lowest free frame.
 */
module Pmm {
  import opened Outcomes
  import opened Frames
  import opened Bitmaps

  /** Width of one bitmap word: the bitmap is an array of `u64`. */
  const BITS_PER_ITEM: nat := 64

  datatype Allocator = Allocator(frameBitmap: seq<bool>, nextFreeFrame: nat)

  /** Result of one `allocate_frame` call: the new state and the frame handed out, if any. */
  datatype Allocation = Allocation(allocator: Allocator, frame: Option<Frame>)

  /**
   Number of bits in a bitmap of `maxFrames / BITS_PER_ITEM` whole words: the
   integer division drops any remainder of `maxFrames`.
   */
  function Capacity(maxFrames: nat): (c: nat)
    ensures c <= maxFrames < c + BITS_PER_ITEM
    ensures c % BITS_PER_ITEM == 0
  {
    (maxFrames / BITS_PER_ITEM) * BITS_PER_ITEM
  }

  /** The search hint never passes the end of the bitmap and every frame below it is reserved. */
  predicate Inv(a: Allocator) {
    && a.nextFreeFrame <= |a.frameBitmap|
    && forall i :: 0 <= i < a.nextFreeFrame ==> a.frameBitmap[i]
  }

  /** The frames whose bit is clear: the abstract state the allocator manages. */
  function FreeFrames(a: Allocator): set<nat> {
    set i: nat | i < |a.frameBitmap| && !a.frameBitmap[i]
  }

  /** The frames an area covers, as a set. */
  function AreaFrames(address: nat, length: nat): set<nat>
    requires AreaComputable(address, length)
  {
    set i: nat | i <= AreaEnd(address, length) && InArea(address, length, i)
  }

  /**
   What marking an area demands of its caller: `address + length - 1` is
   computable in `usize`, and every frame the area covers has a bit.
   */
  predicate AreaFits(capacity: nat, address: nat, length: nat) {
    && AreaComputable(address, length)
    && (AreaStart(address) <= AreaEnd(address, length) ==> AreaEnd(address, length) < capacity)
  }

  /** A fresh allocator: every frame reserved, hint at frame 0. */
  function New(maxFrames: nat): (a: Allocator)
    ensures |a.frameBitmap| == Capacity(maxFrames)
    ensures forall i :: 0 <= i < |a.frameBitmap| ==> a.frameBitmap[i]
    ensures a.nextFreeFrame == 0
    ensures FreeFrames(a) == {}
    ensures Inv(a)
  {
    Allocator(seq(Capacity(maxFrames), _ => true), 0)
  }

  /**
   Frees every frame the area covers. The hint retreats to the area's first
   frame when it lay above it, so that no free frame sits below the hint.
   */
  function MarkAreaAsAvailable(a: Allocator, address: nat, length: nat): (r: Allocator)
    requires AreaFits(|a.frameBitmap|, address, length)
    ensures |r.frameBitmap| == |a.frameBitmap|
    ensures forall i :: 0 <= i < |a.frameBitmap| && InArea(address, length, i) ==> !r.frameBitmap[i]
    ensures forall i :: 0 <= i < |a.frameBitmap| && !InArea(address, length, i) ==> r.frameBitmap[i] == a.frameBitmap[i]
    ensures r.nextFreeFrame <= a.nextFreeFrame && r.nextFreeFrame <= AreaStart(address)
    ensures r.nextFreeFrame == a.nextFreeFrame || r.nextFreeFrame == AreaStart(address)
    ensures Inv(a) ==> Inv(r)
  {
    var start := AreaStart(address);
    var end := AreaEnd(address, length);
    var hint := if a.nextFreeFrame > start then start else a.nextFreeFrame;
    Allocator(SetRange(a.frameBitmap, start, end, false), hint)
  }

  /**
   Reserves every frame the area covers. A hint that pointed into the area
   moves to the frame just past it; any other hint stays where it was.
   */
  function MarkAreaInUse(a: Allocator, address: nat, length: nat): (r: Allocator)
    requires AreaFits(|a.frameBitmap|, address, length)
    ensures |r.frameBitmap| == |a.frameBitmap|
    ensures forall i :: 0 <= i < |a.frameBitmap| && InArea(address, length, i) ==> r.frameBitmap[i]
    ensures forall i :: 0 <= i < |a.frameBitmap| && !InArea(address, length, i) ==> r.frameBitmap[i] == a.frameBitmap[i]
    ensures InArea(address, length, a.nextFreeFrame) ==> r.nextFreeFrame == AreaEnd(address, length) + 1
    ensures !InArea(address, length, a.nextFreeFrame) ==> r.nextFreeFrame == a.nextFreeFrame
    ensures !InArea(address, length, r.nextFreeFrame)
    ensures Inv(a) ==> Inv(r)
  {
    var start := AreaStart(address);
    var end := AreaEnd(address, length);
    var hint := if a.nextFreeFrame >= start && a.nextFreeFrame <= end then end + 1 else a.nextFreeFrame;
    Allocator(SetRange(a.frameBitmap, start, end, true), hint)
  }

  /** Hands out frame `n`: reserves its bit and moves the hint just past it. */
  function Claim(a: Allocator, n: nat): Allocation
    requires n < |a.frameBitmap|
  {
    Allocation(Allocator(a.frameBitmap[n := true], n + 1), Some(Frame(n)))
  }

  /**
   Returns the lowest free frame at or above the hint, reserving it and moving
   the hint just past it; returns `None`, changing nothing, when every frame
   from the hint to the end of the bitmap is reserved.

   The fast path tests the hint's own bit only when the hint is inside the
   bitmap; at the end of the bitmap the search for a clear bit finds nothing.
   */
  function AllocateFrame(a: Allocator): (r: Allocation)
    ensures r.frame.Some? ==> IsFirstUnset(a.frameBitmap, a.nextFreeFrame, r.frame.value.number)
    ensures r.frame.Some? ==> |r.allocator.frameBitmap| == |a.frameBitmap|
    ensures r.frame.Some? ==> !a.frameBitmap[r.frame.value.number] && r.allocator.frameBitmap[r.frame.value.number]
    ensures r.frame.Some? ==> forall i :: 0 <= i < |a.frameBitmap| && i != r.frame.value.number ==>
                                r.allocator.frameBitmap[i] == a.frameBitmap[i]
    ensures r.frame.Some? ==> r.allocator.nextFreeFrame == r.frame.value.number + 1
    ensures r.frame.None? <==> AllSetFrom(a.frameBitmap, a.nextFreeFrame)
    ensures r.frame.None? ==> r.allocator == a
    ensures Inv(a) ==> Inv(r.allocator)
  {
    var freeFrame :=
      if a.nextFreeFrame < |a.frameBitmap| && a.frameBitmap[a.nextFreeFrame] == false then Some(a.nextFreeFrame)
      else FirstUnset(a.frameBitmap, a.nextFreeFrame);
    match freeFrame
    case Some(number) => Claim(a, number)
    case None => Allocation(a, None)
  }

  /**
   `allocate_frame` exactly as written: the hint's bit is read before any
   search, so the hint must index the bitmap. Wherever that holds it agrees
   with `AllocateFrame`.
   */
  function AllocateFrameAsWritten(a: Allocator): (r: Allocation)
    requires a.nextFreeFrame < |a.frameBitmap|
    ensures r == AllocateFrame(a)
  {
    var freeFrame :=
      if a.frameBitmap[a.nextFreeFrame] == false then Some(a.nextFreeFrame)
      else FirstUnset(a.frameBitmap, a.nextFreeFrame);
    match freeFrame
    case Some(number) => Claim(a, number)
    case None => Allocation(a, None)
  }

  /**
   Frees frame `frame`: clears its bit alone and lowers the hint to it when
   the hint lay above it.
   */
  function DeallocateFrame(a: Allocator, frame: Frame): (r: Allocator)
    requires frame.number < |a.frameBitmap|
    ensures |r.frameBitmap| == |a.frameBitmap| && !r.frameBitmap[frame.number]
    ensures forall i :: 0 <= i < |a.frameBitmap| && i != frame.number ==> r.frameBitmap[i] == a.frameBitmap[i]
    ensures r.nextFreeFrame <= a.nextFreeFrame && r.nextFreeFrame <= frame.number
    ensures r.nextFreeFrame == a.nextFreeFrame || r.nextFreeFrame == frame.number
    ensures Inv(a) ==> Inv(r)
  {
    var hint := if frame.number < a.nextFreeFrame then frame.number else a.nextFreeFrame;
    Allocator(a.frameBitmap[frame.number := false], hint)
  }

  /* ---------------------------------------------------------------------- */
  /* Boot-time initialisation                                               */
  /* ---------------------------------------------------------------------- */

  /** One RAM region of the boot memory map: 64-bit base address and length. */
  datatype MemoryArea = MemoryArea(baseAddr: nat, length: nat)

  /** The fatal conditions of `init`. */
  datatype InitError =
    | AlreadyInitialised   // the run-once guard fired
    | MissingMemoryMap     // the boot information has no memory map

  /** The global allocator together with the run-once guard of `init`. */
  datatype GlobalAllocator = GlobalAllocator(allocator: Allocator, initialised: bool)

  /** Every area of the map can be marked available on a bitmap of `capacity` bits. */
  predicate AreasFit(capacity: nat, areas: seq<MemoryArea>) {
    forall k :: 0 <= k < |areas| ==> AreaFits(capacity, areas[k].baseAddr, areas[k].length)
  }

  /** Frame `i` lies in some area of the map. */
  predicate Covered(areas: seq<MemoryArea>, i: nat) {
    exists k :: 0 <= k < |areas| && InArea(areas[k].baseAddr, areas[k].length, i)
  }

  /**
   The loop of `init` over the memory map: marks each area available, in map
   order. The `u64` fields convert to `usize` unchanged on x86_64.
   */
  function MarkAreasAvailable(a: Allocator, areas: seq<MemoryArea>): (r: Allocator)
    requires AreasFit(|a.frameBitmap|, areas)
    ensures |r.frameBitmap| == |a.frameBitmap|
    ensures forall i :: 0 <= i < |a.frameBitmap| ==> r.frameBitmap[i] == (a.frameBitmap[i] && !Covered(areas, i))
    ensures r.nextFreeFrame <= a.nextFreeFrame
    ensures forall k :: 0 <= k < |areas| ==> r.nextFreeFrame <= AreaStart(areas[k].baseAddr)
    ensures r.nextFreeFrame == a.nextFreeFrame || exists k :: 0 <= k < |areas| && r.nextFreeFrame == AreaStart(areas[k].baseAddr)
    ensures Inv(a) ==> Inv(r)
    decreases |areas|
  {
    if |areas| == 0 then a
    else
      var first := MarkAreaAsAvailable(a, areas[0].baseAddr, areas[0].length);
      MarkAreasAvailable(first, areas[1..])
  }

  /** What `init` demands once the guard and the memory map have passed. */
  predicate InitFits(g: GlobalAllocator, memoryMap: Option<seq<MemoryArea>>, kernelEnd: nat) {
    !g.initialised && memoryMap.Some? ==>
      && AreasFit(|g.allocator.frameBitmap|, memoryMap.value)
      && AreaFits(|g.allocator.frameBitmap|, 0, kernelEnd)
  }

  /**
   `init`: fails on a second call and on a missing memory map; otherwise
   frees every area of the map and then reserves `[0, kernelEnd)`, so that
   the kernel's own frames stay reserved whatever the map reports. The hint
   ends where the map left it, or just past the kernel's frames when the map
   left it among them.
   */
  function Init(g: GlobalAllocator, memoryMap: Option<seq<MemoryArea>>, kernelEnd: nat): (r: Result<GlobalAllocator, InitError>)
    requires InitFits(g, memoryMap, kernelEnd)
    ensures g.initialised <==> r == Failure(AlreadyInitialised)
    ensures (!g.initialised && memoryMap.None?) <==> r == Failure(MissingMemoryMap)
    ensures r.Success? ==> r.value.initialised
    ensures r.Success? ==> |r.value.allocator.frameBitmap| == |g.allocator.frameBitmap|
    ensures r.Success? ==> forall i :: 0 <= i < |g.allocator.frameBitmap| ==>
              r.value.allocator.frameBitmap[i] ==
                (InArea(0, kernelEnd, i) || (g.allocator.frameBitmap[i] && !Covered(memoryMap.value, i)))
    ensures r.Success? ==> forall address :: 0 <= address < kernelEnd ==>
              ContainingAddress(address).number < |r.value.allocator.frameBitmap| &&
              r.value.allocator.frameBitmap[ContainingAddress(address).number]
    ensures r.Success? ==>
              var h := MarkAreasAvailable(g.allocator, memoryMap.value).nextFreeFrame;
              r.value.allocator.nextFreeFrame == (if InArea(0, kernelEnd, h) then AreaEnd(0, kernelEnd) + 1 else h)
    ensures r.Success? && Inv(g.allocator) ==> Inv(r.value.allocator)
  {
    if g.initialised then Failure(AlreadyInitialised)
    else match memoryMap
      case None => Failure(MissingMemoryMap)
      case Some(areas) =>
        var freed := MarkAreasAvailable(g.allocator, areas);
        Success(GlobalAllocator(MarkAreaInUse(freed, 0, kernelEnd), true))
  }
}
