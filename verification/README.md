# Bitmap physical frame allocator

This project models the physical frame allocator of an x86_64 hobby kernel:
`BitmapFrameAllocator` and its boot-time `init`, both in
`kernel/src/arch/x86_64/memory/pmm.rs`.

The allocator has two pieces of state:

- a **reservation bitmap**, with one bit per 4 KiB frame, where `true` means reserved or in use;
- a **search hint** `next_free_frame` (`nextFreeFrame` here).

It has four operations:

- `mark_area_as_available` frees the frames a byte area covers.
- `mark_area_in_use` reserves the frames a byte area covers.
- `allocate_frame` scans forward from the hint for a clear bit.
- `deallocate_frame` frees one frame.

`init` frees every area the boot memory map reports. It then reserves
`[0, kernel_end)`, so that the kernel image stays reserved whatever the map
says.

The central invariant is `Pmm.Inv`: every frame numbered below the hint is
reserved, and the hint never passes the end of the bitmap. Every operation
keeps it. Because of it, the forward-only scan of `allocate_frame` is
exhaustive: the scan returns the lowest free frame of the whole bitmap, and
returns nothing only when no frame is free.

Files and modules:

- `outcomes.dfy` (`Outcomes`): `Option` and `Result`.
- `frames.dfy` (`Frames`): frame numbers, `containing_address`, and the inclusive frame range of a byte area computed with `address + length - 1`.
- `bitmap.dfy` (`Bitmaps`): `first_unset` as `FirstUnset`, with the meaning the allocator relies on, and the loop that calls `set` on each frame of `range_inclusive` as `SetRange`. The bitmap's `get` and `set` are plain sequence indexing and update, written inline in `pmm.dfy`.
- `pmm.dfy` (`Pmm`): the allocator state, the four operations, the invariant, the free-frame set view, the fold over the memory map, and `init`.
- `pmm_properties.dfy` (`PmmProperties`): lemmas that relate calls to each other and to the set of free frames, plus the preservation of the invariant by any sequence of calls.
- `pmm_examples.dfy` (`PmmExamples`): a concrete boot-and-allocate run on 64 frames, and the state behind the finding below.

Modelling choices:

- The bitmap capacity is a parameter. `Pmm.New(maxFrames)` builds a bitmap of `maxFrames / 64` whole `u64` words, so the operations and lemmas hold for every value of `MAX_FRAMES`.
- A zero-length area is modelled as the code computes it. Only `address == 0 && length == 0` underflows `address + length - 1`, and that case is a precondition. For a non-zero address and a zero length, the last frame is the one holding `address - 1`. The range is then empty when `address` is frame-aligned, and it is the frame holding `address` when it is not (`Frames.ZeroLengthArea`).
- `Pmm.Inv` is stronger than a reading that lets a hint equal to the capacity excuse free frames below it. Here every frame below the hint is reserved even when the hint is at the end of the bitmap, and every operation keeps that stronger form.
- `mark_area_in_use(0x0, 0x3000)` reserves frames 0 to 2. So after frame 1 is given back and allocated again, frame 2 stays reserved, and the next allocation returns frame 4 (`PmmExamples.ScenarioNextIs4`).

## Model

| member | source | states |
|---|---|---|
| Frames.ContainingAddress | kernel/src/arch/x86_64/memory/pmm.rs:29-30 | the frame returned is the one whose byte range `[n*4096, (n+1)*4096)` holds the address |
| Frames.ContainingAddressUnique | kernel/src/arch/x86_64/memory/pmm.rs:29-30 | only one frame's byte range holds a given address, so the containing frame is unique |
| Frames.InAreaIffOverlaps | kernel/src/arch/x86_64/memory/pmm.rs:42-43 | for a non-empty area, a frame is in `start..=end` exactly when it shares a byte with `[address, address+length)` |
| Frames.ZeroLengthArea | kernel/src/arch/x86_64/memory/pmm.rs:29-30 | a zero-length area at a non-zero address covers no frame if the address is aligned, and otherwise covers just the frame holding it |
| Bitmaps.FirstUnset | kernel/src/arch/x86_64/memory/pmm.rs:60 | returns the least clear index at or after `from`, and returns `None` exactly when every bit from `from` on is set |
| Bitmaps.SetRange | kernel/src/arch/x86_64/memory/pmm.rs:36-38 | after the per-frame loop every bit of `lo..=hi` holds the value and every other bit is unchanged |
| Pmm.Capacity | kernel/src/arch/x86_64/memory/pmm.rs:8 | the bitmap's bit count is a multiple of 64 and falls short of `MAX_FRAMES` by less than one word |
| Pmm.New | kernel/src/arch/x86_64/memory/pmm.rs:23-26 | a fresh allocator has every frame reserved, no free frame, the hint at 0, and satisfies the invariant |
| Pmm.MarkAreaAsAvailable | kernel/src/arch/x86_64/memory/pmm.rs:28-39 | clears exactly the bits of the area's frames; the hint becomes the smaller of the old hint and the area's first frame; the invariant is preserved |
| Pmm.MarkAreaInUse | kernel/src/arch/x86_64/memory/pmm.rs:41-51 | sets exactly the bits of the area's frames; a hint inside the area moves to just past it and any other hint stays, so the hint never ends inside the area; the invariant is preserved |
| Pmm.AllocateFrame | kernel/src/arch/x86_64/memory/pmm.rs:55-72 | on success returns the first free frame at or above the hint, sets only that bit, and moves the hint past it; returns `None` with the state unchanged exactly when no frame at or above the hint is free; the invariant is preserved |
| Pmm.AllocateFrameAsWritten | kernel/src/arch/x86_64/memory/pmm.rs:55-72 | the unguarded read of the hint's bit needs the hint inside the bitmap; where it is, the result equals `AllocateFrame` |
| Pmm.DeallocateFrame | kernel/src/arch/x86_64/memory/pmm.rs:74-77 | clears the frame's bit only; the hint becomes the smaller of the old hint and the frame number; the invariant is preserved |
| Pmm.MarkAreasAvailable | kernel/src/arch/x86_64/memory/pmm.rs:88-93 | after the loop over the map, a bit is reserved exactly when it was reserved before and no area covers it; the hint is the least of the old hint and every area's first frame; the invariant is preserved |
| Pmm.Init | kernel/src/arch/x86_64/memory/pmm.rs:80-96 | fails with `AlreadyInitialised` exactly on a second call and with `MissingMemoryMap` exactly when the map is absent; otherwise frame `i` is reserved exactly when it lies in `[0, kernel_end)` or was reserved and no area covers it; every byte below `kernel_end` is in a reserved frame; the hint is the one the map loop left, moved just past the kernel's frames when it lay among them; the invariant is preserved |
| PmmProperties.MarkAreaAsAvailableFrees | kernel/src/arch/x86_64/memory/pmm.rs:28-39 | the free set grows by exactly the area's frames |
| PmmProperties.MarkAreaInUseReserves | kernel/src/arch/x86_64/memory/pmm.rs:41-51 | the free set shrinks by exactly the area's frames |
| PmmProperties.AllocateFrameTakesLowestFree | kernel/src/arch/x86_64/memory/pmm.rs:55-72 | under the invariant, allocation fails exactly when no frame is free; otherwise it hands out the lowest free frame of the whole bitmap and removes only that frame from the free set |
| PmmProperties.DeallocateFrameFrees | kernel/src/arch/x86_64/memory/pmm.rs:74-77 | the free set grows by exactly the given frame |
| PmmProperties.MarkAreaInUseIdempotent | kernel/src/arch/x86_64/memory/pmm.rs:41-51 | reserving an area twice gives the same state as reserving it once |
| PmmProperties.AvailableThenInUse | kernel/src/arch/x86_64/memory/pmm.rs:28-51 | freeing then reserving an area gives the bitmap that reserving alone gives; if the area was reserved to begin with, the bitmap comes back unchanged |
| PmmProperties.AllocateThenDeallocate | kernel/src/arch/x86_64/memory/pmm.rs:55-77 | giving back a just-allocated frame restores the bitmap and leaves the hint on that frame, not below the original hint |
| PmmProperties.DeallocateThenAllocate | kernel/src/arch/x86_64/memory/pmm.rs:55-77 | under the invariant, a frame below the hint that is given back is the next frame allocated |
| PmmProperties.Step | kernel/src/arch/x86_64/memory/pmm.rs:28-77 | one call of any of the four operations keeps the bitmap length and the invariant |
| PmmProperties.Run | kernel/src/arch/x86_64/memory/pmm.rs:28-77 | any sequence of calls keeps the bitmap length and the invariant |
| PmmProperties.InitRunsOnce | kernel/src/arch/x86_64/memory/pmm.rs:81 | after a successful `init`, any further call fails with `AlreadyInitialised` |
| PmmProperties.InitFreshAllocator | kernel/src/arch/x86_64/memory/pmm.rs:80-96 | booting a fresh allocator leaves free exactly the frames the map covers outside `[0, kernel_end)`, and the invariant holds |
| PmmExamples.ScenarioFreeFirst16 | kernel/src/arch/x86_64/memory/pmm.rs:28-39 | freeing the first 64 KiB of a fresh 64-frame allocator frees frames 0 to 15 and leaves the hint at 0 |
| PmmExamples.ScenarioReserveFirst3 | kernel/src/arch/x86_64/memory/pmm.rs:41-51 | reserving the first 12 KiB then reserves frames 0 to 2 and moves the hint to 3 |
| PmmExamples.ScenarioAllocate3 | kernel/src/arch/x86_64/memory/pmm.rs:55-68 | the next allocation takes the hint's own frame 3 and moves the hint to 4 |
| PmmExamples.ScenarioReturnAndReuse1 | kernel/src/arch/x86_64/memory/pmm.rs:55-77 | giving back frame 1 lowers the hint to 1, and the next allocation returns frame 1 |
| PmmExamples.ScenarioNextIs4 | kernel/src/arch/x86_64/memory/pmm.rs:55-62 | after that, frame 2 is still reserved, so allocation returns frame 4 |
| PmmExamples.BootScenario | kernel/src/arch/x86_64/memory/pmm.rs:23-77 | the whole scenario: frames 3, 1 and then 4 are handed out, and the invariant holds throughout |
| PmmExamples.AllocatingLastFrameLeavesHintAtEnd | kernel/src/arch/x86_64/memory/pmm.rs:57-66 | allocating the last free frame at the top of the bitmap moves the hint to the capacity, and the guarded allocation then returns `None` |

## Left out

- The global `ALLOCATOR` behind `spin::Mutex` (pmm.rs:10, 83): locking and concurrency are not modelled. A single explicit state value is passed instead, and `PmmProperties.Run` stands for the calls the lock serialises.
- The `FrameAllocator` trait (pmm.rs:12-15) is not modelled as an abstract interface. Its two methods are plain functions on `Allocator`.
- Boot-information parsing (pmm.rs:85-88): the multiboot2 library is not part of this model. The memory map arrives as `Option<seq<MemoryArea>>`, and `None` is the `expect` failure.
- The `assert_has_not_been_called!` guard (pmm.rs:81) is modelled as the `initialised` flag of `GlobalAllocator`. A second call yields `Failure(AlreadyInitialised)` instead of a panic.
- The `println!` diagnostics (pmm.rs:89-90) are left out. They are output only and do not change state.
- The bitmap crate is not part of this model. The bitmap is `seq<bool>`, and its capacity is taken to be 64 bits per `u64` word. `first_unset(i)` is taken to mean the least clear index at or after `i`.
- `Frame`, `containing_address`, `range_inclusive` and `MAX_FRAMES` come from modules that are not part of this model. The model takes `number = address / 4096` and an ascending inclusive range that is empty when `end < start`.
- Pmm.MarkAreaAsAvailable, Pmm.MarkAreaInUse: when `address + length` exceeds `usize`, the code panics or wraps depending on the build. The model does not cover that case: it is a precondition.
- Pmm.MarkAreaAsAvailable, Pmm.MarkAreaInUse, Pmm.DeallocateFrame: writing a bit beyond the capacity has whatever effect the bitmap crate gives it. That crate is not part of this model, so an in-range frame is a precondition.
- Pmm.Init: the areas are required to fit in the bitmap and `kernel_end` to be non-zero. A map that reports RAM above the capacity would hit the out-of-range `set` above.
- The `as usize` casts of the map's `u64` fields (pmm.rs:92) are the identity on x86_64, so they are not modelled.

## Findings

| source | as written | input that shows it | evidently intended | confidence | as-written member | corrected member |
|---|---|---|---|---|---|---|
| kernel/src/arch/x86_64/memory/pmm.rs:57 | `allocate_frame` reads the bit at `next_free_frame` before any search, even when the hint equals the bitmap capacity. The hint reaches the capacity after the top frame is allocated (pmm.rs:66) or after an area ending at the top frame is reserved (pmm.rs:45). | A bitmap whose only free frame is the last one: the first `allocate_frame` returns it and moves the hint to the capacity, and the second call reads one bit past the end (`PmmExamples.AllocatingLastFrameLeavesHintAtEnd`). | Return `None`, since no frame at or above the hint can be free. | medium, not executed: whether the read panics or returns garbage depends on the bitmap crate | Pmm.AllocateFrameAsWritten | Pmm.AllocateFrame |
