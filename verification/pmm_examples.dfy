/**
 Concrete runs of the allocator: a boot-and-allocate scenario on a 64-frame
 bitmap, and the state in which `allocate_frame` as written reads past the
 end of the bitmap.
 */
module PmmExamples {
  import opened Outcomes
  import opened Frames
  import opened Bitmaps
  import opened Pmm

  /** The 64-frame bitmap of `a` holds exactly the free frames `free` names. */
  predicate FreeExactly(a: Allocator, free: nat -> bool) {
    |a.frameBitmap| == 64 && forall i :: 0 <= i < 64 ==> a.frameBitmap[i] == !free(i)
  }

  /*
   A boot-and-allocate run on a fresh allocator of 64 frames of 4 KiB, one
   lemma per action; `BootScenario` chains them.
   */

  /** The boot map reports the first 64 KiB (frames 0 to 15) as RAM: those frames become free. */
  lemma ScenarioFreeFirst16()
    ensures var a1 := MarkAreaAsAvailable(New(64), 0x0, 0x10000);
            FreeExactly(a1, i => i < 16) && a1.nextFreeFrame == 0
  {
  }

  /** The first 12 KiB (frames 0 to 2) are reserved; the hint skips past them. */
  lemma ScenarioReserveFirst3(a1: Allocator)
    requires FreeExactly(a1, i => i < 16) && a1.nextFreeFrame == 0
    ensures var a2 := MarkAreaInUse(a1, 0x0, 0x3000);
            FreeExactly(a2, i => 3 <= i < 16) && a2.nextFreeFrame == 3
  {
  }

  /** Allocation then takes frame 3, the hint's own frame. */
  lemma ScenarioAllocate3(a2: Allocator)
    requires FreeExactly(a2, i => 3 <= i < 16) && a2.nextFreeFrame == 3
    ensures var r3 := AllocateFrame(a2);
            r3.frame == Some(Frame(3)) && r3.allocator.nextFreeFrame == 4 &&
            FreeExactly(r3.allocator, i => 4 <= i < 16)
  {
  }

  /** Frame 1 is given back, and the next allocation returns it. */
  lemma ScenarioReturnAndReuse1(r3: Allocator)
    requires FreeExactly(r3, i => 4 <= i < 16) && r3.nextFreeFrame == 4
    ensures var a4 := DeallocateFrame(r3, Frame(1));
            var r5 := AllocateFrame(a4);
            && a4.nextFreeFrame == 1
            && r5.frame == Some(Frame(1)) && r5.allocator.nextFreeFrame == 2
            && FreeExactly(r5.allocator, i => 4 <= i < 16)
  {
  }

  /**
   Frame 2 was reserved together with frames 0 and 1 and never freed, so the
   next allocation skips it and returns frame 4.
   */
  lemma ScenarioNextIs4(r5: Allocator)
    requires FreeExactly(r5, i => 4 <= i < 16) && r5.nextFreeFrame == 2
    ensures AllocateFrame(r5).frame == Some(Frame(4))
  {
    assert IsFirstUnset(r5.frameBitmap, 2, 4);
  }

  /**
   The whole run on a fresh allocator of 64 frames of 4 KiB: free the first
   64 KiB, reserve its first three frames, allocate, give back frame 1 and
   allocate twice more.
   */
  lemma BootScenario()
    ensures var a1 := MarkAreaAsAvailable(New(64), 0x0, 0x10000);
            var a2 := MarkAreaInUse(a1, 0x0, 0x3000);
            var r3 := AllocateFrame(a2);
            var a4 := DeallocateFrame(r3.allocator, Frame(1));
            var r5 := AllocateFrame(a4);
            && r3.frame == Some(Frame(3))
            && r5.frame == Some(Frame(1))
            && FreeExactly(r5.allocator, i => 4 <= i < 16)
            && Inv(r5.allocator)
            && AllocateFrame(r5.allocator).frame == Some(Frame(4))
  {
  }

  /**
   A bitmap whose only free frame is the last one. Allocating that frame moves
   the hint to the end of the bitmap, past the last index `allocate_frame`
   as written may read; the guarded allocation then reports `None`.
   */
  lemma AllocatingLastFrameLeavesHintAtEnd(maxFrames: nat)
    requires BITS_PER_ITEM <= maxFrames <= 0x1_0000_0000
    ensures var c := Capacity(maxFrames);
            var a := MarkAreaAsAvailable(New(maxFrames), (c - 1) * FRAME_SIZE, FRAME_SIZE);
            var r := AllocateFrame(a);
            && Inv(a)
            && a.nextFreeFrame < |a.frameBitmap|
            && r.frame == Some(Frame(c - 1))
            && Inv(r.allocator)
            && r.allocator.nextFreeFrame == |r.allocator.frameBitmap|
            && AllocateFrame(r.allocator) == Allocation(r.allocator, None)
  {
    var c := Capacity(maxFrames);
    ContainingAddressUnique((c - 1) * FRAME_SIZE, c - 1);
    ContainingAddressUnique((c - 1) * FRAME_SIZE + FRAME_SIZE - 1, c - 1);
    var a := MarkAreaAsAvailable(New(maxFrames), (c - 1) * FRAME_SIZE, FRAME_SIZE);
    assert IsFirstUnset(a.frameBitmap, 0, c - 1);
  }
}
