/**
 Physical addresses and the frames that contain them. A frame is identified
 only by its number; frame `n` covers the bytes `n * FRAME_SIZE` up to but
 excluding `(n + 1) * FRAME_SIZE`. A byte area `(address, length)` covers the
 inclusive frame range from the frame containing `address` to the frame
 containing `address + length - 1`, computed in 64-bit `usize` arithmetic.
 */
module Frames {

  /** Size in bytes of one physical frame: a 4 KiB page on x86_64. */
  const FRAME_SIZE: nat := 4096

  /** Largest value of the 64-bit `usize` / `PhysicalAddress` type. */
  const USIZE_MAX: nat := 0xFFFF_FFFF_FFFF_FFFF

  datatype Frame = Frame(number: nat)

  /** The frame whose byte range holds `address`. */
  function ContainingAddress(address: nat): (f: Frame)
    ensures f.number * FRAME_SIZE <= address < f.number * FRAME_SIZE + FRAME_SIZE
  {
    Frame(address / FRAME_SIZE)
  }

  /** A frame's byte range holds exactly one frame: the containing frame is unique. */
  lemma ContainingAddressUnique(address: nat, n: nat)
    requires n * FRAME_SIZE <= address < n * FRAME_SIZE + FRAME_SIZE
    ensures ContainingAddress(address).number == n
  {
  }

  /**
   `address + length - 1` neither overflows nor underflows: the sum fits a
   `usize` and is not zero.
   */
  predicate AreaComputable(address: nat, length: nat) {
    1 <= address + length <= USIZE_MAX
  }

  /** Number of the first frame of the area starting at `address`. */
  function AreaStart(address: nat): nat {
    ContainingAddress(address).number
  }

  /** Number of the last frame of the area: the frame holding its last byte. */
  function AreaEnd(address: nat, length: nat): nat
    requires AreaComputable(address, length)
  {
    ContainingAddress(address + length - 1).number
  }

  /** Frame `i` lies in the inclusive frame range of the area `(address, length)`. */
  predicate InArea(address: nat, length: nat, i: nat) {
    AreaComputable(address, length) && AreaStart(address) <= i <= AreaEnd(address, length)
  }

  /**
   For a non-empty area, the frames in its range are exactly those that share
   at least one byte with `[address, address + length)`.
   */
  lemma InAreaIffOverlaps(address: nat, length: nat, i: nat)
    requires 0 < length && AreaComputable(address, length)
    ensures InArea(address, length, i) <==>
              (i * FRAME_SIZE < address + length && address < i * FRAME_SIZE + FRAME_SIZE)
  {
  }

  /**
   A zero-length area at a non-zero address does not underflow. Its range is
   empty when the address is frame-aligned, and otherwise it is the single
   frame holding the address.
   */
  lemma ZeroLengthArea(address: nat, i: nat)
    requires 0 < address <= USIZE_MAX
    ensures AreaComputable(address, 0)
    ensures address % FRAME_SIZE == 0 ==> !InArea(address, 0, i)
    ensures address % FRAME_SIZE != 0 ==> (InArea(address, 0, i) <==> i == address / FRAME_SIZE)
  {
  }
}
