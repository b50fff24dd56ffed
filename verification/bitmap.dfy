/**
 The reservation table as the allocator uses it: a fixed-length sequence of
 bits, `true` meaning reserved. The bit-array crate itself is not part of this
 model. Its `get` and `set` are plain sequence indexing and update, written
 where the allocator uses them; this module gives `first_unset`, with the
 meaning the allocator relies on, and the loop that calls `set` once per frame
 of an inclusive range.
 */
module Bitmaps {
  import opened Outcomes

  /** Bit `n` is the first clear bit at or after `from`. */
  predicate IsFirstUnset(bits: seq<bool>, from: nat, n: nat) {
    && from <= n < |bits|
    && !bits[n]
    && forall j :: from <= j < n ==> bits[j]
  }

  /** Every bit at or after `from` is set. */
  predicate AllSetFrom(bits: seq<bool>, from: nat) {
    forall j :: from <= j < |bits| ==> bits[j]
  }

  /**
   `first_unset(from)`: the least index at or after `from` whose bit is clear,
   or `None` when there is none.
   */
  function FirstUnset(bits: seq<bool>, from: nat): (r: Option<nat>)
    ensures r.Some? ==> IsFirstUnset(bits, from, r.value)
    ensures r.None? <==> AllSetFrom(bits, from)
    decreases |bits| - from
  {
    if from >= |bits| then None
    else if !bits[from] then Some(from)
    else FirstUnset(bits, from + 1)
  }

  /**
   Sets every bit of the inclusive range `lo..=hi` to `v`, one index at a
   time in ascending order, as a loop over `Frame::range_inclusive` with a
   `set` per frame does. The range is empty when `hi < lo`.
   */
  function SetRange(bits: seq<bool>, lo: nat, hi: nat, v: bool): (r: seq<bool>)
    requires lo <= hi ==> hi < |bits|
    ensures |r| == |bits|
    ensures forall i :: 0 <= i < |bits| && lo <= i <= hi ==> r[i] == v
    ensures forall i :: 0 <= i < |bits| && !(lo <= i <= hi) ==> r[i] == bits[i]
    decreases hi + 1 - lo
  {
    if lo > hi then bits else SetRange(bits[lo := v], lo + 1, hi, v)
  }
}
