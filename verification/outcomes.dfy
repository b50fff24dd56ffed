/** Optional values and boot-time outcomes shared by the allocator modules. */
module Outcomes {

  /** An absent or present value, as Rust's `Option`. */
  datatype Option<+T> = None | Some(value: T)

  /** The new state after a boot step, or the fatal condition that stops the boot. */
  datatype Result<+T, +E> = Success(value: T) | Failure(error: E)
}
