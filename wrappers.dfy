/** Option and a panic-carrying Result, shared by the kernel modules. */
module Wrappers {

  datatype Option<T> = None | Some(value: T)

  /** Why a kernel operation stopped with a panic. */
  datatype Fault =
    | AssertionFailed    // an `assert_eq!` did not hold
    | FrameNotAllocated  // `dealloc` of a frame never handed out, or handed back twice

  /** Either the operation's value, or the panic the source raises instead. */
  datatype Result<T> = Ok(value: T) | Panic(fault: Fault)
}
