/** Names shared by the modules. */
module Basics {

  datatype Option<+T> = None | Some(value: T)

  /** What a failed `CC_CHECK` or a `LOG(FATAL)` does. As the macros are written it prints
      and goes on; what the checks are for is to stop the process. */
  datatype Checks = Printing | Stopping

  /** The address of a memory block. */
  type Ptr = nat

  /** A thread. */
  type Tid = nat
}
