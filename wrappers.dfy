/** Small result types shared by the allocator modules. */
module Wrappers {

  /** A value that may be absent; stands for a nullable pointer or index. */
  datatype Option<+T> = None | Some(value: T)

  /** The result of an operation that either completes or stops the process
      with a fatal assertion (the source's CrashIf / CrashAlwaysIf). */
  datatype Outcome<+T, +E> = Ok(value: T) | Crash(fault: E)
}
