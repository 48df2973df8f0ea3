/** Value-level stand-ins for the C++ exceptions and optional results of the library. */
module Wrappers {
  /** A value that may be absent (an end iterator, a missing map entry). */
  datatype Option<+T> = None | Some(value: T)

  /** The outcome of an operation that throws `std::runtime_error` on failure in the source. */
  datatype Result<+T, +E> = Ok(value: T) | Err(error: E)
  {
    predicate IsFailure() { Err? }
  }

  /** The outcome of a `void` member that may throw. */
  datatype Outcome<+E> = Pass | Fail(error: E)
}
