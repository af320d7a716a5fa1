/** Failure-compatible wrappers used by the target compiler and the fetcher. */
module Wrappers {

  /** A value that may be absent: a dictionary lookup that misses, a file that is not written. */
  datatype Option<+T> = None | Some(value: T)

  /** The outcome of an operation that the scraper lets fail with an exception. */
  datatype Result<+R, +E> = Ok(value: R) | Err(error: E)
}
