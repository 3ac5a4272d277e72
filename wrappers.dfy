/** Optional values and results with an error side, used throughout the model. */
module Wrappers {

  /** The Rust `Option`: a handle or value that may be absent. */
  datatype Option<+T> = None | Some(value: T)

  /** An operation that either completes with a value or aborts the task with an error. */
  datatype Result<+T, +E> = Ok(value: T) | Fail(error: E)
}
