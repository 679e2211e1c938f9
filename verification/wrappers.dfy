/** Optional values and results shared by the tile cutter and the viewer model. */
module Wrappers {

  /** An optional value: a missing bound, a string that does not parse. */
  datatype Option<+T> = None | Some(value: T)

  /** The outcome of an operation that can raise: a value, or the reason it stopped. */
  datatype Result<+R, +E> = Success(value: R) | Failure(error: E)
}
