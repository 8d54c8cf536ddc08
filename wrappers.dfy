/** Failure-compatible results: the source signals "no label" with java.util.Optional
    and a degenerate crop with an exception; the model returns these values instead. */
module Wrappers {

  datatype Option<+T> = None | Some(value: T)

  datatype Result<+R, +E> = Success(value: R) | Failure(error: E)
}
