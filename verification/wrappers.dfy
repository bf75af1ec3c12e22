/** The optional and fallible results shared by the rest of the model. */
module Wrappers {

  /** A value that may be missing; the embedder's "no embedding" result is `None`. */
  datatype Option<+T> = None | Some(value: T)

  /** The outcome of an operation that can be refused. */
  datatype Result<+R, +E> = Success(value: R) | Failure(error: E)
}
