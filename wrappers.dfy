/** Option and Result, the shapes of Swift's optionals and throwing calls. */
module Wrappers {

  /** Swift's `T?`: `None` stands for `nil`. */
  datatype Option<+T> = None | Some(value: T)

  /** The outcome of a Swift function that `throws`: a value or the error thrown. */
  datatype Result<+R, +E> = Success(value: R) | Failure(error: E)
}
