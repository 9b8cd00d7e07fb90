/** Option and Result: how the model writes Python's `None` and Python's exceptions. */
module Wrappers {

  datatype Option<+T> = None | Some(value: T)

  /** `Failure(e)` stands for "the Python call raised exception `e`". */
  datatype Result<+T, +E> = Success(value: T) | Failure(error: E)
}
