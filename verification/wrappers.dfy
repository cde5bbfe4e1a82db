/** Option and Result values: `null`/`NaN` and the calculator's early returns. */
module Wrappers {

  /** A value that may be absent (`null` or `NaN` in the original). */
  datatype Option<+T> = None | Some(value: T)

  /** Either a computed value or the error that stopped the computation. */
  datatype Result<+R, +E> = Success(value: R) | Failure(error: E)
}
