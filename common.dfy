/** Option and Result values used for JavaScript's null/undefined and thrown errors. */
module Common {

  datatype Option<+T> = None | Some(value: T)

  datatype Result<+T, +E> = Success(value: T) | Failure(error: E)
}
