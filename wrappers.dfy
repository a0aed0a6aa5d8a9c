/** Option and Result values shared by the model, and JavaScript truthiness of an optional string. */
module Wrappers {

  datatype Option<+T> = None | Some(value: T)

  /** The outcome of a call that either returns a value or throws an error. */
  datatype Result<+R, +E> = Success(value: R) | Failure(error: E)

  /** A request field that JavaScript treats as truthy: defined and not the empty string. */
  predicate Present(v: Option<string>) {
    v.Some? && v.value != ""
  }
}
