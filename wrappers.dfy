/** Option and Result values used for the Go library's `(value, ok)` and `(value, error)` returns. */
module Wrappers {
  datatype Option<T> = None | Some(value: T)
  {
    predicate IsSome() { this.Some? }
  }

  /** The error side carries the message text the Go code builds. */
  datatype Result<T> = Ok(value: T) | Err(msg: string)
  {
    predicate IsOk() { this.Ok? }
  }
}
