/** Option and Result values shared by every module of the model. */
module Wrappers {
  datatype Option<T> = None | Some(value: T)
  {
    predicate IsSome() { this.Some? }
  }

  /** A computation that either yields a value or stops at a failed `Assert`/`Fail`. */
  datatype Result<T> = Success(value: T) | Failure(error: string)
  {
    predicate IsSuccess() { this.Success? }
  }
}
