/** The two result shapes used throughout the project. */
module Prelude {
  /** A nullable column, or the outcome of a lookup that may find nothing. */
  datatype Option<+T> = None | Some(value: T)

  /** A return value, or the exception that took its place. */
  datatype Result<+T, +E> = Ok(value: T) | Err(error: E)

  /** Scale factors, tile sizes and steps. */
  type Positive = n: int | n > 0 witness 1

  function Max(a: int, b: int): int {
    if a < b then b else a
  }

  function Min(a: int, b: int): int {
    if a < b then a else b
  }
}
