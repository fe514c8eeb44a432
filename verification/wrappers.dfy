/**
 * Absent-or-present values and value-or-error results, used in place of
 * Java's `null` references and thrown exceptions.
 */
module Wrappers {

  /** `None` stands for a `null` reference or an empty `Optional`. */
  datatype Option<T> = None | Some(value: T)

  /** A computed value, or the error raised instead of it. */
  datatype Result<T, E> = Ok(value: T) | Err(error: E)
}
