/**
 * Result and Option values used wherever the modelled code returns an error
 * or a nil, and the one notion of a sequence without repeats.
 */
module Wrappers {
  datatype Option<T> = None | Some(value: T)

  datatype Result<T> = Ok(value: T) | Err(error: string)
  {
    predicate IsOk() { Ok? }
  }

  /** The outcome of an operation that returns only an error, or nil. */
  datatype Outcome = Pass | Fail(error: string)

  /** No element occurs twice. */
  predicate Distinct<T(==)>(s: seq<T>)
  { forall i, j :: 0 <= i < j < |s| ==> s[i] != s[j] }
}
