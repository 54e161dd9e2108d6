/** Failure-compatible wrappers and sequence predicates shared by the models. */
module Results {

  /** A value that may be absent: JavaScript's `null`/`undefined` in the source. */
  datatype Option<+T> = None | Some(value: T)

  /** The outcome of a reducer call: a new value, or the exception it would throw. */
  datatype Result<+T, +E> = Ok(value: T) | Err(error: E)

  /** No element occurs twice in `s`. */
  ghost predicate Distinct<T>(s: seq<T>)
  {
    forall i, j :: 0 <= i < j < |s| ==> s[i] != s[j]
  }
}
