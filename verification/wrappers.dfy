/** Failure-compatible wrappers used throughout the model: `Option` stands for a
    Java reference that may be `null`, `Result` for a call that may throw. */
module Wrappers {

  /** A value that may be missing (Java `null`). */
  datatype Option<+T> = None | Some(value: T)

  /** The outcome of a computation that either succeeds or fails with an error. */
  datatype Result<+R, +E> = Success(value: R) | Failure(error: E) {

    predicate IsFailure() {
      Failure?
    }

    function PropagateFailure<U>(): Result<U, E>
      requires Failure?
    {
      Failure(error)
    }

    function Extract(): R
      requires Success?
    {
      value
    }
  }

  /** A non-empty sequence is its front followed by its last element. */
  lemma Snoc<T>(s: seq<T>)
    requires |s| > 0
    ensures s[..|s| - 1] + [s[|s| - 1]] == s
  {
  }
}
