/** Values of the PHP runtime that the model needs: the nullable value
    (`Option`), a thrown error (`Result`) and the truthiness test `empty()`. */
module Php {

  /** A PHP value that may be NULL. */
  datatype Option<+T> = None | Some(value: T)

  /** The outcome of a call that may throw instead of returning. */
  datatype Result<+R, +E> = Success(value: R) | Failure(error: E)

  /** PHP's `empty()` on a value of type `string|null`: true for NULL, for
      the empty string and for the string "0"; false for every other string. */
  predicate IsEmpty(v: Option<string>)
  {
    v.None? || v.value == "" || v.value == "0"
  }
}
