/** Optional values and success-or-error results used throughout the model: an optional
    value stands for Guava's Optional and Java's nullable references, and a failed result
    for a thrown precondition exception. */
module Wrappers {

  datatype Option<+T> = None | Some(value: T) {

    /** Guava's Optional.or: the held value, or the given default when absent. */
    function Or(default: T): (r: T)
      ensures Some? ==> r == value
      ensures None? ==> r == default
    {
      match this
      case Some(v) => v
      case None => default
    }
  }

  datatype Result<+R, +E> = Success(value: R) | Failure(error: E)
}
