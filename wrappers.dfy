/** Optional values and results with an error, shared by the other modules. */
module Wrappers {

  /** A value that may be absent: pandas' missing marker, a date that is not a time, no match. */
  datatype Option<+T> = None | Some(value: T) {
    function GetOr(default: T): T {
      match this
      case Some(v) => v
      case None => default
    }
  }

  /** The outcome of a step that can abort with an error. */
  datatype Result<+R, +E> = Success(value: R) | Failure(error: E)

  /** Sequence concatenation regroups freely. */
  lemma ConcatAssoc<T>(a: seq<T>, b: seq<T>, c: seq<T>)
    ensures a + (b + c) == (a + b) + c
  {
  }
}
