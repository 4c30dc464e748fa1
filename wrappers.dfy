/** Option and Result as used throughout the model.

    Every exception the client can raise (RestClientException, and the
    NullPointerException or NumberFormatException that escape it) is one
    `Failure`: callers of the library tell failures apart only through the
    client's error table, never through the exception's kind. */
module Wrappers {

  datatype Option<+T> = None | Some(value: T) {
    function GetOr(default: T): T {
      match this
      case Some(v) => v
      case None => default
    }
  }

  datatype Result<+T> = Success(value: T) | Failure {
    predicate IsFailure() {
      Failure?
    }
  }

  /** An absent value becomes a failure. */
  function OrFail<T>(o: Option<T>): (r: Result<T>)
    ensures r.Success? <==> o.Some?
    ensures r.Success? ==> r.value == o.value
  {
    match o
    case Some(v) => Success(v)
    case None => Failure
  }
}
