/** Option and Result, the two failure-carrying shapes used throughout the model. */
module Wrappers {

  datatype Option<+T> = None | Some(value: T) {
    function GetOr(default: T): T {
      match this
      case Some(v) => v
      case None => default
    }
  }

  datatype Result<+R, +E> = Success(value: R) | Failure(error: E)
}

/** HTTP status codes that the controllers and routes answer with. */
module Http {

  datatype Status =
    | Ok            // 200
    | Created       // 201
    | BadRequest    // 400
    | Unauthorized  // 401
    | Forbidden     // 403
    | NotFound      // 404
    | Unprocessable // 422: the Laravel validator rejected the request
    | ServerError   // 500: an exception escaped, the transaction is rolled back

  function Code(s: Status): (c: int)
    ensures 200 <= c < 600
    ensures (c < 300) == (s.Ok? || s.Created?)
  {
    match s
    case Ok => 200
    case Created => 201
    case BadRequest => 400
    case Unauthorized => 401
    case Forbidden => 403
    case NotFound => 404
    case Unprocessable => 422
    case ServerError => 500
  }
}
