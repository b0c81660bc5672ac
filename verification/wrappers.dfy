/** Optional values, standing in for SQL NULL and for JavaScript's
    `undefined`/`null`. */
module Wrappers {

  datatype Option<+T> = None | Some(value: T) {

    /** Returns the value held in Some, or `default` if None */
    function GetOr(default: T): T {
      match this
      case Some(v) => v
      case None => default
    }
  }
}

/** The outcome of an HTTP handler: a success status with a JSON body, or an
    error status with the `message` the handler puts in its JSON body. */
module Http {

  datatype HttpResult<+T> =
    | Success(code: nat, body: T)
    | Failure(code: nat, message: string)
  {
    predicate IsFailure() { Failure? }
  }

  const Ok := 200
  const Created := 201
  const BadRequest := 400
  const Unauthorized := 401
  const Forbidden := 403
  const NotFound := 404
  const Conflict := 409
  const InternalError := 500
}
