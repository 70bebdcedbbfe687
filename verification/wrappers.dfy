/** Failure-carrying values shared by every module of the model. */
module Wrappers {

  datatype Option<+T> = None | Some(value: T) {
    function GetOr(default: T): T {
      match this
      case Some(v) => v
      case None => default
    }
  }

  /** The outcome of a service call: a value, or the exception the service raises. */
  datatype Result<+T, +E> = Ok(value: T) | Err(error: E) {
    predicate IsFailure() {
      Err?
    }

    function PropagateFailure<U>(): Result<U, E>
      requires Err?
    {
      Err(error)
    }

    function Extract(): T
      requires Ok?
    {
      value
    }
  }

  /** The NestJS exceptions raised by the services, with their messages. */
  datatype HttpError =
    | BadRequest(msg: string)
    | NotFound(msg: string)
    | Conflict(msg: string)
    | Forbidden(msg: string)
    | Unauthorized(msg: string)
    | ServerError(msg: string)
}
