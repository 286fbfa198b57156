/** The NestJS exceptions the backend services throw, each with its message. */
module HttpErrors {
  datatype HttpError =
    | Conflict(message: string)
    | Unauthorized(message: string)
    | NotFound(message: string)
    | Forbidden(message: string)

  /** The HTTP status each exception is answered with. */
  function Status(e: HttpError): (status: int)
    ensures 400 <= status < 500
    ensures e.Conflict? <==> status == 409
    ensures e.Unauthorized? <==> status == 401
    ensures e.NotFound? <==> status == 404
    ensures e.Forbidden? <==> status == 403
  {
    match e
    case Conflict(_) => 409
    case Unauthorized(_) => 401
    case NotFound(_) => 404
    case Forbidden(_) => 403
  }
}
