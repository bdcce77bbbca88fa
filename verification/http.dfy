/** What the controllers answer: an HTTP status and the body's "success" flag. */
module Http {

  datatype Status = Ok | Created | BadRequest | Unauthorized | NotFound | Conflict | InternalServerError {
    /** The numeric status code Spring writes for this status. */
    function Code(): int {
      match this
      case Ok => 200
      case Created => 201
      case BadRequest => 400
      case Unauthorized => 401
      case NotFound => 404
      case Conflict => 409
      case InternalServerError => 500
    }
  }

  datatype Response = Response(status: Status, success: bool)

  /** A failure answer; every failure body of the backend carries `"success": false`. */
  function Fail(status: Status): Response {
    Response(status, false)
  }
}
