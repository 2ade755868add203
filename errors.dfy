/**
 * The failure kinds the trivia handlers signal with `abort(code)`, and the
 * error handlers registered for them: each turns a status code into the
 * envelope `{success: false, error: code, message: text}` with that status.
 */
module Errors {
  import opened Wrappers

  datatype HttpError = BadRequest | NotFound | MethodNotAllowed | Unprocessable | InternalServerError

  /** The HTTP status code each failure kind is aborted with. */
  function Code(e: HttpError): (c: int)
    ensures 400 <= c < 600
    ensures c >= 500 <==> e == InternalServerError
  {
    match e
    case BadRequest => 400
    case NotFound => 404
    case MethodNotAllowed => 405
    case Unprocessable => 422
    case InternalServerError => 500
  }

  /** The result of a handler: a payload, or the failure it aborted with. */
  datatype Result<+T> = Success(value: T) | Failure(error: HttpError)

  datatype ErrorBody = ErrorBody(success: bool, error: int, message: string)

  /** What an error handler returns: the JSON body and the response status. */
  datatype ErrorReply = ErrorReply(body: ErrorBody, status: int)

  /** The fixed message table of the five registered error handlers. */
  function Message(e: HttpError): (m: string)
    ensures |m| > 0
    ensures forall i :: 0 <= i < |m| ==> 'a' <= m[i] <= 'z' || m[i] == ' '
  {
    match e
    case BadRequest => "bad request"
    case NotFound => "not found"
    case MethodNotAllowed => "method not allowed"
    case Unprocessable => "unprocessable"
    case InternalServerError => "internal server error"
  }

  /**
   * Flask's dispatch of an aborted status code to the handler registered for
   * it; `None` for a code that has no registered handler.
   */
  function HandlerFor(code: int): (h: Option<HttpError>)
    ensures h.Some? <==> code in {400, 404, 405, 422, 500}
    ensures h.Some? ==> Code(h.value) == code
  {
    if code == 400 then Some(BadRequest)
    else if code == 404 then Some(NotFound)
    else if code == 405 then Some(MethodNotAllowed)
    else if code == 422 then Some(Unprocessable)
    else if code == 500 then Some(InternalServerError)
    else None
  }

  /** The reply produced when a handler aborts with `code`. */
  function HandleAbort(code: int): (r: Option<ErrorReply>)
    ensures r.Some? <==> code in {400, 404, 405, 422, 500}
    ensures r.Some? ==> !r.value.body.success && r.value.body.error == code && r.value.status == code
    ensures r.Some? ==> r.value.body.message == Message(HandlerFor(code).value)
  {
    match HandlerFor(code)
    case None => None
    case Some(e) => Some(ErrorReply(ErrorBody(false, code, Message(e)), code))
  }

  /** Every failure kind reaches its own handler: abort(Code(e)) is handled as e. */
  lemma HandlerForCode(e: HttpError)
    ensures HandlerFor(Code(e)) == Some(e)
    ensures HandleAbort(Code(e)) == Some(ErrorReply(ErrorBody(false, Code(e), Message(e)), Code(e)))
  {
  }

  /** Distinct failure kinds are told apart by both their code and their message. */
  lemma ErrorsDistinguishable(e1: HttpError, e2: HttpError)
    requires e1 != e2
    ensures Code(e1) != Code(e2)
    ensures Message(e1) != Message(e2)
  {
  }
}
