/**
 * Thrown values as the exception filter sees them. A NestJS `HttpException`
 * offers `getStatus()` and `getResponse()`; a plain `Error` (a `TypeError`,
 * a failure inside `crypto`) offers neither; `throw undefined` offers
 * nothing at all.
 */
module Exceptions {
  import opened Wrappers
  import opened Js

  datatype Exception =
    | ThrownNullish
    | Raised(getStatus: Option<int>, getResponse: Option<JsValue>)

  const BAD_REQUEST: int := 400
  const NOT_FOUND: int := 404
  const UNPROCESSABLE_ENTITY: int := 422
  const TOO_MANY_REQUESTS: int := 429
  const INTERNAL_SERVER_ERROR: int := 500
  const OK: int := 200

  /**
   * `new BadRequestException(message)`: NestJS builds the response object
   * `{statusCode: 400, message, error: 'Bad Request'}` around a string.
   */
  function BadRequest(message: string): Exception {
    Raised(Some(BAD_REQUEST), Some(Obj(map[
      "statusCode" := Num(BAD_REQUEST),
      "message" := Str(message),
      "error" := Str("Bad Request")])))
  }

  /** `new UnprocessableEntityException(body)` with an object body, kept as given. */
  function UnprocessableEntity(body: map<string, JsValue>): Exception {
    Raised(Some(UNPROCESSABLE_ENTITY), Some(Obj(body)))
  }

  /** A plain `Error`: no status, no response. */
  const PlainError: Exception := Raised(None, None)
}
