/**
 * The catch-all exception filter: from whatever was thrown it picks the HTTP
 * status (the exception's own, else 500) and an error body
 * `{error: true, statusCode, message}`, whose message is the validation
 * messages for the four client-error statuses and otherwise the response's
 * `error`, its `message`, the response itself or a fixed text.
 */
module HttpExceptionFilter {
  import opened Wrappers
  import opened Js
  import opened Exceptions
  import FilesService
  import ResponseInterception

  const INVALID_REQUEST: string := "Invalid request !"

  /** `[400, 422, 404, 429]`: the statuses whose `message` is passed on as it is. */
  const VALIDATION_STATUSES: seq<int> := [BAD_REQUEST, UNPROCESSABLE_ENTITY, NOT_FOUND, TOO_MANY_REQUESTS]

  /**
   * What one call of `catch` does: write one response with a status and a
   * JSON body, or throw a `TypeError` of its own before writing anything.
   */
  datatype Outcome = Written(status: int, body: JsValue) | Crashed

  /** `exception?.getStatus()` when there is such a method, else 500. */
  function StatusOf(e: Exception): (status: int)
    ensures e.Raised? && e.getStatus.Some? ==> status == e.getStatus.value
    ensures !(e.Raised? && e.getStatus.Some?) ==> status == INTERNAL_SERVER_ERROR
  {
    match e
    case Raised(Some(s), _) => s
    case _ => INTERNAL_SERVER_ERROR
  }

  /** `exception?.getResponse()` when there is such a method, else `undefined`. */
  function ResponseOf(e: Exception): (response: JsValue)
    ensures e.Raised? && e.getResponse.Some? ==> response == e.getResponse.value
    ensures !(e.Raised? && e.getResponse.Some?) ==> response == Undefined
  {
    match e
    case Raised(_, Some(r)) => r
    case _ => Undefined
  }

  /** `'message' in response` for a non-null object response: an own key of a plain object. */
  predicate HasMessageKey(response: JsValue) {
    response.Obj? && "message" in response.fields
  }

  /**
   * The message outside the validation case: `response.error ||
   * response.message || response` for a truthy response, else the fixed text.
   */
  function FallbackMessage(response: JsValue): (m: JsValue)
    ensures !Truthy(response) ==> m == Str(INVALID_REQUEST)
    ensures Truthy(response) ==> Truthy(m)
    ensures Truthy(response) && Truthy(Prop(response, "error")) ==> m == Prop(response, "error")
    ensures Truthy(response) && !Truthy(Prop(response, "error")) && Truthy(Prop(response, "message")) ==>
      m == Prop(response, "message")
    ensures Truthy(response) && !Truthy(Prop(response, "error")) && !Truthy(Prop(response, "message")) ==>
      m == response
  {
    if Truthy(response) then Or(Or(Prop(response, "error"), Prop(response, "message")), response)
    else Str(INVALID_REQUEST)
  }

  /** The JSON body written: `{error: true, statusCode, message}`. */
  function ErrorBody(status: int, message: JsValue): JsValue {
    Obj(map["error" := Bool(true), "statusCode" := Num(status), "message" := message])
  }

  /** The body is an error report carrying the status and the message. */
  predicate IsErrorBody(body: JsValue, status: int, message: JsValue) {
    && body.Obj?
    && body.fields.Keys == {"error", "statusCode", "message"}
    && body.fields["error"] == Bool(true)
    && body.fields["statusCode"] == Num(status)
    && body.fields["message"] == message
  }

  /**
   * `catch` as written. Reading `exception.stack` for the debug log throws
   * when the exception is `null` or `undefined`; for a validation status,
   * `'message' in null` throws when the response is `null` (which passes the
   * `typeof … === 'object'` test). Otherwise exactly one body is written.
   */
  function Catch(e: Exception): (o: Outcome)
    ensures o.Crashed? <==> e.ThrownNullish? || (StatusOf(e) in VALIDATION_STATUSES && ResponseOf(e).Null?)
    ensures o.Written? ==> o.status == StatusOf(e)
    ensures o.Written? && StatusOf(e) in VALIDATION_STATUSES && HasMessageKey(ResponseOf(e)) ==>
      IsErrorBody(o.body, o.status, ResponseOf(e).fields["message"])
    ensures o.Written? && !(StatusOf(e) in VALIDATION_STATUSES && HasMessageKey(ResponseOf(e))) ==>
      IsErrorBody(o.body, o.status, FallbackMessage(ResponseOf(e)))
  {
    if e.ThrownNullish? then Crashed
    else
      var response := ResponseOf(e);
      var status := StatusOf(e);
      if status in VALIDATION_STATUSES && TypeofObject(response) && response.Null? then Crashed
      else if status in VALIDATION_STATUSES && HasMessageKey(response) then
        Written(status, ErrorBody(status, response.fields["message"]))
      else
        Written(status, ErrorBody(status, FallbackMessage(response)))
  }

  /**
   * `catch` with the two crashes removed: the stack is read as
   * `exception?.stack`, and a `null` response is not asked for `message`,
   * so it falls through to the fixed text. The answers the other modules'
   * errors receive are stated of both versions.
   */
  function CatchGuarded(e: Exception): (o: Outcome)
    ensures o.Written? && o.status == StatusOf(e)
    ensures StatusOf(e) in VALIDATION_STATUSES && HasMessageKey(ResponseOf(e)) ==>
      IsErrorBody(o.body, o.status, ResponseOf(e).fields["message"])
    ensures !(StatusOf(e) in VALIDATION_STATUSES && HasMessageKey(ResponseOf(e))) ==>
      IsErrorBody(o.body, o.status, FallbackMessage(ResponseOf(e)))
  {
    var response := ResponseOf(e);
    var status := StatusOf(e);
    if status in VALIDATION_STATUSES && HasMessageKey(response) then
      Written(status, ErrorBody(status, response.fields["message"]))
    else
      Written(status, ErrorBody(status, FallbackMessage(response)))
  }

  /** Wherever the filter as written does not crash, the guarded one writes the same response. */
  lemma GuardedAgrees(e: Exception)
    requires Catch(e).Written?
    ensures CatchGuarded(e) == Catch(e)
  {
  }

  /** `throw undefined` (or `null`) makes the filter as written throw instead of responding. */
  lemma NullishThrowCrashes()
    ensures Catch(ThrownNullish).Crashed?
    ensures CatchGuarded(ThrownNullish) == Written(INTERNAL_SERVER_ERROR, ErrorBody(INTERNAL_SERVER_ERROR, Str(INVALID_REQUEST)))
  {
  }

  /** An HTTP exception with status 400 and a `null` response makes the filter as written throw. */
  lemma NullResponseCrashes()
    ensures Catch(Raised(Some(BAD_REQUEST), Some(Null))).Crashed?
    ensures CatchGuarded(Raised(Some(BAD_REQUEST), Some(Null))) == Written(BAD_REQUEST, ErrorBody(BAD_REQUEST, Str(INVALID_REQUEST)))
  {
  }

  /** An exception without a status, such as a plain `Error`, is answered with 500. */
  lemma StatusDefaultsTo500(e: Exception)
    requires e.Raised? && e.getStatus.None?
    ensures Catch(e).Written? && Catch(e).status == INTERNAL_SERVER_ERROR
  {
  }

  /** A plain `Error` is answered with 500 and the fixed text. */
  lemma PlainErrorAnswer()
    ensures Catch(PlainError) == Written(INTERNAL_SERVER_ERROR, ErrorBody(INTERNAL_SERVER_ERROR, Str(INVALID_REQUEST)))
  {
  }

  /** A bad request is answered with 400 and its message as given. */
  lemma BadRequestAnswer(message: string)
    ensures Catch(BadRequest(message)) == Written(BAD_REQUEST, ErrorBody(BAD_REQUEST, Str(message)))
  {
    var response := ResponseOf(BadRequest(message));
    assert BAD_REQUEST in VALIDATION_STATUSES;
    assert HasMessageKey(response);
  }

  /**
   * An unprocessable entity whose body has no `message`, such as the
   * missing-file error, is answered with 422 and the whole body as message.
   */
  lemma UnprocessableWithoutMessage(body: map<string, JsValue>)
    requires "message" !in body && "error" !in body
    ensures Catch(UnprocessableEntity(body)) == Written(UNPROCESSABLE_ENTITY, ErrorBody(UNPROCESSABLE_ENTITY, Obj(body)))
  {
    assert UNPROCESSABLE_ENTITY in VALIDATION_STATUSES;
  }

  /** A status outside the four passes the response's `error` text on, as NestJS fills it in. */
  lemma OtherStatusUsesError(status: int, message: string, error: string)
    requires status !in VALIDATION_STATUSES && error != ""
    ensures Catch(Raised(Some(status), Some(Obj(map["message" := Str(message), "error" := Str(error)])))) ==
      Written(status, ErrorBody(status, Str(error)))
  {
  }

  /** A rejected interceptor payload reaches the client as a 400 naming the payload. */
  lemma InvalidPayloadAnswer()
    ensures CatchGuarded(BadRequest(ResponseInterception.INVALID_PAYLOAD)) ==
      Catch(BadRequest(ResponseInterception.INVALID_PAYLOAD)) ==
      Written(BAD_REQUEST, ErrorBody(BAD_REQUEST, Str("Invalid request payload !")))
  {
    BadRequestAnswer(ResponseInterception.INVALID_PAYLOAD);
    GuardedAgrees(BadRequest(ResponseInterception.INVALID_PAYLOAD));
  }

  /** A missing upload reaches the client as a 422 whose message is the error object. */
  lemma MissingFileAnswer()
    ensures CatchGuarded(FilesService.MissingFileError) == Catch(FilesService.MissingFileError) ==
      Written(UNPROCESSABLE_ENTITY, ErrorBody(UNPROCESSABLE_ENTITY,
        Obj(map["status" := Num(UNPROCESSABLE_ENTITY), "errors" := Obj(map["file" := Str("selectFile")])])))
  {
    UnprocessableWithoutMessage(map["status" := Num(UNPROCESSABLE_ENTITY), "errors" := Obj(map["file" := Str("selectFile")])]);
    GuardedAgrees(FilesService.MissingFileError);
  }
}
