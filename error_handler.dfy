/** `errorHandler` (src/utils/errorHandler.js): the terminal handler that turns
    whatever reached `next(err)` into a response. */
module ErrorHandler {
  import opened Common
  import opened Http
  import Validation

  /** `err.statusCode || 500`: a missing or zero status code falls back to 500. */
  function FallbackStatus(statusCode: Option<int>): (status: int)
    ensures status != 0
    ensures statusCode.Some? && statusCode.value != 0 ==> status == statusCode.value
    ensures statusCode.None? || statusCode == Some(0) ==> status == 500
  {
    match statusCode
    case Some(c) => if c != 0 then c else 500
    case None => 500
  }

  /** `err.message || 'Internal Server Error'`. */
  function FallbackMessage(message: string): (m: string)
    ensures m != ""
    ensures message != "" ==> m == message
    ensures message == "" ==> m == "Internal Server Error"
  {
    if message != "" then message else "Internal Server Error"
  }

  /** The branches are tried in order and each writes exactly one response, always of
      the shape `{ errors: {...} }`. */
  method HandleError(err: Error) returns (resp: Response)
    ensures resp.payload.ErrorsBody?
    ensures err.HttpError? ==> resp == Response(err.status, Errors("message", err.message))
    ensures err.ValidationError? ==>
      resp.status == 400 && resp.payload.errors == Validation.ErrorMap(err.details)
    ensures err.Fault? ==>
      resp.status == FallbackStatus(err.statusCode)
      && resp.payload == Errors("message", FallbackMessage(err.message))
  {
    match err
    case HttpError(status, message) =>
      resp := Response(status, Errors("message", message));
    case ValidationError(details) =>
      var acc := Validation.CollectErrors(details);
      resp := Response(400, ErrorsBody(acc));
    case Fault(statusCode, message) =>
      resp := Response(FallbackStatus(statusCode), Errors("message", FallbackMessage(message)));
  }
}
