/** The web framework's view of a reply: the errors the handlers raise and
    the response they build. */
module Http {

  /** Why a request was refused as unauthorised: `ParseError::Header`, or the
      header value's failed conversion to text (`ToStrError`). */
  datatype AuthCause = HeaderParseError | ToStrError

  /** What an internal server error wraps: the I/O error of reading the body,
      or the HTTP client's error from sending the build request. */
  datatype InternalCause = BodyRead | TravisSend

  /** `actix_web::Error` as raised here. `JsonPayload` is the JSON extractor's
      refusal of a body that is not a push event. */
  datatype Error =
    | Unauthorized(authCause: AuthCause)
    | InternalServerError(internalCause: InternalCause)
    | JsonPayload

  /** The status the framework answers an error with. */
  function ErrorStatus(e: Error): nat
  {
    match e
    case Unauthorized(_) => 401
    case InternalServerError(_) => 500
    case JsonPayload => 400
  }

  datatype Response = Response(status: nat, contentType: string, body: string)

  /** `Result<HttpResponse, Error>`. */
  datatype Reply = Ok(response: Response) | Err(error: Error)

  function Status(r: Reply): nat
  {
    match r
    case Ok(response) => response.status
    case Err(e) => ErrorStatus(e)
  }
}
