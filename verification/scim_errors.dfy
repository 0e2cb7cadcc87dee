/** Errors of the SCIM core and the service's ScimException, which turns
    the SDK's protocol exceptions into an HTTP status and a scimType. */
module ScimErrors {

  /** The SDK exceptions the services throw. */
  datatype ProtocolError =
    | ResourceNotFound(message: string)
    | BadRequest(message: string, scimType: string)
    | PreconditionFailed(message: string)
    | OtherProtocolError(message: string)
  {
    function Message(): string {
      match this
      case ResourceNotFound(m) => m
      case BadRequest(m, _) => m
      case PreconditionFailed(m) => m
      case OtherProtocolError(m) => m
    }
  }

  /** `BadRequestException.uniqueness(message)`. */
  function Uniqueness(message: string): ProtocolError {
    BadRequest(message, "uniqueness")
  }

  /** Everything a service call can end with instead of a result: a protocol
      exception, a violated table constraint reported by the database (the
      transaction rolls back), an invalid page request, or a page whose
      offset does not fit a Java int. */
  datatype ServiceError =
    | Protocol(error: ProtocolError)
    | IntegrityViolation(table: string)
    | InvalidPageRequest
    | OffsetOutOfRange

  /** Spring's `HttpStatus`, by its numeric code. */
  datatype HttpStatus = HttpStatus(code: int)

  const NOT_FOUND := HttpStatus(404)
  const BAD_REQUEST := HttpStatus(400)
  const CONFLICT := HttpStatus(409)
  const INTERNAL_SERVER_ERROR := HttpStatus(500)

  /** The service's ScimException: a message, a status and a scimType. */
  datatype ScimException = ScimException(message: string, status: HttpStatus, scimType: string)

  /** `new ScimException(message, status, scimType)` stores all three
      verbatim, whatever the status. */
  function Explicit(message: string, status: HttpStatus, scimType: string): (r: ScimException)
    ensures r.message == message && r.status == status && r.scimType == scimType
  {
    ScimException(message, status, scimType)
  }

  /** `new ScimException(ex)`: keeps the message; not-found is 404
      invalidResource, bad request is 400 invalidSyntax whatever the SDK's
      own scimType was, anything else is 500 serverError. */
  function Classify(ex: ProtocolError): (r: ScimException)
    ensures r.message == ex.Message()
    ensures ex.ResourceNotFound? <==> r.status == NOT_FOUND
    ensures ex.BadRequest? <==> r.status == BAD_REQUEST
    ensures (ex.PreconditionFailed? || ex.OtherProtocolError?) <==> r.status == INTERNAL_SERVER_ERROR
    ensures r.scimType == (if r.status == NOT_FOUND then "invalidResource"
                           else if r.status == BAD_REQUEST then "invalidSyntax"
                           else "serverError")
  {
    match ex
    case ResourceNotFound(m) => ScimException(m, NOT_FOUND, "invalidResource")
    case BadRequest(m, _) => ScimException(m, BAD_REQUEST, "invalidSyntax")
    case _ => ScimException(ex.Message(), INTERNAL_SERVER_ERROR, "serverError")
  }

  /** The classification is one of exactly three (status, scimType) pairs. */
  lemma ClassificationIsThreeWay(ex: ProtocolError)
    ensures var r := Classify(ex);
            (r.status.code, r.scimType) in {(404, "invalidResource"), (400, "invalidSyntax"), (500, "serverError")}
  {
  }

  /** The converting constructor is the explicit one at one of the three
      pairs, so an explicit exception with any other status, such as 409
      CONFLICT, is never the conversion of an SDK exception. */
  lemma ExplicitCoversClassify(ex: ProtocolError, message: string, scimType: string)
    ensures Classify(ex) == Explicit(ex.Message(), Classify(ex).status, Classify(ex).scimType)
    ensures Explicit(message, CONFLICT, scimType) != Classify(ex)
  {
  }

  /** A username clash comes out as 400 invalidSyntax (RFC 7644 section 3.12
      would have 409 uniqueness) and an If-Match mismatch as 500 serverError
      (RFC 7644 section 3.14 would have 412). */
  lemma StandardDeviations(message: string)
    ensures Classify(Uniqueness(message)) == ScimException(message, BAD_REQUEST, "invalidSyntax")
    ensures Classify(PreconditionFailed(message)) == ScimException(message, INTERNAL_SERVER_ERROR, "serverError")
  {
  }
}
