/** The backend's failures and `GlobalExceptionHandler`, which turns each
    into an HTTP status, a title and a message. */
module Errors {
  import opened Text

  /** What a backend operation can throw. */
  datatype Failure =
    | ValidationFailed(fieldMessages: seq<string>)  // request-body validation
    | IllegalArgument(message: string)
    | IllegalState(message: string)
    | BadUpdateRequest(message: string)
    | CompanyNotFound(message: string)
    | DuplicateCareersUrl(careersUrl: string)
    | CompanyCreation
    | NullReference                                 // a `null` dereferenced
    | DuplicateKey                                  // unique constraint hit in the database
    | DataIntegrityViolation                        // other constraint hit in the database
    | StatementRejected                             // the database refuses a statement (e.g. a negative LIMIT)

  /** The JSON error body, without its timestamp and path. */
  datatype ErrorResponse = ErrorResponse(status: int, error: string, message: string)

  const NotFoundMessage := "Company not found"
  const DuplicateUrlMessage := "A company with this careers URL already exists"
  const CreationFailedMessage := "Failed to create company. Please try again later."
  const UnexpectedMessage := "An unexpected error occurred. Please try again later."

  /** `new CompanyNotFoundException(companyId)`. */
  function NotFoundWithId(id: string): Failure {
    CompanyNotFound("Company not found with id: " + id)
  }

  /** Failures the handler reports as the client's fault. */
  predicate IsClientError(f: Failure) {
    f.ValidationFailed? || f.IllegalArgument? || f.BadUpdateRequest?
  }

  /** The response each failure is mapped to; anything without a dedicated
      handler falls through to the generic one. */
  function Handle(f: Failure): (r: ErrorResponse)
    ensures r.status == 400 <==> IsClientError(f)
    ensures r.status == 404 <==> f.CompanyNotFound?
    ensures r.status == 409 <==> f.DuplicateCareersUrl?
    ensures r.status in {400, 404, 409, 500}
    ensures r.status == 500 ==> r.error == "Internal Server Error"
    ensures r.status == 500 ==> r.message in {CreationFailedMessage, UnexpectedMessage}
    ensures f.IllegalArgument? || f.BadUpdateRequest? || f.CompanyNotFound? ==> r.message == f.message
    ensures f.ValidationFailed? ==> r.message == Join(f.fieldMessages, ", ")
  {
    match f
    case ValidationFailed(msgs) => ErrorResponse(400, "Validation Error", Join(msgs, ", "))
    case IllegalArgument(m) => ErrorResponse(400, "Bad Request", m)
    case BadUpdateRequest(m) => ErrorResponse(400, "Bad Request", m)
    case CompanyNotFound(m) => ErrorResponse(404, "Not Found", m)
    case DuplicateCareersUrl(_) => ErrorResponse(409, "Conflict", DuplicateUrlMessage)
    case CompanyCreation => ErrorResponse(500, "Internal Server Error", CreationFailedMessage)
    case _ => ErrorResponse(500, "Internal Server Error", UnexpectedMessage)
  }

  /** Server errors carry no detail of the failure: any two failures that
      reach the generic handler produce the same response. */
  lemma ServerErrorsAreOpaque(f: Failure, g: Failure)
    requires Handle(f).status == 500 && Handle(g).status == 500
    requires !f.CompanyCreation? && !g.CompanyCreation?
    ensures Handle(f) == Handle(g)
  {
  }

  /** The duplicate-URL conflict does not echo the URL. */
  lemma ConflictHidesUrl(u: string, v: string)
    ensures Handle(DuplicateCareersUrl(u)) == Handle(DuplicateCareersUrl(v))
  {
  }
}
