/**
 * The application error codes and their HTTP statuses. Status numbers are
 * those of section 15 of RFC 9110, and 429 of section 4 of RFC 6585.
 */
module ErrCode {

  // General
  const CodeOK: int := 0
  const CodeInternalError: int := 1000
  const CodeUnauthorized: int := 1001
  const CodeForbidden: int := 1002
  const CodeTooManyRequests: int := 1003
  const CodeInvalidSignature: int := 1004
  const CodeNotImplemented: int := 1005
  // Users
  const CodeUserNotFound: int := 2000
  const CodeUserAlreadyExists: int := 2001
  const CodeInvalidPassword: int := 2002
  const CodeUserDisabled: int := 2003
  const CodeTokenExpired: int := 2004
  // Resources
  const CodeResourceNotFound: int := 3000
  const CodeResourceAlreadyExists: int := 3001
  const CodeConflict: int := 3002
  const CodeResourceLocked: int := 3003
  // Parameters
  const CodeInvalidParam: int := 4000
  const CodeMissingParam: int := 4001
  const CodeValidationFailed: int := 4002
  const CodeUnsupportedFormat: int := 4003
  const CodeOutOfRange: int := 4004
  // Infrastructure
  const CodeDatabaseError: int := 5000
  const CodeCacheError: int := 5001
  const CodeNetworkError: int := 5002
  const CodeExternalAPIError: int := 5003
  const CodeFileSystemError: int := 5004

  const StatusOK: int := 200
  const StatusBadRequest: int := 400
  const StatusUnauthorized: int := 401
  const StatusForbidden: int := 403
  const StatusNotFound: int := 404
  const StatusConflict: int := 409
  const StatusTooManyRequests: int := 429
  const StatusInternalServerError: int := 500
  const StatusNotImplemented: int := 501

  /** The statuses a code can map to. */
  predicate KnownStatus(s: int) {
    s in {StatusOK, StatusBadRequest, StatusUnauthorized, StatusForbidden, StatusNotFound,
          StatusConflict, StatusTooManyRequests, StatusInternalServerError, StatusNotImplemented}
  }

  /** `MapToHTTPStatus`: total; anything not listed is a server error. */
  function MapToHTTPStatus(code: int): (status: int)
    ensures KnownStatus(status)
    ensures status == StatusOK <==> code == CodeOK
  {
    if code == CodeOK then StatusOK
    else if code == CodeUnauthorized then StatusUnauthorized
    else if code == CodeForbidden then StatusForbidden
    else if code == CodeTooManyRequests then StatusTooManyRequests
    else if code in {CodeInvalidSignature, CodeInvalidParam, CodeMissingParam, CodeValidationFailed} then StatusBadRequest
    else if code in {CodeResourceNotFound, CodeUserNotFound} then StatusNotFound
    else if code in {CodeConflict, CodeResourceAlreadyExists} then StatusConflict
    else if code == CodeNotImplemented then StatusNotImplemented
    else StatusInternalServerError
  }

  /**
   * The preimage of every status: which codes produce it. Every code outside
   * the listed ones, the infrastructure codes among them, is a 500.
   */
  lemma StatusPreimages(code: int)
    ensures MapToHTTPStatus(code) == StatusUnauthorized <==> code == CodeUnauthorized
    ensures MapToHTTPStatus(code) == StatusForbidden <==> code == CodeForbidden
    ensures MapToHTTPStatus(code) == StatusTooManyRequests <==> code == CodeTooManyRequests
    ensures MapToHTTPStatus(code) == StatusBadRequest <==>
      code == CodeInvalidSignature || code == CodeInvalidParam || code == CodeMissingParam || code == CodeValidationFailed
    ensures MapToHTTPStatus(code) == StatusNotFound <==> code == CodeResourceNotFound || code == CodeUserNotFound
    ensures MapToHTTPStatus(code) == StatusConflict <==> code == CodeConflict || code == CodeResourceAlreadyExists
    ensures MapToHTTPStatus(code) == StatusNotImplemented <==> code == CodeNotImplemented
    ensures MapToHTTPStatus(code) == StatusInternalServerError <==>
      code !in {CodeOK, CodeUnauthorized, CodeForbidden, CodeTooManyRequests, CodeInvalidSignature, CodeInvalidParam,
                CodeMissingParam, CodeValidationFailed, CodeResourceNotFound, CodeUserNotFound, CodeConflict,
                CodeResourceAlreadyExists, CodeNotImplemented}
  {
  }

  /** Defined codes the switch has no case for. */
  predicate Unlisted(code: int) {
    code in {CodeInternalError, CodeUserAlreadyExists, CodeInvalidPassword, CodeUserDisabled, CodeTokenExpired,
             CodeResourceLocked, CodeUnsupportedFormat, CodeOutOfRange}
  }

  /**
   * Status classes: only `CodeOK` succeeds, the 5xxx infrastructure codes are
   * server errors, and codes such as `CodeUserAlreadyExists` or
   * `CodeTokenExpired` that the switch does not list fall to 500 as well.
   */
  lemma StatusClasses(code: int)
    ensures 200 <= MapToHTTPStatus(code) < 300 <==> code == CodeOK
    ensures 5000 <= code <= 5004 ==> MapToHTTPStatus(code) == StatusInternalServerError
    ensures Unlisted(code) ==> MapToHTTPStatus(code) == StatusInternalServerError
  {
  }
}
