/**
 * The error kinds the services return. Most stand for codes of the
 * `blog-server/errs` package (`CodeDatabaseError`, `CodeInvalidParam`,
 * `CodeNoContent`, `CodeDuplicate`, `CodeConflict`, ...), whose numeric
 * values are not part of this model; the rest are the raw errors of the
 * upload path, and the sentinel errors of the earlier authentication
 * service.
 */
module Errs {

  datatype Failure =
    | DatabaseError
    | InvalidParam
    | NoContent
    | Duplicate
    /** An error of the temporary file or the copy (`os`/`io`), returned unwrapped. */
    | FileError
    /** An error of the object store, returned unwrapped. */
    | StorageError
    /** A Go runtime panic rather than an error value (a nil pointer dereference). */
    | NilDereference
    | Conflict
    | CacheError
    | InternalError
    | UserNotFound
    | Unauthorized
    /** An error of the mailer, returned unwrapped. */
    | MailError
    /** An error of the JWT service, returned unwrapped. */
    | TokenError
    // Sentinel errors of the earlier authentication service.
    | InvalidCaptcha
    | UserExists
    | PasswordWrong
    | TokenGeneration
    /** A plain error made with `fmt.Errorf` or passed through without a code. */
    | Plain
}
