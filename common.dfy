/** Option and Result types, and the error kinds the services raise. */
module Common {

  /** A value that may be missing: `undefined`/`null` in the service code. */
  datatype Option<+T> = None | Some(value: T)
  {
    function GetOr(default: T): T {
      match this
      case Some(v) => v
      case None => default
    }
  }

  /** The outcome of an operation that either returns a value or raises an exception. */
  datatype Result<+T> = Ok(value: T) | Err(error: Error)

  /** Which of the two Unauthorized messages the strategies raise. */
  datatype AuthFailure =
    | InvalidCredentials       // local strategy: 'Invalid credentials.'
    | InvalidOrDeactivated     // JWT strategy: 'User is invalid, not found, or deactivated.'

  /**
   * The exceptions thrown by the core, one constructor per exception class.
   * Display strings are replaced by the data they are built from.
   */
  datatype Error =
    | NotFound(id: string)            // NotFoundException: User with ID "<id>" not found.
    | Conflict                        // ConflictException: Username or email already in use.
    | Unauthorized(reason: AuthFailure)
    | UnprocessableEntity             // UnprocessableEntityException: auth.INVALID_RESET_TOKEN
    | RecordToUpdateNotFound          // the store's own failure on update/delete of a missing id
    | MissingJwtSecret                // Error: JWT_SECRET is not defined in environment variables

  /** The i18n keys of the success messages of the password-reset flow. */
  datatype Message = PasswordResetInitiated | PasswordResetSuccess
}
