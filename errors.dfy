/**
 * The exceptions the core throws, as values. Each user-facing message of the
 * source is one constructor, so that "the same error" means the same value.
 */
module Errors {

  /** Reasons for an UnauthorizedException. */
  datatype AuthFailure =
    | InvalidCredentials      // unknown email or wrong password, deliberately alike
    | NoAuthorizationHeader
    | NoTokenProvided
    | NoUserInRequest
    | LoggedOut               // the persisted access token is absent or empty
    | TokenMismatch           // "Invalid or expired token": a newer login replaced it

  /** Reasons for a ForbiddenException raised by the users controller. */
  datatype Denial =
    | OtherUserDetails        // a non-admin reading someone else
    | OtherUserUpdate         // a non-admin updating someone else
    | RoleUpdate              // a non-admin sending a role
    | AdminDemotion           // anybody turning an ADMIN into a USER
    | SelfDeletion
    | AdminDeletion

  datatype Error =
    | NotFound(id: string)              // "Entity with ID ... not found"
    | NotFoundAfterUpdate(id: string)   // the re-read after an update found nothing
    | Conflict                          // "Email already exists"
    | Unauthorized(failure: AuthFailure)
    | Forbidden(denial: Denial)

  /** A call that either returns a value or throws one of the errors above. */
  datatype Result<+T> = Ok(value: T) | Err(error: Error)
}
