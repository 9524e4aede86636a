/** The exceptions a request can end in (Business/Exceptions/BusinessExceptions.cs),
    together with the framework exceptions that reach the error middleware. */
module Exceptions {

  datatype Exception =
    | NotFound(message: string)
    | Conflict(message: string)
    | Validation(message: string)
    | Unauthorized(message: string)
      /** A `BusinessException` that is none of the four subclasses above. */
    | Business(message: string)
      /** `System.UnauthorizedAccessException`, thrown by the rentals controller
          for a token without a usable user id. */
    | UnauthorizedAccess(message: string)
      /** Any other exception: database errors, null references and so on. */
    | Unexpected(message: string)

  /** The exceptions the service layer throws on purpose. */
  predicate IsServiceError(e: Exception) {
    e.NotFound? || e.Conflict? || e.Validation? || e.Unauthorized?
  }
}
