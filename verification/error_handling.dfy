/** The exception-to-response switch of the API's error middleware
    (TrailerRent.API/Middleware/ErrorHandlingMiddleware.cs). Logging and JSON
    serialisation are left out. */
module ErrorHandling {
  import opened Common
  import opened Exceptions
  import RS = RentalService
  import Auth = AuthService
  import Entities

  /** The JSON body of an error reply. */
  datatype ErrorResponse = ErrorResponse(message: string, statusCode: int)

  /** The HTTP status of the reply together with its body. */
  datatype Reply = Reply(status: int, body: ErrorResponse)

  const StatusBadRequest: int := 400
  const StatusUnauthorized: int := 401
  const StatusNotFound: int := 404
  const StatusConflict: int := 409
  const StatusInternalServerError: int := 500

  const GenericMessage: string := "An error occurred while processing your request"

  /** `HandleExceptionAsync`: the four service exceptions keep their message
      under their own status; everything else becomes a 500 with a fixed
      message. The body always repeats the reply's status. */
  function HandleException(e: Exception): (reply: Reply)
    ensures reply.body.statusCode == reply.status
    ensures e.NotFound? ==> reply.status == 404
    ensures e.Conflict? ==> reply.status == 409
    ensures e.Validation? ==> reply.status == 400
    ensures e.Unauthorized? ==> reply.status == 401
    ensures IsServiceError(e) <==> reply.status != 500
    ensures IsServiceError(e) ==> reply.body.message == e.message
    ensures !IsServiceError(e) ==> reply.body.message == GenericMessage
  {
    match e
    case NotFound(message) => Reply(StatusNotFound, ErrorResponse(message, StatusNotFound))
    case Conflict(message) => Reply(StatusConflict, ErrorResponse(message, StatusConflict))
    case Validation(message) => Reply(StatusBadRequest, ErrorResponse(message, StatusBadRequest))
    case Unauthorized(message) => Reply(StatusUnauthorized, ErrorResponse(message, StatusUnauthorized))
    case _ => Reply(StatusInternalServerError, ErrorResponse(GenericMessage, StatusInternalServerError))
  }

  /** The switch matches only the four service exceptions (and their
      subclasses, of which there are none): a plain BusinessException and the
      framework's UnauthorizedAccessException (thrown for an unusable token)
      both fall through to 500, hiding their messages. */
  lemma UnmatchedExceptionsAreServerErrors(message: string)
    ensures HandleException(Business(message)) == Reply(500, ErrorResponse(GenericMessage, 500))
    ensures HandleException(UnauthorizedAccess(message)) == Reply(500, ErrorResponse(GenericMessage, 500))
    ensures HandleException(Unexpected(message)) == Reply(500, ErrorResponse(GenericMessage, 500))
  {
  }

  /** A failed booking reaches the client as 404, 400 or 409 with the
      service's own message, never as a 500. */
  lemma CreateRentalFailuresAreClientErrors(store: RS.Store, userId: int, request: RS.CreateRentalRequest,
                                            today: int, now: int)
    requires RS.Create(store, userId, request, today, now).Err?
    ensures var reply := HandleException(RS.Create(store, userId, request, today, now).error);
      reply.status in {400, 404, 409} &&
      reply.body.message == RS.Create(store, userId, request, today, now).error.message
  {
  }

  /** A failed login or registration reaches the client as 401 or 409. */
  lemma AuthFailuresAreClientErrors(users: seq<Entities.User>, login: Auth.LoginRequest,
                                    register: Auth.RegisterRequest, hasher: Auth.Hasher, salt: string,
                                    activeOnCreate: bool)
    ensures Auth.Login(users, login, hasher).Err? ==>
      HandleException(Auth.Login(users, login, hasher).error).status == 401
    ensures Auth.Register(users, register, hasher, salt, activeOnCreate).Err? ==>
      HandleException(Auth.Register(users, register, hasher, salt, activeOnCreate).error).status == 409
  {
  }
}
