/**
 The two handlers of `userRoutes()`: `POST /users/register` and
 `POST /users/login`. Each is a pure function from the current `users` table
 and a decoded request body to the HTTP status, the `UserResponse` body and
 the table after the call.

 The database can fail. Which step fails first, and with which kind of
 exception, is an input (`Fault`); a fault scheduled at a step the handler
 never reaches has no effect. Calls are sequential: the race between two
 registrations of one pseudo, each passing the existence check before either
 inserts, is a property of concurrent calls and is not captured here.
 */
module UserRoutes {
  import opened UserModel
  import opened Text
  import opened UsersTable

  const OK: nat := 200
  const Created: nat := 201
  const BadRequest: nat := 400
  const Unauthorized: nat := 401
  const Conflict: nat := 409
  const InternalServerError: nat := 500

  /** The class of a caught exception: the register route answers an
      `SQLException` with its own message kind; everything else is caught as
      `Exception`. */
  datatype Exception = SqlException | OtherException

  /** The first database step that goes wrong during a call, if any. */
  datatype Fault =
    | NoFault
    | ConnectFails(e: Exception)   // `Database.connect()` throws
    | QueryFails(e: Exception)     // the SELECT throws
    | InsertFails(e: Exception)    // the INSERT throws (register only)
    | NothingInserted              // the INSERT reports zero rows (register only)

  /** What a handler call produces: the status, the body, and the table afterwards. */
  datatype Reply = Reply(status: nat, body: UserResponse, table: Table)

  /** `POST /users/register`. */
  function Register(isWhitespace: char -> bool, t: Table, u: User, fault: Fault): (r: Reply)
    ensures r.body.success <==> r.status == Created
    ensures r.status in {BadRequest, Conflict, Created, InternalServerError}
    ensures r.body.pseudo.None?
    ensures r.status == Created ==> r.table == t + [u]
    ensures r.status != Created ==> r.table == t
  {
    if IsBlank(u.pseudo, isWhitespace) || IsBlank(u.password, isWhitespace) || IsBlank(u.city, isWhitespace) then
      Reply(BadRequest, UserResponse(false, FieldsRequired, None), t)
    else if fault.ConnectFails? || fault.QueryFails? then
      // a caught `SQLException` or other `Exception`
      Reply(InternalServerError, UserResponse(false, if fault.e.SqlException? then DatabaseError else InternalError, None), t)
    else if PseudoExists(t, u.pseudo) then
      Reply(Conflict, UserResponse(false, PseudoTaken, None), t)
    else if fault.InsertFails? then
      // a caught `SQLException` or other `Exception`
      Reply(InternalServerError, UserResponse(false, if fault.e.SqlException? then DatabaseError else InternalError, None), t)
    else if fault.NothingInserted? then
      Reply(InternalServerError, UserResponse(false, CreationFailed, None), t)
    else
      // The row is the request body as received: the password is stored verbatim.
      Reply(Created, UserResponse(true, UserCreated, None), t + [u])
  }

  /** `POST /users/login`. The body is decoded as a full `User`; its city is
      never consulted. */
  function Login(isWhitespace: char -> bool, t: Table, u: User, fault: Fault): (r: Reply)
    ensures r.body.success <==> r.status == OK
    ensures r.status in {BadRequest, OK, Unauthorized, InternalServerError}
    ensures r.body.pseudo.None?
    ensures r.table == t
  {
    if IsBlank(u.pseudo, isWhitespace) || IsBlank(u.password, isWhitespace) then
      Reply(BadRequest, UserResponse(false, CredentialsRequired, None), t)
    else if fault.ConnectFails? || fault.QueryFails? then
      Reply(InternalServerError, UserResponse(false, InternalError, None), t)
    else if CredentialsMatch(t, u.pseudo, u.password) then
      Reply(OK, UserResponse(true, LoginSucceeded, None), t)
    else
      Reply(Unauthorized, UserResponse(false, WrongCredentials, None), t)
  }
}
