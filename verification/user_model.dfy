/**
 The request and response records of the user account routes: the `User`
 body that both `/users/register` and `/users/login` decode, and the
 `UserResponse` body both of them answer with.
 */
module UserModel {

  /** A value that may be absent, standing for a nullable field. */
  datatype Option<+T> = None | Some(value: T)

  /** The body of a register or login request; also one row of the `users`
      table, holding the three columns the routes write. */
  datatype User = User(pseudo: string, password: string, city: string)

  /** The kinds of human-readable message a response carries. The text itself
      (and the exception text appended to the two error kinds) is opaque. */
  datatype Message =
    | FieldsRequired        // register: a field is blank
    | PseudoTaken           // register: the pseudo is already in the table
    | UserCreated           // register: the row was inserted
    | CreationFailed        // register: the insert reported zero rows
    | DatabaseError         // register: an SQL exception was caught
    | InternalError         // either route: any other exception was caught
    | CredentialsRequired   // login: pseudo or password is blank
    | LoginSucceeded        // login: a row matched
    | WrongCredentials      // login: no row matched

  /** The body of every response of the two routes. Neither route sets the
      optional pseudo, so it always keeps its default, null (`None`). */
  datatype UserResponse = UserResponse(success: bool, message: Message, pseudo: Option<string>)
}
