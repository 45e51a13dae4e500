# User account routes of the Moteo backend, modelled in Dafny

The Moteo backend serves a mobile app. Its account logic is two Ktor handlers
in `userRoutes()`:

- `POST /users/register` creates a row in the `users` table.
- `POST /users/login` checks a pseudo and password against that table.

This project models both handlers as pure functions. Each takes the current
table, a decoded `User` body and a database fault input. Each returns the
HTTP status, the `UserResponse` body and the table after the call.

- `user_model.dfy` (`UserModel`): the `User` and `UserResponse` records. The
  message is an opaque enumeration of the message kinds the routes send.
- `text.dfy` (`Text`): Kotlin's `isBlank`, meaning every character is
  whitespace. The whitespace classifier is a parameter
  `isWhitespace: char -> bool`, so every result holds for any classifier.
- `users_table.dfy` (`UsersTable`): the `users` table as a sequence of rows,
  and the two SELECT queries. `Accounts` is the abstract view of the table,
  a map from pseudo to (password, city). No database-level uniqueness
  constraint appears in the code, so "at most one row per pseudo"
  (`UniquePseudos`) is an invariant that register must keep itself.
- `user_routes.dfy` (`UserRoutes`): the two handlers and their status codes.
  A `Fault` value names the first database step that fails: connecting, the
  SELECT, the INSERT throwing, or the INSERT reporting zero rows. It also
  names the exception class. A fault at a step the handler never reaches has
  no effect.
- `user_routes_properties.dfy` (`UserRoutesProperties`): the properties.
  They cover validation, the existence check, the verbatim insert, the
  credential lookup and the 500 arms. They also cover call sequences: the
  invariant holds after any sequence, and existing accounts are never changed.

The model follows the code as written, including where a more careful
account service would behave differently:

- Login for an unknown pseudo answers 401. No 404 outcome exists.
- Passwords are stored and compared verbatim. `jbcrypt` is declared as a
  dependency but never called.
- Uniqueness rests on the existence check before the insert, not on a storage
  constraint.
- Only register and login exist. There is no profile update and no profile
  lookup.

## Model

| member | source | states |
|---|---|---|
| Text.IsBlank | src/main/kotlin/RoutesUser.kt:20 | `isBlank` holds exactly when every character is whitespace; the empty string is blank |
| UsersTable.PseudoExists | src/main/kotlin/RoutesUser.kt:31-35 | the existence query finds a row exactly when some row has that exact pseudo |
| UsersTable.CredentialsMatch | src/main/kotlin/RoutesUser.kt:91-98 | the login query finds a row exactly when some row has both that exact pseudo and that exact password |
| UsersTable.Accounts | src/main/kotlin/RoutesUser.kt:44-49 | the account map has exactly the pseudos that have a row as keys |
| UsersTable.AccountsKeysMatchQuery | src/main/kotlin/RoutesUser.kt:31-35 | a pseudo has an account exactly when the existence query finds it |
| UsersTable.AccountsLookup | src/main/kotlin/RoutesUser.kt:44-49 | with at most one row per pseudo, each row's password and city are what the account map holds for its pseudo |
| UsersTable.AppendFresh | src/main/kotlin/RoutesUser.kt:43-51 | inserting a row for a pseudo the check did not find keeps one row per pseudo; that pseudo had no account before, so the append adds exactly that account and changes no other |
| UsersTable.CredentialsMatchIsLookup | src/main/kotlin/RoutesUser.kt:91-98 | with one row per pseudo, the login query succeeds exactly when the pseudo's account stores exactly the submitted password |
| UserRoutes.Register | src/main/kotlin/RoutesUser.kt:14-75 | success exactly on 201; the status is one of 400, 409, 201, 500; a 201 appends the request body itself as the new row; every other outcome leaves the table unchanged |
| UserRoutes.Login | src/main/kotlin/RoutesUser.kt:78-116 | success exactly on 200; the status is one of 400, 200, 401, 500; the table is never modified |
| UserRoutesProperties.RegisterRejectsBlank | src/main/kotlin/RoutesUser.kt:20-26 | register answers 400 exactly when pseudo, password or city is all whitespace; that answer is a failure and leaves the table unchanged |
| UserRoutesProperties.RegisterConflictIff | src/main/kotlin/RoutesUser.kt:29-41 | register answers 409 exactly when the fields are present, the database answers the check, and the pseudo already has an account; the table is unchanged |
| UserRoutesProperties.RegisterCreatedIff | src/main/kotlin/RoutesUser.kt:43-56 | register answers 201 exactly when the fields are present, the pseudo has no account, and no database step fails |
| UserRoutesProperties.RegisterAddsOneAccount | src/main/kotlin/RoutesUser.kt:43-56 | on any table, even one with two rows for a pseudo, after a 201 the pseudo had no account before, the account map is the old map plus exactly the entry pseudo to (submitted password, submitted city), and its size grows by one |
| UserRoutesProperties.RegisterAddsExactlyOneAccount | src/main/kotlin/RoutesUser.kt:43-56 | with one row per pseudo, after a 201 the account map is the old map plus exactly the entry pseudo to (submitted password, submitted city); its size grows by one; one row per pseudo still holds |
| UserRoutesProperties.RegisterPreservesUniquePseudos | src/main/kotlin/RoutesUser.kt:29-51 | every register call keeps at most one row per pseudo |
| UserRoutesProperties.RegisterStorageFailureIff | src/main/kotlin/RoutesUser.kt:51-74 | register answers 500 exactly when the fields are present and a step it reaches fails; a connect or check failure always counts, an insert failure or zero rows only for a fresh pseudo; the answer is a failure, its message kind is the zero-rows one, the SQL one or the generic one according to the fault, and the table is unchanged |
| UserRoutesProperties.RegisterTwiceConflicts | src/main/kotlin/RoutesUser.kt:29-41 | once a pseudo is registered, a second register for it answers 409, whatever non-blank password and city it carries, unless the database fails first |
| UserRoutesProperties.LoginRejectsBlank | src/main/kotlin/RoutesUser.kt:82-88 | login answers 400 exactly when pseudo or password is all whitespace; that answer is a failure |
| UserRoutesProperties.LoginMatchesSomeRowIff | src/main/kotlin/RoutesUser.kt:90-108 | on any table, even one with two rows for a pseudo, login answers 200 with success exactly when the fields are present, the database answers, and some row holds both the submitted pseudo and password; otherwise, with fields present and the database answering, it answers 401 |
| UserRoutesProperties.LoginSucceedsIff | src/main/kotlin/RoutesUser.kt:90-102 | with one row per pseudo, login answers 200 with success exactly when the fields are present, the database answers, and the pseudo's account stores exactly the submitted password |
| UserRoutesProperties.LoginUnauthorizedIff | src/main/kotlin/RoutesUser.kt:90-108 | with one row per pseudo, login answers 401 exactly when the fields are present, the database answers, and the pseudo is unknown or its password differs; an unknown pseudo gets the same 401 |
| UserRoutesProperties.LoginStorageFailureIff | src/main/kotlin/RoutesUser.kt:110-115 | login answers 500 with the generic error exactly when the fields are present and connecting or the query fails |
| UserRoutesProperties.LoginIgnoresCity | src/main/kotlin/RoutesUser.kt:80-97 | the city of a login body has no effect on the answer |
| UserRoutesProperties.RegisterThenLogin | src/main/kotlin/RoutesUser.kt:43-101 | on any table, even one with two rows for a pseudo, the password is stored verbatim, so a successful register followed by a login with the same pseudo and password succeeds, unless the login's database steps fail |
| UserRoutesProperties.RunPreservesUniquePseudos | src/main/kotlin/RoutesUser.kt:29-51 | any sequence of register and login calls keeps at most one row per pseudo |
| UserRoutesProperties.RegisterKeepsAccounts | src/main/kotlin/RoutesUser.kt:29-56 | on any table, one register call never removes or changes an existing account, because a 201 only happens for a pseudo without one |
| UserRoutesProperties.RunKeepsAccounts | src/main/kotlin/RoutesUser.kt:14-116 | on any table, no sequence of calls removes or changes an existing account |
| UserRoutesProperties.BobScenario | src/main/kotlin/RoutesUser.kt:29-108 | from an empty table: register bob/pw1/Lyon answers 201; then login bob/pw1 answers 200, bob/wrong answers 401, and nobody/x answers 401 |

## Left out

- Concurrency: two registrations of one pseudo can both pass the existence check before either inserts (RoutesUser.kt:31-51). The model is sequential and cannot capture this race.
- JSON decoding by `call.receive<User>()` and rendering by `call.respond` are left out. A body that fails to decode would be caught and answered with 500; the model's input is always an already decoded `User`. In particular a login body without a `city` field does not decode, because `User` gives `city` no default, and the login route's catch answers 500; `LoginIgnoresCity` is about the value of a city that is present.
- Connection handling is left out: `Database.connect()`, prepared statements, result sets, and release through `use`. A failure while closing the connection is not modelled.
- The message text is opaque: the French strings and the interpolated `e.message` are left out. Only the message kind is modelled.
- SQL string equality is modelled as exact equality of strings. The column types and collation of `users` are not part of this model.
- `Routing.kt` (plugins, CORS, the `/` greeting, `/db-test`), `Application.kt` (server bootstrap) and the build file are framework wiring.
- `LoginRequest` (ModelUser.kt:15-20) is left out because the login route never uses it; it decodes a full `User`.
- Password hashing, profile update and profile lookup are left out because the code has none of them.
