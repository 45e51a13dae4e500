/**
 What the two handlers promise, stated on the account map view of the
 `users` table: validation, the uniqueness check, the verbatim insert, the
 credential lookup, the failure arms, and what a sequence of calls keeps.
 */
module UserRoutesProperties {
  import opened UserModel
  import opened Text
  import opened UsersTable
  import opened UserRoutes

  /** All three register fields carry a non-whitespace character. */
  predicate RegisterFieldsPresent(isWhitespace: char -> bool, u: User) {
    !IsBlank(u.pseudo, isWhitespace) && !IsBlank(u.password, isWhitespace) && !IsBlank(u.city, isWhitespace)
  }

  /** Pseudo and password both carry a non-whitespace character. */
  predicate LoginFieldsPresent(isWhitespace: char -> bool, u: User) {
    !IsBlank(u.pseudo, isWhitespace) && !IsBlank(u.password, isWhitespace)
  }

  /** The fault strikes before the handler learns anything from the table. */
  predicate FailsBeforeQuery(fault: Fault) {
    fault.ConnectFails? || fault.QueryFails?
  }

  /** The message kind of register's 500 answer for a fault it reaches: zero
      rows has its own kind, an SQL exception the database kind, and any other
      exception the generic kind. */
  function RegisterFailureMessage(fault: Fault): Message {
    if fault.NothingInserted? then CreationFailed
    else if !fault.NoFault? && fault.e == SqlException then DatabaseError
    else InternalError
  }

  // ---------------------------------------------------------------- register

  /** Register answers 400 exactly when some field is blank (every character
      whitespace, the empty string included); the answer is a failure and the
      table is untouched. */
  lemma RegisterRejectsBlank(isWhitespace: char -> bool, t: Table, u: User, fault: Fault)
    ensures var r := Register(isWhitespace, t, u, fault);
      && (r.status == BadRequest
          <==> AllWhitespace(u.pseudo, isWhitespace) || AllWhitespace(u.password, isWhitespace)
               || AllWhitespace(u.city, isWhitespace))
      && (r.status == BadRequest ==> !r.body.success && r.body.message == FieldsRequired && r.table == t)
  {
  }

  /** Register answers 409 exactly when the fields are present, the database
      answered the existence query, and the pseudo already has an account;
      the answer is a failure and the table is untouched. */
  lemma RegisterConflictIff(isWhitespace: char -> bool, t: Table, u: User, fault: Fault)
    ensures var r := Register(isWhitespace, t, u, fault);
      && (r.status == Conflict
          <==> RegisterFieldsPresent(isWhitespace, u) && !FailsBeforeQuery(fault) && u.pseudo in Accounts(t))
      && (r.status == Conflict ==> !r.body.success && r.body.message == PseudoTaken && r.table == t)
  {
    AccountsKeysMatchQuery(t, u.pseudo);
  }

  /** Register answers 201 exactly when the fields are present, the pseudo has
      no account yet and no database step fails. */
  lemma RegisterCreatedIff(isWhitespace: char -> bool, t: Table, u: User, fault: Fault)
    ensures Register(isWhitespace, t, u, fault).status == Created
        <==> RegisterFieldsPresent(isWhitespace, u) && u.pseudo !in Accounts(t) && fault == NoFault
  {
    AccountsKeysMatchQuery(t, u.pseudo);
  }

  /** On every table, including one with two rows for a pseudo, a successful
      register adds exactly one account: the pseudo had no account before
      (the existence check), the map gains the entry pseudo to (submitted
      password verbatim, submitted city), and its size grows by one. */
  lemma RegisterAddsOneAccount(isWhitespace: char -> bool, t: Table, u: User, fault: Fault)
    requires Register(isWhitespace, t, u, fault).status == Created
    ensures var t' := Register(isWhitespace, t, u, fault).table;
      && u.pseudo !in Accounts(t)
      && Accounts(t') == Accounts(t)[u.pseudo := Account(u.password, u.city)]
      && |Accounts(t')| == |Accounts(t)| + 1
  {
    AccountsKeysMatchQuery(t, u.pseudo);
    assert (t + [u])[..|t|] == t;
  }

  /** On a table that keeps the invariant, a successful register adds exactly
      one account (`RegisterAddsOneAccount`) and the invariant still holds. */
  lemma RegisterAddsExactlyOneAccount(isWhitespace: char -> bool, t: Table, u: User, fault: Fault)
    requires UniquePseudos(t)
    requires Register(isWhitespace, t, u, fault).status == Created
    ensures var t' := Register(isWhitespace, t, u, fault).table;
      && UniquePseudos(t')
      && u.pseudo !in Accounts(t)
      && Accounts(t') == Accounts(t)[u.pseudo := Account(u.password, u.city)]
      && |Accounts(t')| == |Accounts(t)| + 1
  {
    RegisterAddsOneAccount(isWhitespace, t, u, fault);
    AppendFresh(t, u);
  }

  /** Every register call keeps at most one row per pseudo: the existence
      check guards the insert. */
  lemma RegisterPreservesUniquePseudos(isWhitespace: char -> bool, t: Table, u: User, fault: Fault)
    requires UniquePseudos(t)
    ensures UniquePseudos(Register(isWhitespace, t, u, fault).table)
  {
    if Register(isWhitespace, t, u, fault).status == Created {
      AppendFresh(t, u);
    }
  }

  /** Register answers 500 exactly when the fields are present and a database
      step it reaches fails: connecting or the existence query always, the
      insert (an exception or zero rows) only for a fresh pseudo. The answer
      is a failure and the table is untouched. */
  lemma RegisterStorageFailureIff(isWhitespace: char -> bool, t: Table, u: User, fault: Fault)
    ensures var r := Register(isWhitespace, t, u, fault);
      && (r.status == InternalServerError
          <==> RegisterFieldsPresent(isWhitespace, u)
               && (FailsBeforeQuery(fault) || (u.pseudo !in Accounts(t) && fault != NoFault)))
      && (r.status == InternalServerError
          ==> !r.body.success && r.body.message == RegisterFailureMessage(fault) && r.table == t)
  {
    AccountsKeysMatchQuery(t, u.pseudo);
  }

  /** Once a pseudo is registered, registering it again (with any non-blank
      password and city) is refused with 409 unless the database fails first. */
  lemma RegisterTwiceConflicts(isWhitespace: char -> bool, t: Table, u: User, again: User, fault: Fault)
    requires Register(isWhitespace, t, u, NoFault).status == Created
    requires again.pseudo == u.pseudo && RegisterFieldsPresent(isWhitespace, again)
    requires !FailsBeforeQuery(fault)
    ensures Register(isWhitespace, Register(isWhitespace, t, u, NoFault).table, again, fault).status == Conflict
  {
    var t' := t + [u];
    assert t'[|t|].pseudo == again.pseudo;
  }

  // ------------------------------------------------------------------- login

  /** Login answers 400 exactly when the pseudo or the password is blank;
      such a call never succeeds. */
  lemma LoginRejectsBlank(isWhitespace: char -> bool, t: Table, u: User, fault: Fault)
    ensures var r := Login(isWhitespace, t, u, fault);
      && (r.status == BadRequest
          <==> AllWhitespace(u.pseudo, isWhitespace) || AllWhitespace(u.password, isWhitespace))
      && (r.status == BadRequest ==> !r.body.success && r.body.message == CredentialsRequired)
  {
  }

  /** On every table, including one with two rows for a pseudo, login
      succeeds exactly when the fields are present, the database answers, and
      some row holds both the submitted pseudo and the submitted password;
      with fields present and the database answering, every other login is
      refused with 401. */
  lemma LoginMatchesSomeRowIff(isWhitespace: char -> bool, t: Table, u: User, fault: Fault)
    ensures var r := Login(isWhitespace, t, u, fault);
      && ((r.status == OK && r.body.success)
          <==> LoginFieldsPresent(isWhitespace, u) && !FailsBeforeQuery(fault)
               && exists i :: 0 <= i < |t| && t[i].pseudo == u.pseudo && t[i].password == u.password)
      && (r.status == Unauthorized
          <==> LoginFieldsPresent(isWhitespace, u) && !FailsBeforeQuery(fault)
               && !exists i :: 0 <= i < |t| && t[i].pseudo == u.pseudo && t[i].password == u.password)
  {
  }

  /** On a table that keeps the invariant, login succeeds exactly when the
      fields are present, the database answers, and the pseudo's account
      stores exactly the submitted password. */
  lemma LoginSucceedsIff(isWhitespace: char -> bool, t: Table, u: User, fault: Fault)
    requires UniquePseudos(t)
    ensures var r := Login(isWhitespace, t, u, fault);
      (r.status == OK && r.body.success)
        <==> LoginFieldsPresent(isWhitespace, u) && !FailsBeforeQuery(fault)
             && u.pseudo in Accounts(t) && Accounts(t)[u.pseudo].password == u.password
  {
    CredentialsMatchIsLookup(t, u.pseudo, u.password);
  }

  /** Otherwise, with fields present and the database answering, login is
      refused with 401, the same answer for an unknown pseudo as for a wrong
      password. */
  lemma LoginUnauthorizedIff(isWhitespace: char -> bool, t: Table, u: User, fault: Fault)
    requires UniquePseudos(t)
    ensures Login(isWhitespace, t, u, fault).status == Unauthorized
        <==> LoginFieldsPresent(isWhitespace, u) && !FailsBeforeQuery(fault)
             && (u.pseudo !in Accounts(t) || Accounts(t)[u.pseudo].password != u.password)
  {
    CredentialsMatchIsLookup(t, u.pseudo, u.password);
  }

  /** Login answers 500, a failure, exactly when the fields are present and
      connecting or the credential query fails. */
  lemma LoginStorageFailureIff(isWhitespace: char -> bool, t: Table, u: User, fault: Fault)
    ensures var r := Login(isWhitespace, t, u, fault);
      && (r.status == InternalServerError <==> LoginFieldsPresent(isWhitespace, u) && FailsBeforeQuery(fault))
      && (r.status == InternalServerError ==> !r.body.success && r.body.message == InternalError)
  {
  }

  /** The city in a login body plays no part in the answer. */
  lemma LoginIgnoresCity(isWhitespace: char -> bool, t: Table, u: User, city: string, fault: Fault)
    ensures Login(isWhitespace, t, u, fault) == Login(isWhitespace, t, u.(city := city), fault)
  {
  }

  /** Because the password is stored verbatim, a successful register followed
      by a login with the same pseudo and password (and any city) succeeds,
      unless the database fails during the login. This holds for every table,
      including one that already breaks the one-row-per-pseudo invariant: the
      new row itself matches the login query. */
  lemma RegisterThenLogin(isWhitespace: char -> bool, t: Table, u: User, city: string, fault: Fault)
    requires Register(isWhitespace, t, u, NoFault).status == Created
    requires !FailsBeforeQuery(fault)
    ensures var t' := Register(isWhitespace, t, u, NoFault).table;
      Login(isWhitespace, t', u.(city := city), fault).status == OK
  {
    assert (t + [u])[|t|] == u;
  }

  // ---------------------------------------------------------- call sequences

  /** One handler call, with the database fault it meets. */
  datatype Call = RegisterCall(u: User, fault: Fault) | LoginCall(u: User, fault: Fault)

  /** The table after a sequence of calls, one after the other. */
  function Run(isWhitespace: char -> bool, t: Table, calls: seq<Call>): Table
    decreases |calls|
  {
    if |calls| == 0 then t
    else
      var t' := match calls[0]
        case RegisterCall(u, fault) => Register(isWhitespace, t, u, fault).table
        case LoginCall(u, fault) => Login(isWhitespace, t, u, fault).table;
      Run(isWhitespace, t', calls[1..])
  }

  /** Any sequence of calls keeps at most one row per pseudo. */
  lemma {:induction false} RunPreservesUniquePseudos(isWhitespace: char -> bool, t: Table, calls: seq<Call>)
    requires UniquePseudos(t)
    ensures UniquePseudos(Run(isWhitespace, t, calls))
    decreases |calls|
  {
    if |calls| > 0 {
      match calls[0]
      case RegisterCall(u, fault) =>
        RegisterPreservesUniquePseudos(isWhitespace, t, u, fault);
        RunPreservesUniquePseudos(isWhitespace, Register(isWhitespace, t, u, fault).table, calls[1..]);
      case LoginCall(u, fault) =>
        RunPreservesUniquePseudos(isWhitespace, t, calls[1..]);
    }
  }

  /** One register call never removes or changes an existing account: a 201
      only happens for a pseudo without an account. Holds for every table. */
  lemma RegisterKeepsAccounts(isWhitespace: char -> bool, t: Table, u: User, fault: Fault, pseudo: string)
    requires pseudo in Accounts(t)
    ensures var t' := Register(isWhitespace, t, u, fault).table;
      pseudo in Accounts(t') && Accounts(t')[pseudo] == Accounts(t)[pseudo]
  {
    if Register(isWhitespace, t, u, fault).status == Created {
      AccountsKeysMatchQuery(t, u.pseudo);
      assert (t + [u])[..|t|] == t;
    }
  }

  /** Accounts are never removed or changed: whatever the table held for a
      pseudo before a sequence of calls, it still holds after it. Holds for
      every table, whether or not it keeps the one-row-per-pseudo invariant. */
  lemma {:induction false} RunKeepsAccounts(isWhitespace: char -> bool, t: Table, calls: seq<Call>, pseudo: string)
    requires pseudo in Accounts(t)
    ensures pseudo in Accounts(Run(isWhitespace, t, calls))
    ensures Accounts(Run(isWhitespace, t, calls))[pseudo] == Accounts(t)[pseudo]
    decreases |calls|
  {
    if |calls| > 0 {
      match calls[0]
      case RegisterCall(u, fault) =>
        RegisterKeepsAccounts(isWhitespace, t, u, fault, pseudo);
        RunKeepsAccounts(isWhitespace, Register(isWhitespace, t, u, fault).table, calls[1..], pseudo);
      case LoginCall(u, fault) =>
        RunKeepsAccounts(isWhitespace, t, calls[1..], pseudo);
    }
  }

  // --------------------------------------------------------------- scenario

  /** Starting from an empty table: register bob (password "pw1", city
      "Lyon"), then log in as bob with "pw1" (200), as bob with "wrong" (401),
      and as an unknown "nobody" (401 as well: the route does not tell the
      caller that the account is missing). */
  lemma BobScenario(isWhitespace: char -> bool)
    requires !isWhitespace('b') && !isWhitespace('p') && !isWhitespace('L')
    requires !isWhitespace('w') && !isWhitespace('n') && !isWhitespace('x')
    ensures var r := Register(isWhitespace, [], User("bob", "pw1", "Lyon"), NoFault);
      && r.status == Created
      && Login(isWhitespace, r.table, User("bob", "pw1", ""), NoFault).status == OK
      && Login(isWhitespace, r.table, User("bob", "wrong", ""), NoFault).status == Unauthorized
      && Login(isWhitespace, r.table, User("nobody", "x", ""), NoFault).status == Unauthorized
  {
    NotBlankAt("bob", isWhitespace, 0);
    NotBlankAt("pw1", isWhitespace, 0);
    NotBlankAt("Lyon", isWhitespace, 0);
    NotBlankAt("wrong", isWhitespace, 0);
    NotBlankAt("nobody", isWhitespace, 0);
    NotBlankAt("x", isWhitespace, 0);
    var r := Register(isWhitespace, [], User("bob", "pw1", "Lyon"), NoFault);
    assert r.table == [User("bob", "pw1", "Lyon")];
    assert "bob" != "nobody";
    assert "pw1" != "wrong";
  }
}
