/**
 The `users` table the two routes read and write, and the two queries they
 issue against it. The table is a sequence of rows in insertion order; nothing
 in the routes' code declares `pseudo` unique at the database level, so
 "at most one row per pseudo" is an invariant (`UniquePseudos`) that the
 register route has to keep by itself. `Accounts` is the abstract view of the
 table: a finite map from pseudo to the stored password and city.
 */
module UsersTable {
  import opened UserModel

  type Table = seq<User>

  /** What the table stores for one pseudo. */
  datatype Account = Account(password: string, city: string)

  function AccountOf(row: User): Account {
    Account(row.password, row.city)
  }

  /** The pseudos that have a row. */
  function Pseudos(t: Table): set<string> {
    set i | 0 <= i < |t| :: t[i].pseudo
  }

  /** At most one row per pseudo. */
  ghost predicate UniquePseudos(t: Table) {
    forall i, j :: 0 <= i < |t| && 0 <= j < |t| && t[i].pseudo == t[j].pseudo ==> i == j
  }

  /** `SELECT pseudo FROM users WHERE pseudo = ?` followed by `resultSet.next()`:
      whether some row has exactly this pseudo. */
  function PseudoExists(t: Table, pseudo: string): (found: bool)
    ensures found <==> exists i :: 0 <= i < |t| && t[i].pseudo == pseudo
    decreases |t|
  {
    if |t| == 0 then false
    else if t[0].pseudo == pseudo then true
    else
      var rest := PseudoExists(t[1..], pseudo);
      assert forall k :: 0 <= k < |t| - 1 ==> t[1..][k] == t[k + 1];
      rest
  }

  /** `SELECT * FROM users WHERE pseudo = ? AND password = ?` followed by
      `resultSet.next()`: whether some row matches both columns exactly. */
  function CredentialsMatch(t: Table, pseudo: string, password: string): (found: bool)
    ensures found <==> exists i :: 0 <= i < |t| && t[i].pseudo == pseudo && t[i].password == password
    decreases |t|
  {
    if |t| == 0 then false
    else if t[0].pseudo == pseudo && t[0].password == password then true
    else
      var rest := CredentialsMatch(t[1..], pseudo, password);
      assert forall k :: 0 <= k < |t| - 1 ==> t[1..][k] == t[k + 1];
      rest
  }

  /** The table as a map from pseudo to account. Built in insertion order, so
      for a table that breaks `UniquePseudos` the last row wins; under the
      invariant no row is ever shadowed (`AccountsLookup`). */
  function Accounts(t: Table): (m: map<string, Account>)
    ensures m.Keys == Pseudos(t)
    decreases |t|
  {
    if |t| == 0 then map[]
    else
      var init := t[..|t| - 1];
      var last := t[|t| - 1];
      assert Pseudos(t) == Pseudos(init) + {last.pseudo} by {
        forall p | p in Pseudos(t) ensures p in Pseudos(init) + {last.pseudo} {
          var i :| 0 <= i < |t| && t[i].pseudo == p;
          if i < |t| - 1 { assert init[i].pseudo == p; }
        }
        forall p | p in Pseudos(init) ensures p in Pseudos(t) {
          var i :| 0 <= i < |init| && init[i].pseudo == p;
          assert t[i].pseudo == p;
        }
      }
      Accounts(init)[last.pseudo := AccountOf(last)]
  }

  /** A pseudo is a key of the account map exactly when the existence query finds it. */
  lemma AccountsKeysMatchQuery(t: Table, pseudo: string)
    ensures pseudo in Accounts(t) <==> PseudoExists(t, pseudo)
  {
    if PseudoExists(t, pseudo) {
      var i :| 0 <= i < |t| && t[i].pseudo == pseudo;
      assert pseudo in Pseudos(t);
    }
  }

  /** Under the invariant, every row is what the account map holds for its pseudo. */
  lemma {:induction false} AccountsLookup(t: Table, i: nat)
    requires UniquePseudos(t)
    requires i < |t|
    ensures t[i].pseudo in Accounts(t)
    ensures Accounts(t)[t[i].pseudo] == AccountOf(t[i])
    decreases |t|
  {
    var init := t[..|t| - 1];
    if i < |t| - 1 {
      assert init[i] == t[i];
      assert UniquePseudos(init) by {
        forall a, b | 0 <= a < |init| && 0 <= b < |init| && init[a].pseudo == init[b].pseudo
          ensures a == b
        {
          assert t[a] == init[a] && t[b] == init[b];
        }
      }
      AccountsLookup(init, i);
      assert t[i].pseudo != t[|t| - 1].pseudo;
    }
  }

  /** Appending a row for a pseudo the existence query did not find keeps the
      invariant, and the pseudo had no account before. The map equation by
      itself is how `Accounts` is built; together with the freshness clause it
      says the append adds exactly one entry and changes no other. */
  lemma AppendFresh(t: Table, row: User)
    requires UniquePseudos(t)
    requires !PseudoExists(t, row.pseudo)
    ensures UniquePseudos(t + [row])
    ensures Accounts(t + [row]) == Accounts(t)[row.pseudo := AccountOf(row)]
    ensures row.pseudo !in Accounts(t)
  {
    var t' := t + [row];
    assert t'[..|t'| - 1] == t;
    assert forall k :: 0 <= k < |t| ==> t[k].pseudo != row.pseudo;
    assert UniquePseudos(t') by {
      forall i, j | 0 <= i < |t'| && 0 <= j < |t'| && t'[i].pseudo == t'[j].pseudo
        ensures i == j
      {
        if i < |t| && j < |t| {
          assert t'[i] == t[i] && t'[j] == t[j];
        }
      }
    }
    AccountsKeysMatchQuery(t, row.pseudo);
  }

  /** Under the invariant, the credential query is a lookup in the account map:
      it finds a row exactly when the pseudo has an account whose stored
      password equals the submitted one. */
  lemma CredentialsMatchIsLookup(t: Table, pseudo: string, password: string)
    requires UniquePseudos(t)
    ensures CredentialsMatch(t, pseudo, password)
        <==> pseudo in Accounts(t) && Accounts(t)[pseudo].password == password
  {
    if CredentialsMatch(t, pseudo, password) {
      var i :| 0 <= i < |t| && t[i].pseudo == pseudo && t[i].password == password;
      AccountsLookup(t, i);
    }
    if pseudo in Accounts(t) && Accounts(t)[pseudo].password == password {
      assert pseudo in Pseudos(t);
      var i :| 0 <= i < |t| && t[i].pseudo == pseudo;
      AccountsLookup(t, i);
    }
  }
}
