/**
 * The credential backend: accounts are read from the credentials file (here a
 * parameter) and looked up with `find`; a user object is built from the
 * account found.
 */
module Backends {
  import opened Wrappers
  import opened Pages

  /** One record of the credentials file's `accounts` list. */
  datatype Account = Account(id: int, username: string, password: string)

  /** The user object the backend hands to the session machinery. */
  datatype User = User(id: int, username: string, password: string)

  /** Python truthiness of an optional string argument: present and non-empty. */
  predicate Given(s: Option<string>)
  {
    s.Some? && s.value != ""
  }

  /** `k` is the first account with that username. */
  predicate FirstWithUsername(accounts: seq<Account>, username: string, k: int)
  {
    0 <= k < |accounts| && accounts[k].username == username
    && forall j :: 0 <= j < k ==> accounts[j].username != username
  }

  /** `k` is the first account with that id. */
  predicate FirstWithUserId(accounts: seq<Account>, userId: int, k: int)
  {
    0 <= k < |accounts| && accounts[k].id == userId
    && forall j :: 0 <= j < k ==> accounts[j].id != userId
  }

  /**
   * `AuthBackend.authenticate`: a user exactly when both arguments are given
   * and the first account with that username has that very password.
   */
  function Authenticate(accounts: seq<Account>, username: Option<string>, password: Option<string>)
    : (r: Option<User>)
    ensures !Given(username) || !Given(password) ==> r.None?
    ensures Given(username) ==>
              (forall k :: 0 <= k < |accounts| ==> accounts[k].username != username.value) ==> r.None?
    ensures forall k :: Given(username) && Given(password) && FirstWithUsername(accounts, username.value, k) ==>
              r == if accounts[k].password == password.value
                   then Some(User(accounts[k].id, username.value, password.value))
                   else None
  {
    if Given(username) && Given(password) then
      var p := (a: Account) => a.username == username.value;
      match Find(p, accounts)
      case Some(account) =>
        assert forall k :: FirstWithUsername(accounts, username.value, k) ==> account == accounts[k] by {
          var k' :| FirstMatch(p, accounts, k') && account == accounts[k'];
          forall k | FirstWithUsername(accounts, username.value, k) ensures k == k' {
            assert !(k < k') && !(k' < k);
          }
        }
        if password.value == account.password then
          Some(User(account.id, username.value, password.value))
        else None
      case None => None
    else None
  }

  /**
   * `AuthBackend.get_user`: the user built from the first account with that id,
   * or `None` when no account has it.
   */
  function GetUser(accounts: seq<Account>, userId: int): (r: Option<User>)
    ensures r.None? <==> forall k :: 0 <= k < |accounts| ==> accounts[k].id != userId
    ensures forall k :: FirstWithUserId(accounts, userId, k) ==>
              r == Some(User(accounts[k].id, accounts[k].username, accounts[k].password))
  {
    var p := (a: Account) => a.id == userId;
    match Find(p, accounts)
    case Some(account) =>
      assert forall k :: FirstWithUserId(accounts, userId, k) ==> account == accounts[k] by {
        var k' :| FirstMatch(p, accounts, k') && account == accounts[k'];
        forall k | FirstWithUserId(accounts, userId, k) ensures k == k' {
          assert !(k < k') && !(k' < k);
        }
      }
      Some(User(account.id, account.username, account.password))
    case None => None
  }

  /** Accounts after the first one with the username are never consulted. */
  lemma {:induction false} AuthenticateIgnoresLaterAccounts(
    accounts: seq<Account>, more: seq<Account>, username: Option<string>, password: Option<string>)
    requires Given(username)
    requires exists k :: 0 <= k < |accounts| && accounts[k].username == username.value
    ensures Authenticate(accounts + more, username, password) == Authenticate(accounts, username, password)
  {
    var p := (a: Account) => a.username == username.value;
    var k :| 0 <= k < |accounts| && accounts[k].username == username.value;
    assert p(accounts[k]);
    FindIgnoresSuffix(p, accounts, more);
  }

  /**
   * When account ids are unique, the session round trip holds: the id of an
   * authenticated user leads `get_user` back to the same user.
   */
  lemma {:induction false} GetUserAfterAuthenticate(
    accounts: seq<Account>, username: Option<string>, password: Option<string>)
    requires forall i, j :: 0 <= i < j < |accounts| ==> accounts[i].id != accounts[j].id
    requires Authenticate(accounts, username, password).Some?
    ensures GetUser(accounts, Authenticate(accounts, username, password).value.id)
         == Authenticate(accounts, username, password)
  {
    var user := Authenticate(accounts, username, password).value;
    var p := (a: Account) => a.username == username.value;
    var k :| FirstMatch(p, accounts, k) && Find(p, accounts) == Some(accounts[k]);
    assert FirstWithUsername(accounts, username.value, k);
    assert FirstWithUserId(accounts, user.id, k);
  }
}
