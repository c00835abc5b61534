/**
 * Credential check, login and logout. Hash comparison and token signing are
 * collaborators passed in as functions: `compare(plaintext, hash)` and
 * `sign(claims)`; each call of `login` may be given its own `sign`, since a
 * signed token also encodes when it was issued.
 */
module Auth {
  import opened Wrappers
  import opened Errors
  import opened UserEntity
  import opened Repository
  import opened BaseService
  import opened Users

  /** The token payload: the user's id as subject, and the email. */
  datatype Claims = Claims(sub: string, email: string)

  /** What `login` returns: the issued token and the user as re-read after it was stored. */
  datatype LoginResponse = LoginResponse(accessToken: string, user: User)

  /**
   * `validateUser`: the stored row for the email when the password matches its
   * hash. Both ways of failing throw the same error, and an unknown email
   * fails before any comparison.
   */
  function CheckCredentials(t: Table, email: string, password: string, compare: (string, string) -> bool): (r: Result<User>)
    ensures r.Err? ==> r.error == Unauthorized(InvalidCredentials)
    ensures !HasEmail(t, email) ==> r == Err(Unauthorized(InvalidCredentials))
    ensures r.Ok? <==> HasEmail(t, email) && compare(password, FindByEmail(t, email).value.password)
    ensures r.Ok? ==> r.value in t && r.value.email == email && compare(password, r.value.password)
  {
    var user := FindByEmail(t, email);
    if user.None? then Err(Unauthorized(InvalidCredentials))
    else if !compare(password, user.value.password) then Err(Unauthorized(InvalidCredentials))
    else Ok(user.value)
  }

  /** With a unique email index, valid credentials yield the stored row itself, token and hash included. */
  lemma CheckCredentialsOfRow(t: Table, i: int, password: string, compare: (string, string) -> bool)
    requires UniqueEmails(t) && 0 <= i < |t|
    requires compare(password, t[i].password)
    ensures CheckCredentials(t, t[i].email, password, compare) == Ok(t[i])
  {
    FindByEmailOfRow(t, i);
  }

  /** For an unknown email the outcome does not depend on the comparison at all. */
  lemma UnknownEmailSkipsCompare(t: Table, email: string, password: string, c1: (string, string) -> bool, c2: (string, string) -> bool)
    requires !HasEmail(t, email)
    ensures CheckCredentials(t, email, password, c1) == CheckCredentials(t, email, password, c2) == Err(Unauthorized(InvalidCredentials))
  {
  }

  /**
   * `login`: validate; sign `{sub: id, email}`; store the token as the user's
   * access token; re-read the user and return it with the token. A failed
   * validation writes nothing.
   */
  function IssueToken(t: Table, email: string, password: string, compare: (string, string) -> bool, sign: Claims -> string): (r: Outcome<LoginResponse>)
    ensures CheckCredentials(t, email, password, compare).Err? ==>
              r == Outcome(Err(Unauthorized(InvalidCredentials)), t)
    ensures CheckCredentials(t, email, password, compare).Ok? ==>
              var u := CheckCredentials(t, email, password, compare).value;
              var token := sign(Claims(u.id, u.email));
              && r.table == SetAccessToken(t, u.id, Some(token))
              && r.result.Ok?
              && r.result.value.accessToken == token
              && r.result.value.user == FindById(t, u.id).value.(accessToken := Some(token))
              && FindById(r.table, u.id) == Some(r.result.value.user)
  {
    match CheckCredentials(t, email, password, compare)
    case Err(e) => Outcome(Err(e), t)
    case Ok(u) =>
      var token := sign(Claims(u.id, u.email));
      var t' := SetAccessToken(t, u.id, Some(token));
      match BaseService.FindOne(t', u.id)
      case Err(e) => Outcome(Err(e), t')
      case Ok(updated) => Outcome(Ok(LoginResponse(token, updated)), t')
  }

  /** `logout(id)`: clear that user's access token; other users are untouched. */
  function RevokeToken(t: Table, id: string): (r: Table)
    ensures FindById(r, id).Some? <==> HasId(t, id)
    ensures FindById(r, id).Some? ==> FindById(r, id).value.accessToken == None
    ensures forall x | x != id :: FindById(r, x) == FindById(t, x)
    ensures Valid(t) ==> Valid(r)
  {
    SetAccessToken(t, id, None)
  }

  /** Logging out twice leaves the same table as logging out once. */
  lemma RevokeTokenIdempotent(t: Table, id: string)
    ensures RevokeToken(RevokeToken(t, id), id) == RevokeToken(t, id)
  {
    SetAccessTokenIdempotent(t, id, None);
  }

  /** The service, acting on the users service's table. */
  class AuthService {
    const users: UsersService

    constructor (users: UsersService)
      ensures this.users == users
    {
      this.users := users;
    }

    method ValidateUser(email: string, password: string, compare: (string, string) -> bool) returns (r: Result<User>)
      ensures r == CheckCredentials(users.rows, email, password, compare)
    {
      var user := users.FindByEmail(email);
      if user.None? {
        return Err(Unauthorized(InvalidCredentials));
      }
      var isPasswordValid := compare(password, user.value.password);
      if !isPasswordValid {
        return Err(Unauthorized(InvalidCredentials));
      }
      r := Ok(user.value);
    }

    method Login(email: string, password: string, compare: (string, string) -> bool, sign: Claims -> string)
      returns (r: Result<LoginResponse>)
      modifies users
      ensures Outcome(r, users.rows) == IssueToken(old(users.rows), email, password, compare, sign)
    {
      var user := ValidateUser(email, password, compare);
      if user.Err? {
        return Err(user.error);
      }
      var u := user.value;
      var token := sign(Claims(u.id, u.email));
      users.UpdateAccessToken(u.id, Some(token));
      var updated := users.FindOne(u.id);
      r := if updated.Err? then Err(updated.error) else Ok(LoginResponse(token, updated.value));
    }

    method Logout(userId: string)
      modifies users
      ensures users.rows == RevokeToken(old(users.rows), userId)
    {
      users.UpdateAccessToken(userId, None);
    }
  }
}
