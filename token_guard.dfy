/**
 * The token validation guard: the second gate of every users route, after
 * the signature check. It takes the bearer token from the Authorization
 * header and accepts only when it equals the access token persisted for the
 * user the signature check resolved.
 */
module TokenGuard {
  import opened Wrappers
  import opened Errors
  import opened UserEntity
  import opened Dto
  import opened Repository
  import opened BaseService
  import opened Users

  /** `s.split(sep)`: the pieces between separators, empty ones included; never an empty list. */
  function Split(s: string, sep: char): (r: seq<string>)
    ensures |r| >= 1
    ensures forall k | 0 <= k < |r| :: sep !in r[k]
    decreases |s|
  {
    if |s| == 0 then [""]
    else
      var rest := Split(s[1..], sep);
      if s[0] == sep then [""] + rest
      else [[s[0]] + rest[0]] + rest[1..]
  }

  /** `pieces.join(sep)`, the inverse of `Split`. */
  function Join(pieces: seq<string>, sep: char): string
    requires |pieces| >= 1
    decreases |pieces|
  {
    if |pieces| == 1 then pieces[0] else pieces[0] + [sep] + Join(pieces[1..], sep)
  }

  /** Splitting and joining back gives the header as it was. */
  lemma {:induction false} JoinSplit(s: string, sep: char)
    ensures Join(Split(s, sep), sep) == s
    decreases |s|
  {
    if |s| > 0 {
      JoinSplit(s[1..], sep);
      var rest := Split(s[1..], sep);
      if s[0] == sep {
        assert ([""] + rest)[1..] == rest;
      } else if |rest| > 1 {
        var r := [[s[0]] + rest[0]] + rest[1..];
        assert r[1..] == rest[1..];
        assert Join(rest, sep) == rest[0] + [sep] + Join(rest[1..], sep);
        assert s == [s[0]] + s[1..];
      } else {
        assert s == [s[0]] + s[1..];
      }
    }
  }

  /** A leading piece without separators stays one piece, glued to whatever follows it. */
  lemma {:induction false} SplitPrefix(a: string, tail: string, sep: char)
    requires sep !in a
    ensures Split(a + tail, sep) == [a + Split(tail, sep)[0]] + Split(tail, sep)[1..]
    decreases |a|
  {
    if |a| > 0 {
      var st := Split(tail, sep);
      assert (a + tail)[0] == a[0] && (a + tail)[1..] == a[1..] + tail;
      SplitPrefix(a[1..], tail, sep);
      var rest := Split(a[1..] + tail, sep);
      assert rest[0] == a[1..] + st[0] && rest[1..] == st[1..];
      assert Split(a + tail, sep) == [[a[0]] + rest[0]] + rest[1..];
      assert [a[0]] + (a[1..] + st[0]) == a + st[0];
    } else {
      var st := Split(tail, sep);
      assert a + tail == tail;
      assert a + st[0] == st[0];
      assert st == [st[0]] + st[1..];
    }
  }

  /** Joining pieces that hold no separator and splitting again gives the same pieces. */
  lemma {:induction false} SplitJoin(pieces: seq<string>, sep: char)
    requires |pieces| >= 1
    requires forall k | 0 <= k < |pieces| :: sep !in pieces[k]
    ensures Split(Join(pieces, sep), sep) == pieces
    decreases |pieces|
  {
    if |pieces| == 1 {
      SplitPrefix(pieces[0], "", sep);
      assert pieces[0] + "" == pieces[0];
    } else {
      var j := Join(pieces[1..], sep);
      SplitJoin(pieces[1..], sep);
      var st := Split([sep] + j, sep);
      assert st == [""] + pieces[1..] by {
        assert ([sep] + j)[1..] == j;
      }
      SplitPrefix(pieces[0], [sep] + j, sep);
      assert Join(pieces, sep) == pieces[0] + ([sep] + j);
      assert st[0] == "" && st[1..] == pieces[1..];
      assert pieces[0] + st[0] == pieces[0];
      assert pieces == [pieces[0]] + pieces[1..];
    }
  }

  /** `authHeader.split(' ')[1]`: undefined when the header has no space. */
  function BearerToken(header: string): (r: Option<string>)
    ensures r.Some? ==> ' ' !in r.value
    ensures r.Some? <==> ' ' in header
  {
    var pieces := Split(header, ' ');
    JoinSplit(header, ' ');
    if |pieces| >= 2 then Some(pieces[1]) else None
  }

  /** The header a client sends: `Bearer <token>`. */
  function BearerHeader(token: string): string {
    "Bearer " + token
  }

  /** The guard reads back exactly the token a client put in a well-formed header. */
  lemma BearerTokenOfHeader(token: string)
    requires ' ' !in token
    ensures BearerToken(BearerHeader(token)) == Some(token)
  {
    SplitJoin(["Bearer", token], ' ');
    assert Join(["Bearer", token], ' ') == BearerHeader(token);
  }

  /**
   * `canActivate`, with `header` the Authorization header and `requestUser` the
   * user the signature check attached to the request: the record re-read from
   * the table on acceptance, the first failing check otherwise.
   */
  function Gate(t: Table, header: Option<string>, requestUser: Option<User>): (r: Result<User>)
    ensures !Given(header) ==> r == Err(Unauthorized(NoAuthorizationHeader))
    ensures r.Ok? ==>
              && requestUser.Some?
              && FindById(t, requestUser.value.id) == Some(r.value)
              && r.value.accessToken.Some? && r.value.accessToken.value != ""
              && BearerToken(header.value) == r.value.accessToken
  {
    if !Given(header) then Err(Unauthorized(NoAuthorizationHeader))
    else
      var token := BearerToken(header.value);
      if !Given(token) then Err(Unauthorized(NoTokenProvided))
      else if requestUser.None? then Err(Unauthorized(NoUserInRequest))
      else match BaseService.FindOne(t, requestUser.value.id)
        case Err(e) => Err(e)
        case Ok(dbUser) =>
          if !Given(dbUser.accessToken) then Err(Unauthorized(LoggedOut))
          else if dbUser.accessToken.value != token.value then Err(Unauthorized(TokenMismatch))
          else Ok(dbUser)
  }

  /**
   * For a well-formed header the gate accepts exactly when the persisted
   * token is non-empty and equal to the presented one; otherwise it names why.
   */
  lemma GateDecision(t: Table, token: string, u: User)
    requires token != "" && ' ' !in token
    ensures var r := Gate(t, Some(BearerHeader(token)), Some(u));
            && (!HasId(t, u.id) ==> r == Err(NotFound(u.id)))
            && (HasId(t, u.id) ==>
                  var db := FindById(t, u.id).value;
                  && (!Given(db.accessToken) ==> r == Err(Unauthorized(LoggedOut)))
                  && (Given(db.accessToken) && db.accessToken.value != token ==> r == Err(Unauthorized(TokenMismatch)))
                  && (db.accessToken == Some(token) ==> r == Ok(db)))
  {
    BearerTokenOfHeader(token);
  }

  /**
   * For every header: the gate accepts exactly when there is a header, a
   * resolved user stored in the table, a non-empty stored token, and the
   * header's second piece is that very token.
   */
  lemma GateAcceptsIff(t: Table, header: Option<string>, requestUser: Option<User>)
    ensures Gate(t, header, requestUser).Ok? <==>
              && Given(header)
              && requestUser.Some?
              && HasId(t, requestUser.value.id)
              && Given(FindById(t, requestUser.value.id).value.accessToken)
              && BearerToken(header.value) == FindById(t, requestUser.value.id).value.accessToken
  {
  }

  /** The word before the token is never checked: any space-free scheme word is admitted alike. */
  lemma AnySchemeAccepted(t: Table, scheme: string, token: string, u: User)
    requires ' ' !in scheme && ' ' !in token
    requires HasId(t, u.id) && FindById(t, u.id).value.accessToken == Some(token) && token != ""
    ensures Gate(t, Some(scheme + " " + token), Some(u)) == Ok(FindById(t, u.id).value)
  {
    SplitJoin([scheme, token], ' ');
    assert Join([scheme, token], ' ') == scheme + " " + token;
  }

  /** The parts of a request the guard reads, and the user it overwrites. */
  class Request {
    var authorization: Option<string>
    var user: Option<User>

    constructor (authorization: Option<string>, user: Option<User>)
      ensures this.authorization == authorization && this.user == user
    {
      this.authorization := authorization;
      this.user := user;
    }
  }

  class TokenValidationGuard {
    const users: UsersService

    constructor (users: UsersService)
      ensures this.users == users
    {
      this.users := users;
    }

    /** On acceptance the request's user becomes the freshly read record; on refusal nothing changes. */
    method CanActivate(request: Request) returns (r: Result<bool>)
      modifies request
      ensures request.authorization == old(request.authorization)
      ensures var g := Gate(users.rows, old(request.authorization), old(request.user));
              && (g.Ok? ==> r == Ok(true) && request.user == Some(g.value))
              && (g.Err? ==> r == Err(g.error) && request.user == old(request.user))
    {
      var authHeader := request.authorization;
      if !Given(authHeader) {
        return Err(Unauthorized(NoAuthorizationHeader));
      }
      var token := BearerToken(authHeader.value);
      if !Given(token) {
        return Err(Unauthorized(NoTokenProvided));
      }
      var user := request.user;
      if user.None? {
        return Err(Unauthorized(NoUserInRequest));
      }
      var dbUser := users.FindOne(user.value.id);
      if dbUser.Err? {
        return Err(dbUser.error);
      }
      var db := dbUser.value;
      if !Given(db.accessToken) {
        return Err(Unauthorized(LoggedOut));
      }
      if db.accessToken.value != token.value {
        return Err(Unauthorized(TokenMismatch));
      }
      request.user := Some(db);
      r := Ok(true);
    }
  }
}
