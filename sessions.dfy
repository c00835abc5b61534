/**
 * What the pieces promise together: the single active token per user and
 * logout revocation (login writes the token the gate compares against), the
 * isolation of one user's session from another's, the seeded ADMIN's
 * protection, and the end-to-end scenario of an ADMIN, a user and two logins.
 */
module Sessions {
  import opened Wrappers
  import opened Errors
  import opened UserEntity
  import opened Dto
  import opened Repository
  import opened BaseService
  import opened Users
  import opened Auth
  import opened TokenGuard
  import opened Controller

  /** A token a client can send in a bearer header: not empty and without spaces. */
  predicate WellFormed(token: string) {
    token != "" && ' ' !in token
  }

  /** The guard's decision on a request bearing `token` for the user `u` the signature check resolved. */
  function Present(t: Table, token: string, u: User): Result<User> {
    Gate(t, Some(BearerHeader(token)), Some(u))
  }

  /** After a login, the gate admits that user with the new token and with no other token. */
  lemma LoginAdmitsOnlyItsToken(t: Table, email: string, password: string, compare: (string, string) -> bool,
                                sign: Claims -> string, presented: string, u: User)
    requires IssueToken(t, email, password, compare, sign).result.Ok?
    requires WellFormed(IssueToken(t, email, password, compare, sign).result.value.accessToken)
    requires u.id == IssueToken(t, email, password, compare, sign).result.value.user.id
    requires WellFormed(presented)
    ensures var r := IssueToken(t, email, password, compare, sign);
            Present(r.table, presented, u) ==
              if presented == r.result.value.accessToken then Ok(r.result.value.user)
              else Err(Unauthorized(TokenMismatch))
  {
    var r := IssueToken(t, email, password, compare, sign);
    GateDecision(r.table, presented, u);
    assert FindById(r.table, u.id) == Some(r.result.value.user);
  }

  /** A token write leaves every credential check as it was: emails and hashes are untouched. */
  lemma CredentialsSurviveTokenWrite(t: Table, id: string, token: Option<string>, email: string,
                                     password: string, compare: (string, string) -> bool)
    ensures var c := CheckCredentials(SetAccessToken(t, id, token), email, password, compare);
            var d := CheckCredentials(t, email, password, compare);
            c.Ok? == d.Ok? && (c.Ok? ==> c.value.id == d.value.id)
  {
    FindByEmailAfterTokenUpdate(t, id, token, email);
  }

  /**
   * Logging in twice as the same user: the first token now fails as a stale
   * token and the second one passes.
   */
  lemma SecondLoginSupersedesFirst(t: Table, email: string, p1: string, p2: string, compare: (string, string) -> bool,
                                   s1: Claims -> string, s2: Claims -> string, u: User)
    requires IssueToken(t, email, p1, compare, s1).result.Ok?
    requires IssueToken(IssueToken(t, email, p1, compare, s1).table, email, p2, compare, s2).result.Ok?
    requires var t1 := IssueToken(t, email, p1, compare, s1).result.value.accessToken;
             var t2 := IssueToken(IssueToken(t, email, p1, compare, s1).table, email, p2, compare, s2).result.value.accessToken;
             WellFormed(t1) && WellFormed(t2) && t1 != t2
    requires u.id == IssueToken(t, email, p1, compare, s1).result.value.user.id
    ensures var r1 := IssueToken(t, email, p1, compare, s1);
            var r2 := IssueToken(r1.table, email, p2, compare, s2);
            && Present(r2.table, r1.result.value.accessToken, u) == Err(Unauthorized(TokenMismatch))
            && Present(r2.table, r2.result.value.accessToken, u) == Ok(r2.result.value.user)
  {
    var r1 := IssueToken(t, email, p1, compare, s1);
    var r2 := IssueToken(r1.table, email, p2, compare, s2);
    var id := CheckCredentials(t, email, p1, compare).value.id;
    CredentialsSurviveTokenWrite(t, id, Some(r1.result.value.accessToken), email, p2, compare);
    assert r2.result.value.user.id == u.id;
    LoginAdmitsOnlyItsToken(r1.table, email, p2, compare, s2, r1.result.value.accessToken, u);
    LoginAdmitsOnlyItsToken(r1.table, email, p2, compare, s2, r2.result.value.accessToken, u);
  }

  /** Logging in with each signer in turn: the tokens issued, in order, and the final table. */
  function LoginSeries(t: Table, email: string, password: string, compare: (string, string) -> bool,
                       signs: seq<Claims -> string>): (r: (Table, seq<string>))
    ensures |r.1| <= |signs|
    decreases |signs|
  {
    if |signs| == 0 then (t, [])
    else
      var o := IssueToken(t, email, password, compare, signs[0]);
      if o.result.Err? then (t, [])
      else
        var rest := LoginSeries(o.table, email, password, compare, signs[1..]);
        (rest.0, [o.result.value.accessToken] + rest.1)
  }

  /**
   * Valid credentials stay valid through any number of logins, every one of
   * them issues a token, and the table ends up holding the last one for that user.
   */
  lemma {:induction false} LoginSeriesKeepsLastToken(t: Table, email: string, password: string, compare: (string, string) -> bool,
                                                     signs: seq<Claims -> string>)
    requires CheckCredentials(t, email, password, compare).Ok?
    requires |signs| > 0
    ensures var r := LoginSeries(t, email, password, compare, signs);
            var id := CheckCredentials(t, email, password, compare).value.id;
            && |r.1| == |signs|
            && CheckCredentials(r.0, email, password, compare).Ok?
            && CheckCredentials(r.0, email, password, compare).value.id == id
            && FindById(r.0, id).Some?
            && FindById(r.0, id).value.accessToken == Some(r.1[|signs| - 1])
    decreases |signs|
  {
    var id := CheckCredentials(t, email, password, compare).value.id;
    var o := IssueToken(t, email, password, compare, signs[0]);
    CredentialsSurviveTokenWrite(t, id, Some(o.result.value.accessToken), email, password, compare);
    if |signs| > 1 {
      LoginSeriesKeepsLastToken(o.table, email, password, compare, signs[1..]);
    }
  }

  /**
   * The single active token: after a series of logins by one user, only the
   * most recent token passes; any other token fails, as a stale token
   * whenever the latest one is not empty.
   */
  lemma OnlyLatestLoginPasses(t: Table, email: string, password: string, compare: (string, string) -> bool,
                              signs: seq<Claims -> string>, presented: string, u: User)
    requires CheckCredentials(t, email, password, compare).Ok?
    requires |signs| > 0
    requires u.id == CheckCredentials(t, email, password, compare).value.id
    requires WellFormed(presented)
    ensures var r := LoginSeries(t, email, password, compare, signs);
            && |r.1| == |signs|
            && (presented == r.1[|signs| - 1] ==> Present(r.0, presented, u).Ok?)
            && (presented != r.1[|signs| - 1] ==> Present(r.0, presented, u).Err?)
            && (presented != r.1[|signs| - 1] && r.1[|signs| - 1] != "" ==>
                  Present(r.0, presented, u) == Err(Unauthorized(TokenMismatch)))
  {
    var r := LoginSeries(t, email, password, compare, signs);
    LoginSeriesKeepsLastToken(t, email, password, compare, signs);
    var last := r.1[|signs| - 1];
    var db := FindById(r.0, u.id).value;
    assert HasId(r.0, u.id) && db.accessToken == Some(last);
    GateDecision(r.0, presented, u);
  }

  /** After logout no request of that user passes, whatever header it carries. */
  lemma LogoutRejectsEveryRequest(t: Table, id: string, header: Option<string>, u: User)
    requires u.id == id
    ensures Gate(RevokeToken(t, id), header, Some(u)).Err?
  {
  }

  /** After logout a well-formed token of that user fails as a revoked session. */
  lemma LogoutRevokesSession(t: Table, id: string, token: string, u: User)
    requires HasId(t, id) && u.id == id
    requires WellFormed(token)
    ensures Present(RevokeToken(t, id), token, u) == Err(Unauthorized(LoggedOut))
  {
    GateDecision(RevokeToken(t, id), token, u);
  }

  /** Writing one user's token, by login or logout, leaves every other user's gate decision as it was. */
  lemma OtherSessionsUnaffected(t: Table, id: string, token: Option<string>, header: Option<string>, u: User)
    requires u.id != id
    ensures Gate(SetAccessToken(t, id, token), header, Some(u)) == Gate(t, header, Some(u))
  {
    assert BaseService.FindOne(SetAccessToken(t, id, token), u.id) == BaseService.FindOne(t, u.id);
  }

  /** Another user's login leaves my session as it was. */
  lemma OtherLoginKeepsSession(t: Table, email: string, password: string, compare: (string, string) -> bool,
                               sign: Claims -> string, header: Option<string>, u: User)
    requires CheckCredentials(t, email, password, compare).Ok? ==> CheckCredentials(t, email, password, compare).value.id != u.id
    ensures Gate(IssueToken(t, email, password, compare, sign).table, header, Some(u)) == Gate(t, header, Some(u))
  {
    var c := CheckCredentials(t, email, password, compare);
    if c.Ok? {
      OtherSessionsUnaffected(t, c.value.id, Some(sign(Claims(c.value.id, c.value.email))), header, u);
    }
  }

  /** The ADMIN seeded by the initial migration cannot be deleted, by itself or by any other ADMIN. */
  lemma SeedAdminCannotBeDeleted(adminId: string, adminHash: string, now: nat, caller: User)
    requires caller.role == ADMIN
    ensures var t := SeedTable(adminId, adminHash, now);
            var r := HandleRemove(t, caller, adminId);
            r.table == t && r.result.Err? && r.result.error.Forbidden?
  {
    var t := SeedTable(adminId, adminHash, now);
    assert FindById(t, adminId) == Some(t[0]);
  }

  /**
   * The seeded ADMIN creates a user; the user logs in twice and holds two
   * different tokens; the first is refused as stale and the second admitted;
   * the ADMIN deletes the user and then fails to delete itself.
   */
  lemma EndToEnd(adminHash: string, hash: string -> string, compare: (string, string) -> bool,
                 s1: Claims -> string, s2: Claims -> string, now: nat)
    requires compare("user-secret", hash("user-secret"))
    requires WellFormed(s1(Claims("u2", "u2@example.com"))) && WellFormed(s2(Claims("u2", "u2@example.com")))
    requires s1(Claims("u2", "u2@example.com")) != s2(Claims("u2", "u2@example.com"))
    ensures var t0 := SeedTable("a", adminHash, now);
            var admin := t0[0];
            var c := HandleCreate(t0, admin, CreateUserDto("U2", "u2@example.com", "user-secret", None), hash, "u2", now);
            var l1 := IssueToken(c.table, "u2@example.com", "user-secret", compare, s1);
            var l2 := IssueToken(l1.table, "u2@example.com", "user-secret", compare, s2);
            var d := HandleRemove(l2.table, admin, "u2");
            && c.result.Ok? && c.result.value.role == USER
            && l1.result.Ok? && l2.result.Ok?
            && Present(l2.table, l1.result.value.accessToken, l1.result.value.user) == Err(Unauthorized(TokenMismatch))
            && Present(l2.table, l2.result.value.accessToken, l1.result.value.user).Ok?
            && d.result == Ok(())
            && !HasId(d.table, "u2")
            && HandleRemove(d.table, admin, "a") == Outcome(Err(Forbidden(SelfDeletion)), d.table)
  {
    var t0 := SeedTable("a", adminHash, now);
    var admin := t0[0];
    var dto := CreateUserDto("U2", "u2@example.com", "user-secret", None);
    assert !HasEmail(t0, "u2@example.com") by {
      assert t0[0].email == "admin@example.com";
    }
    var c := HandleCreate(t0, admin, dto, hash, "u2", now);
    var u2 := NewUser("u2", dto, hash("user-secret"), now);
    assert c.table == t0 + [u2];
    assert FindByEmail(c.table, "u2@example.com") == Some(u2) by {
      assert c.table[0].email != "u2@example.com";
      assert c.table[1..] == [u2];
    }
    var l1 := IssueToken(c.table, "u2@example.com", "user-secret", compare, s1);
    assert CheckCredentials(c.table, "u2@example.com", "user-secret", compare) == Ok(u2);
    SecondLoginSupersedesFirst(c.table, "u2@example.com", "user-secret", "user-secret", compare, s1, s2, l1.result.value.user);
    var l2 := IssueToken(l1.table, "u2@example.com", "user-secret", compare, s2);
    assert FindById(l2.table, "u2").value.role == USER;
    assert FindById(l2.table, "u2").Some?;
    var d := HandleRemove(l2.table, admin, "u2");
  }
}
