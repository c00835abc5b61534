/**
 * The persistence calls the services make on the users table: `findOne` by id
 * or by email, `update ... where id`, `delete ... where id`. Lookups return the
 * first row that matches; on a table whose keys are unique that is the row.
 */
module Repository {
  import opened Wrappers
  import opened UserEntity
  import opened Dto

  /** `findOne({ where: { id } })`. */
  function FindById(t: Table, id: string): (r: Option<User>)
    ensures r.Some? <==> HasId(t, id)
    ensures r.Some? ==> r.value.id == id && r.value in t
    decreases |t|
  {
    if |t| == 0 then None
    else if t[0].id == id then Some(t[0])
    else
      var r := FindById(t[1..], id);
      assert HasId(t, id) ==> HasId(t[1..], id) by {
        if HasId(t, id) {
          var i :| 0 <= i < |t| && t[i].id == id;
          assert t[1..][i - 1].id == id;
        }
      }
      r
  }

  /** `findOne({ where: { email } })`. */
  function FindByEmail(t: Table, email: string): (r: Option<User>)
    ensures r.Some? <==> HasEmail(t, email)
    ensures r.Some? ==> r.value.email == email && r.value in t
    decreases |t|
  {
    if |t| == 0 then None
    else if t[0].email == email then Some(t[0])
    else
      var r := FindByEmail(t[1..], email);
      assert HasEmail(t, email) ==> HasEmail(t[1..], email) by {
        if HasEmail(t, email) {
          var i :| 0 <= i < |t| && t[i].email == email;
          assert t[1..][i - 1].email == email;
        }
      }
      r
  }

  /** With a primary key, looking a row's id up finds that very row. */
  lemma {:induction false} FindByIdOfRow(t: Table, i: int)
    requires UniqueIds(t) && 0 <= i < |t|
    ensures FindById(t, t[i].id) == Some(t[i])
  {
    if i > 0 {
      assert t[0].id != t[i].id;
      assert UniqueIds(t[1..]) by {
        forall a, b | 0 <= a < b < |t| - 1 ensures t[1..][a].id != t[1..][b].id {
          assert t[a + 1].id != t[b + 1].id;
        }
      }
      FindByIdOfRow(t[1..], i - 1);
    }
  }

  /** With a unique index on email, looking a row's email up finds that very row. */
  lemma {:induction false} FindByEmailOfRow(t: Table, i: int)
    requires UniqueEmails(t) && 0 <= i < |t|
    ensures FindByEmail(t, t[i].email) == Some(t[i])
  {
    if i > 0 {
      assert t[0].email != t[i].email;
      assert UniqueEmails(t[1..]) by {
        forall a, b | 0 <= a < b < |t| - 1 ensures t[1..][a].email != t[1..][b].email {
          assert t[a + 1].email != t[b + 1].email;
        }
      }
      FindByEmailOfRow(t[1..], i - 1);
    }
  }

  /**
   * The SET list of an `UPDATE users SET ... WHERE id = ?`: either the fields of
   * an update payload (absent ones are left alone) or the access-token column.
   */
  datatype Assignment = Fields(patch: UpdateUserDto) | AccessToken(token: Option<string>)

  /** One row after the assignment. The id and the timestamps are never written. */
  function Assign(u: User, a: Assignment): (v: User)
    ensures v.id == u.id && v.createdAt == u.createdAt && v.updatedAt == u.updatedAt
    ensures a.AccessToken? ==> v == u.(accessToken := a.token)
    ensures a.Fields? ==> v.accessToken == u.accessToken
    ensures a.Fields? && a.patch.name.Some? ==> v.name == a.patch.name.value
    ensures a.Fields? && a.patch.name.None? ==> v.name == u.name
    ensures a.Fields? && a.patch.email.Some? ==> v.email == a.patch.email.value
    ensures a.Fields? && a.patch.email.None? ==> v.email == u.email
    ensures a.Fields? && a.patch.password.Some? ==> v.password == a.patch.password.value
    ensures a.Fields? && a.patch.password.None? ==> v.password == u.password
    ensures a.Fields? && a.patch.role.Some? ==> v.role == a.patch.role.value
    ensures a.Fields? && a.patch.role.None? ==> v.role == u.role
  {
    match a
    case AccessToken(tok) => u.(accessToken := tok)
    case Fields(p) =>
      u.(name := p.name.GetOr(u.name),
         email := p.email.GetOr(u.email),
         password := p.password.GetOr(u.password),
         role := p.role.GetOr(u.role))
  }

  /** `update ... where id`: every row with that id is rewritten, the others are kept. */
  function UpdateWhere(t: Table, id: string, a: Assignment): (r: Table)
    ensures |r| == |t|
    ensures forall i | 0 <= i < |t| :: r[i] == if t[i].id == id then Assign(t[i], a) else t[i]
    decreases |t|
  {
    if |t| == 0 then []
    else [if t[0].id == id then Assign(t[0], a) else t[0]] + UpdateWhere(t[1..], id, a)
  }

  /** After an update, the row with that id reads back as the old row with the assignment applied. */
  lemma {:induction false} FindByIdAfterUpdate(t: Table, id: string, a: Assignment, x: string)
    ensures FindById(UpdateWhere(t, id, a), x) ==
            if x == id then (match FindById(t, id) case None => None case Some(u) => Some(Assign(u, a)))
            else FindById(t, x)
    decreases |t|
  {
    if |t| > 0 {
      FindByIdAfterUpdate(t[1..], id, a, x);
      assert UpdateWhere(t, id, a)[1..] == UpdateWhere(t[1..], id, a);
    }
  }

  /** A token write changes no email: an email lookup finds the same row, carrying the new token when it is the row written. */
  lemma {:induction false} FindByEmailAfterTokenUpdate(t: Table, id: string, token: Option<string>, email: string)
    ensures var s := FindByEmail(t, email);
            FindByEmail(UpdateWhere(t, id, AccessToken(token)), email) ==
              if s.None? then None else if s.value.id == id then Some(s.value.(accessToken := token)) else s
    decreases |t|
  {
    if |t| > 0 {
      FindByEmailAfterTokenUpdate(t[1..], id, token, email);
      assert UpdateWhere(t, id, AccessToken(token))[1..] == UpdateWhere(t[1..], id, AccessToken(token));
    }
  }

  /** An update never touches the primary key. */
  lemma UpdateWherePreservesIds(t: Table, id: string, a: Assignment)
    requires UniqueIds(t)
    ensures UniqueIds(UpdateWhere(t, id, a))
  {
  }

  /** Setting the access token never touches the unique index either. */
  lemma UpdateTokenPreservesValid(t: Table, id: string, tok: Option<string>)
    ensures Valid(t) ==> Valid(UpdateWhere(t, id, AccessToken(tok)))
  {
  }

  /** `delete(id)`: drop every row with that id, keep the rest in order. */
  function DeleteWhere(t: Table, id: string): (r: Table)
    ensures forall u :: u in r <==> u in t && u.id != id
    ensures !HasId(r, id)
    ensures |r| <= |t|
    decreases |t|
  {
    if |t| == 0 then []
    else if t[0].id == id then DeleteWhere(t[1..], id)
    else [t[0]] + DeleteWhere(t[1..], id)
  }

  /** Deleting one id leaves every other id's lookup as it was. */
  lemma {:induction false} FindByIdAfterDelete(t: Table, id: string, x: string)
    ensures FindById(DeleteWhere(t, id), x) == if x == id then None else FindById(t, x)
    decreases |t|
  {
    if |t| > 0 {
      FindByIdAfterDelete(t[1..], id, x);
    }
  }

  /** Deleting keeps both the primary key and the unique index. */
  lemma {:induction false} DeleteWherePreservesValid(t: Table, id: string)
    requires Valid(t)
    ensures Valid(DeleteWhere(t, id))
    decreases |t|
  {
    if |t| > 0 {
      assert Valid(t[1..]) by {
        forall a, b | 0 <= a < b < |t| - 1
          ensures t[1..][a].id != t[1..][b].id && t[1..][a].email != t[1..][b].email
        {
          assert t[a + 1].id != t[b + 1].id && t[a + 1].email != t[b + 1].email;
        }
      }
      DeleteWherePreservesValid(t[1..], id);
      var rest := DeleteWhere(t[1..], id);
      if t[0].id != id {
        forall j | 0 <= j < |rest| ensures t[0].id != rest[j].id && t[0].email != rest[j].email {
          assert rest[j] in t[1..];
          var k :| 0 <= k < |t[1..]| && t[1..][k] == rest[j];
          assert t[k + 1] == rest[j];
        }
        assert ([t[0]] + rest)[1..] == rest;
      }
    }
  }
}
