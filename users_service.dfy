/**
 * The users service: create with a duplicate-email check and a hashed
 * password, update with an email check against other ids and optional
 * re-hashing, the access-token write, and the paginated listing. The pure
 * functions say what each call does to the table; class `UsersService` does it
 * step by step on its `rows`.
 */
module Users {
  import opened Wrappers
  import opened Errors
  import opened UserEntity
  import opened Dto
  import opened Repository
  import opened BaseService
  import opened Pagination

  /** The entity `create` builds: the payload's fields, the hash for the password, no token. */
  function NewUser(id: string, dto: CreateUserDto, hashed: string, now: nat): (u: User)
    ensures u.id == id && u.name == dto.name && u.email == dto.email && u.password == hashed
    ensures u.role == (if dto.role.Some? then dto.role.value else DefaultRole)
    ensures u.accessToken == None
  {
    User(id, dto.name, dto.email, hashed, dto.role.GetOr(DefaultRole), None, now, now)
  }

  /**
   * `create`: Conflict and no write when the email is taken; otherwise the new
   * row, holding `hash(password)` and never the plaintext, is appended.
   * `newId` and `now` are what the database generates.
   */
  function CreateUser(t: Table, dto: CreateUserDto, hash: string -> string, newId: string, now: nat): (r: Outcome<User>)
    requires !HasId(t, newId)
    ensures HasEmail(t, dto.email) ==> r == Outcome(Err(Conflict), t)
    ensures !HasEmail(t, dto.email) ==>
              && r.result == Ok(NewUser(newId, dto, hash(dto.password), now))
              && r.table == t + [r.result.value]
  {
    if FindByEmail(t, dto.email).Some? then Outcome(Err(Conflict), t)
    else BaseService.Create(t, NewUser(newId, dto, hash(dto.password), now))
  }

  /** A successful create keeps both keys unique and makes the new email resolve to the new row. */
  lemma CreateKeepsValid(t: Table, dto: CreateUserDto, hash: string -> string, newId: string, now: nat)
    requires Valid(t) && !HasId(t, newId)
    ensures Valid(CreateUser(t, dto, hash, newId, now).table)
    ensures var r := CreateUser(t, dto, hash, newId, now);
            r.result.Ok? ==> FindByEmail(r.table, dto.email) == Some(r.result.value)
  {
    var r := CreateUser(t, dto, hash, newId, now);
    if r.result.Ok? {
      var u := r.result.value;
      assert Valid(r.table) by {
        forall i, j | 0 <= i < j < |r.table|
          ensures r.table[i].id != r.table[j].id && r.table[i].email != r.table[j].email
        {
          if j == |t| {
            assert r.table[i] == t[i] && r.table[j] == u;
          }
        }
      }
      FindByEmailOfRow(r.table, |t|);
    }
  }

  /** The email of the payload belongs to some row other than `id`. */
  predicate EmailHeldByOther(t: Table, email: string, id: string) {
    exists i | 0 <= i < |t| :: t[i].email == email && t[i].id != id
  }

  /** The test `update` makes before anything else: the user found by the new email is someone else. */
  predicate EmailConflict(t: Table, dto: UpdateUserDto, id: string) {
    Given(dto.email) &&
    var existing := FindByEmail(t, dto.email.value);
    existing.Some? && existing.value.id != id
  }

  /** On a table with unique emails the test is exactly "another id holds this email". */
  lemma EmailConflictIff(t: Table, dto: UpdateUserDto, id: string)
    requires UniqueEmails(t)
    ensures EmailConflict(t, dto, id) <==> Given(dto.email) && EmailHeldByOther(t, dto.email.value, id)
  {
    if Given(dto.email) && EmailHeldByOther(t, dto.email.value, id) {
      var i :| 0 <= i < |t| && t[i].email == dto.email.value && t[i].id != id;
      FindByEmailOfRow(t, i);
    }
  }

  /** The payload after `update` hashes a given password in place; nothing else changes. */
  function HashPassword(dto: UpdateUserDto, hash: string -> string): (p: UpdateUserDto)
    ensures p.name == dto.name && p.email == dto.email && p.role == dto.role
    ensures Given(dto.password) ==> p.password == Some(hash(dto.password.value))
    ensures !Given(dto.password) ==> p == dto
  {
    if Given(dto.password) then dto.(password := Some(hash(dto.password.value))) else dto
  }

  /**
   * `update`: the email check first (so an absent id with a taken email gives
   * Conflict), then the inherited check, write and re-read.
   */
  function UpdateUser(t: Table, id: string, dto: UpdateUserDto, hash: string -> string): (r: Outcome<User>)
    ensures EmailConflict(t, dto, id) ==> r == Outcome(Err(Conflict), t)
    ensures !EmailConflict(t, dto, id) && !HasId(t, id) ==> r == Outcome(Err(NotFound(id)), t)
    ensures !EmailConflict(t, dto, id) && HasId(t, id) ==>
              var p := Fields(HashPassword(dto, hash));
              && r.table == UpdateWhere(t, id, p)
              && r.result == Ok(Assign(FindById(t, id).value, p))
  {
    if EmailConflict(t, dto, id) then Outcome(Err(Conflict), t)
    else BaseService.Update(t, id, HashPassword(dto, hash))
  }

  /** Without a password in the payload the hash function is never consulted. */
  lemma UpdateWithoutPasswordIgnoresHash(t: Table, id: string, dto: UpdateUserDto, h1: string -> string, h2: string -> string)
    requires !Given(dto.password)
    ensures UpdateUser(t, id, dto, h1) == UpdateUser(t, id, dto, h2)
  {
    assert HashPassword(dto, h1) == dto == HashPassword(dto, h2);
  }

  /**
   * A successful update stores the new hash when a password was given and keeps
   * the old one when none was; the access token is never written on this path.
   */
  lemma UpdateStoresPassword(t: Table, id: string, dto: UpdateUserDto, hash: string -> string)
    ensures var r := UpdateUser(t, id, dto, hash);
            r.result.Ok? ==>
              && HasId(t, id)
              && (Given(dto.password) ==> r.result.value.password == hash(dto.password.value))
              && (dto.password.None? ==> r.result.value.password == FindById(t, id).value.password)
              && r.result.value.accessToken == FindById(t, id).value.accessToken
  {
    var r := UpdateUser(t, id, dto, hash);
    if r.result.Ok? {
      assert !EmailConflict(t, dto, id) && HasId(t, id);
    }
  }

  /**
   * A validated payload (an email, when given, is not empty) keeps the table's
   * keys unique: the only row that can take the new email is the one updated.
   */
  lemma {:induction false} UpdateKeepsValid(t: Table, id: string, dto: UpdateUserDto, hash: string -> string)
    requires Valid(t)
    requires dto.email.Some? ==> dto.email.value != ""
    ensures Valid(UpdateUser(t, id, dto, hash).table)
  {
    var r := UpdateUser(t, id, dto, hash);
    if !EmailConflict(t, dto, id) && HasId(t, id) {
      var a := Fields(HashPassword(dto, hash));
      UpdateWherePreservesIds(t, id, a);
      forall i, j | 0 <= i < j < |t| ensures r.table[i].email != r.table[j].email {
        if dto.email.Some? && (t[i].id == id || t[j].id == id) {
          var e := dto.email.value;
          var k := if t[i].id == id then i else j;
          var o := if t[i].id == id then j else i;
          assert t[o].id != id;
          assert r.table[k].email == e && r.table[o] == t[o];
          if t[o].email == e {
            FindByEmailOfRow(t, o);
          }
        }
      }
    }
  }

  /** `updateAccessToken(id, token)`: write `token`, or null for undefined, into that user's row only. */
  function SetAccessToken(t: Table, id: string, token: Option<string>): (r: Table)
    ensures |r| == |t|
    ensures FindById(r, id) == match FindById(t, id) case None => None case Some(u) => Some(u.(accessToken := token))
    ensures forall x | x != id :: FindById(r, x) == FindById(t, x)
    ensures Valid(t) ==> Valid(r)
  {
    var r := UpdateWhere(t, id, AccessToken(token));
    FindByIdAfterUpdate(t, id, AccessToken(token), id);
    forall x | x != id ensures FindById(r, x) == FindById(t, x) {
      FindByIdAfterUpdate(t, id, AccessToken(token), x);
    }
    UpdateTokenPreservesValid(t, id, token);
    r
  }

  /** Writing the same token twice is writing it once. */
  lemma {:induction false} SetAccessTokenIdempotent(t: Table, id: string, token: Option<string>)
    ensures SetAccessToken(SetAccessToken(t, id, token), id, token) == SetAccessToken(t, id, token)
  {
    var once := SetAccessToken(t, id, token);
    var twice := SetAccessToken(once, id, token);
    forall i | 0 <= i < |t| ensures twice[i] == once[i] {
      assert once[i].id == t[i].id;
    }
  }

  /** The users table behind the service, changed in place by its methods. */
  class UsersService {
    var rows: Table

    constructor (initial: Table)
      ensures rows == initial
    {
      rows := initial;
    }

    method FindOne(id: string) returns (r: Result<User>)
      ensures r == BaseService.FindOne(rows, id)
    {
      var entity := FindById(rows, id);
      if entity.None? {
        r := Err(NotFound(id));
      } else {
        r := Ok(entity.value);
      }
    }

    method FindByEmail(email: string) returns (r: Option<User>)
      ensures r == Repository.FindByEmail(rows, email)
    {
      r := Repository.FindByEmail(rows, email);
    }

    method Create(dto: CreateUserDto, hash: string -> string, newId: string, now: nat) returns (r: Result<User>)
      requires !HasId(rows, newId)
      modifies this
      ensures Outcome(r, rows) == CreateUser(old(rows), dto, hash, newId, now)
    {
      var existing := FindByEmail(dto.email);
      if existing.Some? {
        return Err(Conflict);
      }
      var hashed := hash(dto.password);
      var user := NewUser(newId, dto, hashed, now);
      rows := rows + [user];
      r := Ok(user);
    }

    /** The inherited `update`: check it exists, write, re-read. */
    method BaseUpdate(id: string, patch: UpdateUserDto) returns (r: Result<User>)
      modifies this
      ensures Outcome(r, rows) == BaseService.Update(old(rows), id, patch)
    {
      var found := FindOne(id);
      if found.Err? {
        return Err(found.error);
      }
      rows := UpdateWhere(rows, id, Fields(patch));
      var updated := FindById(rows, id);
      r := if updated.None? then Err(NotFoundAfterUpdate(id)) else Ok(updated.value);
    }

    method Update(id: string, dto: UpdateUserDto, hash: string -> string) returns (r: Result<User>)
      modifies this
      ensures Outcome(r, rows) == UpdateUser(old(rows), id, dto, hash)
    {
      if Given(dto.email) {
        var existing := FindByEmail(dto.email.value);
        if existing.Some? && existing.value.id != id {
          return Err(Conflict);
        }
      }
      var payload := dto;
      if Given(payload.password) {
        payload := payload.(password := Some(hash(payload.password.value)));
      }
      r := BaseUpdate(id, payload);
    }

    method UpdateAccessToken(id: string, token: Option<string>)
      modifies this
      ensures rows == SetAccessToken(old(rows), id, token)
    {
      rows := UpdateWhere(rows, id, AccessToken(token));
    }

    /** The inherited `remove`: check it exists, then delete. */
    method Remove(id: string) returns (r: Result<()>)
      modifies this
      ensures Outcome(r, rows) == BaseService.Remove(old(rows), id)
    {
      var found := FindOne(id);
      if found.Err? {
        return Err(found.error);
      }
      rows := DeleteWhere(rows, id);
      r := Ok(());
    }

    method FindAllPaginated(q: UsersQueryDto) returns (r: Page<User>)
      requires ValidPaginationQuery(q)
      ensures r == Pagination.FindAllPaginated(rows, q)
    {
      var page := q.page.GetOr(DefaultPage);
      var limit := q.limit.GetOr(DefaultLimit);
      var skip := Offset(page, limit);
      var where := Where(None, None, None);
      if Given(q.name) {
        where := where.(name := q.name);
      }
      if Given(q.email) {
        where := where.(email := q.email);
      }
      if q.role.Some? {
        where := where.(role := q.role);
      }
      var found := FindAndCount(rows, where, skip, limit);
      var totalPages := CeilDiv(found.1, limit);
      r := Page(found.0, found.1, page, limit, totalPages, page < totalPages, page > 1);
    }
  }
}
