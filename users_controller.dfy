/**
 * The users controller: the authorization policy in front of the directory.
 * `caller` is the user the token guard attached to the request (the record
 * just read from the table). The routes marked ADMIN-only are reached only
 * through the role guard, so their handlers require an ADMIN caller.
 */
module Controller {
  import opened Wrappers
  import opened Errors
  import opened UserEntity
  import opened Dto
  import opened Repository
  import opened BaseService
  import opened Pagination
  import opened Users
  import opened Mapper

  /** A user may read or update a record when it is an ADMIN or the record is its own. */
  predicate MayAccess(caller: User, id: string) {
    caller.role == ADMIN || caller.id == id
  }

  /** The role check of an update: only an ADMIN may send a role at all. */
  predicate MaySetRole(caller: User, dto: UpdateUserDto) {
    caller.role == ADMIN || dto.role.None?
  }

  /** The demotion check: an ADMIN target may not be given the USER role. */
  predicate IsDemotion(target: User, dto: UpdateUserDto) {
    target.role == ADMIN && dto.role == Some(USER)
  }

  /** A service result as the client receives it. */
  function MapUser(r: Result<User>): (m: Result<UserResponseDto>)
    ensures m.Ok? <==> r.Ok?
    ensures r.Ok? ==> m.value == ToResponseDto(r.value)
    ensures r.Err? ==> m.error == r.error
  {
    match r
    case Ok(u) => Ok(ToResponseDto(u))
    case Err(e) => Err(e)
  }

  /** `POST /users` (ADMIN only): the directory's create, mapped. */
  function HandleCreate(t: Table, caller: User, dto: CreateUserDto, hash: string -> string, newId: string, now: nat): (r: Outcome<UserResponseDto>)
    requires caller.role == ADMIN
    requires !HasId(t, newId)
    ensures var c := CreateUser(t, dto, hash, newId, now);
            r.table == c.table && r.result == MapUser(c.result)
  {
    var c := CreateUser(t, dto, hash, newId, now);
    Outcome(MapUser(c.result), c.table)
  }

  /** `GET /users` (ADMIN only): the page with each user mapped and the metadata kept. */
  function HandleFindAll(t: Table, caller: User, q: UsersQueryDto): (r: Page<UserResponseDto>)
    requires caller.role == ADMIN
    requires ValidPaginationQuery(q)
    ensures var p := Pagination.FindAllPaginated(t, q);
            && r.data == ToResponseDtoArray(p.data)
            && r.total == p.total && r.page == p.page && r.limit == p.limit
            && r.totalPages == p.totalPages
            && r.hasNextPage == p.hasNextPage && r.hasPreviousPage == p.hasPreviousPage
  {
    var p := Pagination.FindAllPaginated(t, q);
    Page(ToResponseDtoArray(p.data), p.total, p.page, p.limit, p.totalPages, p.hasNextPage, p.hasPreviousPage)
  }

  /** `GET /users/:id`: refused before any lookup unless the caller may access the record. */
  function HandleFindOne(t: Table, caller: User, id: string): (r: Result<UserResponseDto>)
    ensures !MayAccess(caller, id) ==> r == Err(Forbidden(OtherUserDetails))
    ensures MayAccess(caller, id) && !HasId(t, id) ==> r == Err(NotFound(id))
    ensures MayAccess(caller, id) && HasId(t, id) ==> r == Ok(ToResponseDto(FindById(t, id).value))
  {
    if !MayAccess(caller, id) then Err(Forbidden(OtherUserDetails))
    else MapUser(BaseService.FindOne(t, id))
  }

  /**
   * `PATCH /users/:id`: the access check, then the role check, both before the
   * target is read; then the demotion check against the stored target; then
   * the directory's update.
   */
  function HandleUpdate(t: Table, caller: User, id: string, dto: UpdateUserDto, hash: string -> string): (r: Outcome<UserResponseDto>)
    ensures !MayAccess(caller, id) ==> r == Outcome(Err(Forbidden(OtherUserUpdate)), t)
    ensures MayAccess(caller, id) && !MaySetRole(caller, dto) ==> r == Outcome(Err(Forbidden(RoleUpdate)), t)
    ensures MayAccess(caller, id) && MaySetRole(caller, dto) && !HasId(t, id) ==> r == Outcome(Err(NotFound(id)), t)
    ensures HasId(t, id) && IsDemotion(FindById(t, id).value, dto) ==>
              r.table == t && r.result.Err? && r.result.error.Forbidden?
    ensures MayAccess(caller, id) && MaySetRole(caller, dto) && HasId(t, id) && IsDemotion(FindById(t, id).value, dto) ==>
              r == Outcome(Err(Forbidden(AdminDemotion)), t)
    ensures MayAccess(caller, id) && MaySetRole(caller, dto) && HasId(t, id) && !IsDemotion(FindById(t, id).value, dto) ==>
              var u := UpdateUser(t, id, dto, hash);
              r.table == u.table && r.result == MapUser(u.result)
  {
    if !MayAccess(caller, id) then Outcome(Err(Forbidden(OtherUserUpdate)), t)
    else if !MaySetRole(caller, dto) then Outcome(Err(Forbidden(RoleUpdate)), t)
    else match BaseService.FindOne(t, id)
      case Err(e) => Outcome(Err(e), t)
      case Ok(target) =>
        if IsDemotion(target, dto) then Outcome(Err(Forbidden(AdminDemotion)), t)
        else
          var u := UpdateUser(t, id, dto, hash);
          Outcome(MapUser(u.result), u.table)
  }

  /**
   * `DELETE /users/:id` (ADMIN only): self-deletion is refused before the
   * lookup, an ADMIN target after it; otherwise the directory's remove.
   */
  function HandleRemove(t: Table, caller: User, id: string): (r: Outcome<()>)
    requires caller.role == ADMIN
    ensures caller.id == id ==> r == Outcome(Err(Forbidden(SelfDeletion)), t)
    ensures caller.id != id && !HasId(t, id) ==> r == Outcome(Err(NotFound(id)), t)
    ensures caller.id != id && HasId(t, id) && FindById(t, id).value.role == ADMIN ==>
              r == Outcome(Err(Forbidden(AdminDeletion)), t)
    ensures caller.id != id && HasId(t, id) && FindById(t, id).value.role != ADMIN ==>
              r == BaseService.Remove(t, id)
  {
    if caller.id == id then Outcome(Err(Forbidden(SelfDeletion)), t)
    else match BaseService.FindOne(t, id)
      case Err(e) => Outcome(Err(e), t)
      case Ok(target) =>
        if target.role == ADMIN then Outcome(Err(Forbidden(AdminDeletion)), t)
        else BaseService.Remove(t, id)
  }

  /** A refused or failed update writes nothing. */
  lemma UpdateErrorChangesNothing(t: Table, caller: User, id: string, dto: UpdateUserDto, hash: string -> string)
    ensures HandleUpdate(t, caller, id, dto, hash).result.Err? ==> HandleUpdate(t, caller, id, dto, hash).table == t
  {
  }

  /** A refused or failed removal deletes nothing. */
  lemma RemoveErrorChangesNothing(t: Table, caller: User, id: string)
    requires caller.role == ADMIN
    ensures HandleRemove(t, caller, id).result.Err? ==> HandleRemove(t, caller, id).table == t
  {
  }

  /** A user who is not an ADMIN can touch only their own record, and never anyone's role. */
  lemma {:induction false} NonAdminKeepsRoles(t: Table, caller: User, id: string, dto: UpdateUserDto, hash: string -> string, x: string)
    requires caller.role != ADMIN
    ensures var r := HandleUpdate(t, caller, id, dto, hash);
            && (x != caller.id ==> FindById(r.table, x) == FindById(t, x))
            && (FindById(r.table, x).Some? <==> FindById(t, x).Some?)
            && (FindById(t, x).Some? ==> FindById(r.table, x).value.role == FindById(t, x).value.role)
  {
    var r := HandleUpdate(t, caller, id, dto, hash);
    if r.table != t {
      assert caller.id == id && dto.role.None? && HasId(t, id);
      FindByIdAfterUpdate(t, id, Fields(HashPassword(dto, hash)), x);
    }
  }

  /** No update, by any caller, leaves a stored ADMIN without the ADMIN role. */
  lemma {:induction false} UpdateKeepsAdmins(t: Table, caller: User, id: string, dto: UpdateUserDto, hash: string -> string, x: string)
    requires FindById(t, x).Some? && FindById(t, x).value.role == ADMIN
    ensures var r := HandleUpdate(t, caller, id, dto, hash);
            FindById(r.table, x).Some? && FindById(r.table, x).value.role == ADMIN
  {
    var r := HandleUpdate(t, caller, id, dto, hash);
    if r.table != t {
      var p := Fields(HashPassword(dto, hash));
      assert r.table == UpdateWhere(t, id, p);
      FindByIdAfterUpdate(t, id, p, x);
      if x == id {
        assert !IsDemotion(FindById(t, id).value, dto);
      }
    }
  }

  /** No removal, by any caller, deletes an ADMIN, and every other user it does not target stays. */
  lemma {:induction false} RemoveKeepsAdmins(t: Table, caller: User, id: string, x: string)
    requires caller.role == ADMIN
    requires FindById(t, x).Some?
    requires FindById(t, x).value.role == ADMIN || x != id
    ensures FindById(HandleRemove(t, caller, id).table, x) == FindById(t, x)
  {
    var r := HandleRemove(t, caller, id);
    if r.table != t {
      assert r.table == DeleteWhere(t, id);
      FindByIdAfterDelete(t, id, x);
    }
  }

  /** An ADMIN promoting a USER gets the directory's update of exactly the payload it sent. */
  lemma AdminPromotes(t: Table, caller: User, id: string, dto: UpdateUserDto, hash: string -> string)
    requires caller.role == ADMIN
    requires HasId(t, id) && FindById(t, id).value.role == USER
    requires dto.role == Some(ADMIN)
    requires !EmailConflict(t, dto, id)
    ensures var r := HandleUpdate(t, caller, id, dto, hash);
            && r.table == UpdateWhere(t, id, Fields(HashPassword(dto, hash)))
            && r.result.Ok? && r.result.value.role == ADMIN
            && FindById(r.table, id).value.role == ADMIN
  {
    FindByIdAfterUpdate(t, id, Fields(HashPassword(dto, hash)), id);
  }

  /** The controller in front of the directory; every route changes the table only through the service. */
  class UsersController {
    const users: UsersService

    constructor (users: UsersService)
      ensures this.users == users
    {
      this.users := users;
    }

    method Create(caller: User, dto: CreateUserDto, hash: string -> string, newId: string, now: nat) returns (r: Result<UserResponseDto>)
      requires caller.role == ADMIN
      requires !HasId(users.rows, newId)
      modifies users
      ensures Outcome(r, users.rows) == HandleCreate(old(users.rows), caller, dto, hash, newId, now)
    {
      var user := users.Create(dto, hash, newId, now);
      r := MapUser(user);
    }

    method FindAll(caller: User, q: UsersQueryDto) returns (r: Page<UserResponseDto>)
      requires caller.role == ADMIN
      requires ValidPaginationQuery(q)
      ensures r == HandleFindAll(users.rows, caller, q)
    {
      var p := users.FindAllPaginated(q);
      r := Page(ToResponseDtoArray(p.data), p.total, p.page, p.limit, p.totalPages, p.hasNextPage, p.hasPreviousPage);
    }

    method FindOne(caller: User, id: string) returns (r: Result<UserResponseDto>)
      ensures r == HandleFindOne(users.rows, caller, id)
    {
      if caller.role != ADMIN && caller.id != id {
        return Err(Forbidden(OtherUserDetails));
      }
      var user := users.FindOne(id);
      r := MapUser(user);
    }

    method Update(caller: User, id: string, dto: UpdateUserDto, hash: string -> string) returns (r: Result<UserResponseDto>)
      modifies users
      ensures Outcome(r, users.rows) == HandleUpdate(old(users.rows), caller, id, dto, hash)
    {
      if caller.role != ADMIN && caller.id != id {
        return Err(Forbidden(OtherUserUpdate));
      }
      if caller.role != ADMIN && dto.role.Some? {
        return Err(Forbidden(RoleUpdate));
      }
      var target := users.FindOne(id);
      if target.Err? {
        return Err(target.error);
      }
      if target.value.role == ADMIN && dto.role == Some(USER) {
        return Err(Forbidden(AdminDemotion));
      }
      var updated := users.Update(id, dto, hash);
      r := MapUser(updated);
    }

    method Remove(caller: User, id: string) returns (r: Result<()>)
      requires caller.role == ADMIN
      modifies users
      ensures Outcome(r, users.rows) == HandleRemove(old(users.rows), caller, id)
    {
      if caller.id == id {
        return Err(Forbidden(SelfDeletion));
      }
      var target := users.FindOne(id);
      if target.Err? {
        return Err(target.error);
      }
      if target.value.role == ADMIN {
        return Err(Forbidden(AdminDeletion));
      }
      r := users.Remove(id);
    }
  }
}
