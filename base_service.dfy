/**
 * The generic CRUD steps every service inherits, specialised to the users
 * table: look up or throw NotFound; check, write, re-read; check, delete.
 */
module BaseService {
  import opened Wrappers
  import opened Errors
  import opened UserEntity
  import opened Dto
  import opened Repository

  /** What a call returns (or throws) together with the table it leaves behind. */
  datatype Outcome<T> = Outcome(result: Result<T>, table: Table)

  /** `findOne(id)`: the row with that id, or NotFound. */
  function FindOne(t: Table, id: string): (r: Result<User>)
    ensures r.Ok? <==> HasId(t, id)
    ensures r.Ok? ==> r.value.id == id && r.value in t
    ensures r.Err? ==> r.error == NotFound(id)
  {
    match FindById(t, id)
    case None => Err(NotFound(id))
    case Some(u) => Ok(u)
  }

  /** `create(entity)`: save the new row and return it. */
  function Create(t: Table, u: User): (r: Outcome<User>)
    requires !HasId(t, u.id)
    ensures r.result == Ok(u)
    ensures |r.table| == |t| + 1 && r.table[..|t|] == t
    ensures FindOne(r.table, u.id) == Ok(u)
    ensures forall x | x != u.id :: FindOne(r.table, x) == FindOne(t, x)
  {
    var t' := t + [u];
    FindByIdAfterAppend(t, u, u.id);
    forall x | x != u.id ensures FindById(t', x) == FindById(t, x) {
      FindByIdAfterAppend(t, u, x);
    }
    Outcome(Ok(u), t')
  }

  /** Appending a row changes no earlier lookup, and makes the new row findable by its id. */
  lemma {:induction false} FindByIdAfterAppend(t: Table, u: User, x: string)
    requires !HasId(t, u.id)
    ensures FindById(t + [u], x) == if HasId(t, x) then FindById(t, x) else if x == u.id then Some(u) else None
    decreases |t|
  {
    if |t| > 0 {
      assert (t + [u])[1..] == t[1..] + [u];
      assert !HasId(t[1..], u.id);
      FindByIdAfterAppend(t[1..], u, x);
    } else {
      assert t + [u] == [u];
    }
  }

  /**
   * `update(id, patch)`: NotFound and no write when the id is absent; otherwise
   * write the patch and return the row as re-read.
   */
  function Update(t: Table, id: string, patch: UpdateUserDto): (r: Outcome<User>)
    ensures !HasId(t, id) ==> r == Outcome(Err(NotFound(id)), t)
    ensures HasId(t, id) ==>
              && r.table == UpdateWhere(t, id, Fields(patch))
              && r.result == Ok(Assign(FindById(t, id).value, Fields(patch)))
  {
    match FindOne(t, id)
    case Err(e) => Outcome(Err(e), t)
    case Ok(_) =>
      var t' := UpdateWhere(t, id, Fields(patch));
      FindByIdAfterUpdate(t, id, Fields(patch), id);
      var updated := FindById(t', id);
      Outcome(if updated.None? then Err(NotFoundAfterUpdate(id)) else Ok(updated.value), t')
  }

  /** `remove(id)`: NotFound and no delete when the id is absent; otherwise delete that row only. */
  function Remove(t: Table, id: string): (r: Outcome<()>)
    ensures !HasId(t, id) ==> r == Outcome(Err(NotFound(id)), t)
    ensures HasId(t, id) ==> r.result == Ok(())
    ensures HasId(t, id) ==> forall u :: u in r.table <==> u in t && u.id != id
    ensures HasId(t, id) ==> forall x :: HasId(r.table, x) <==> HasId(t, x) && x != id
  {
    match FindOne(t, id)
    case Err(e) => Outcome(Err(e), t)
    case Ok(_) =>
      var t' := DeleteWhere(t, id);
      forall x ensures HasId(t', x) <==> HasId(t, x) && x != id {
        FindByIdAfterDelete(t, id, x);
      }
      Outcome(Ok(()), t')
  }
}
