/** The `users` table: the role enum, one row per user, and the table's own constraints. */
module UserEntity {
  import opened Wrappers

  /** An enum column: every user has exactly one of the two roles. */
  datatype Role = USER | ADMIN

  /** The column default, used when a user is created without a role. */
  const DefaultRole: Role := USER

  /**
   * One row. `password` holds a hash; `accessToken` is the nullable column that
   * holds the user's single active token. The timestamps are opaque instants.
   */
  datatype User = User(
    id: string,
    name: string,
    email: string,
    password: string,
    role: Role,
    accessToken: Option<string>,
    createdAt: nat,
    updatedAt: nat)

  /** The table as a sequence of rows in insertion order, oldest first. */
  type Table = seq<User>

  predicate HasId(t: Table, id: string) {
    exists i | 0 <= i < |t| :: t[i].id == id
  }

  predicate HasEmail(t: Table, email: string) {
    exists i | 0 <= i < |t| :: t[i].email == email
  }

  /** The primary key. */
  predicate UniqueIds(t: Table) {
    forall i, j | 0 <= i < j < |t| :: t[i].id != t[j].id
  }

  /** The unique index on `email`. */
  predicate UniqueEmails(t: Table) {
    forall i, j | 0 <= i < j < |t| :: t[i].email != t[j].email
  }

  predicate Valid(t: Table) {
    UniqueIds(t) && UniqueEmails(t)
  }

  /** The table as the initial migration leaves it: one ADMIN and nobody logged in. */
  function SeedTable(adminId: string, adminHash: string, now: nat): (t: Table)
    ensures Valid(t) && |t| == 1 && HasId(t, adminId)
    ensures t[0].role == ADMIN && t[0].accessToken == None
  {
    var t := [User(adminId, "Admin User", "admin@example.com", adminHash, ADMIN, None, now, now)];
    assert t[0].id == adminId;
    t
  }
}
