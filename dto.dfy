/**
 * The request payloads, as shapes, and the bounds the validation layer puts on
 * the pagination query before it reaches the service.
 */
module Dto {
  import opened Wrappers
  import opened UserEntity

  /** The body of a create request (no access token: unknown properties are refused). */
  datatype CreateUserDto = CreateUserDto(name: string, email: string, password: string, role: Option<Role>)

  /** The body of an update request: every field optional, none of them the access token. */
  datatype UpdateUserDto = UpdateUserDto(
    name: Option<string>,
    email: Option<string>,
    password: Option<string>,
    role: Option<Role>)

  /** The list query: pagination plus three optional filters. */
  datatype UsersQueryDto = UsersQueryDto(
    page: Option<int>,
    limit: Option<int>,
    name: Option<string>,
    email: Option<string>,
    role: Option<Role>)

  /** An optional string the code tests for truthiness: present and non-empty. */
  predicate Given(s: Option<string>) {
    s.Some? && s.value != ""
  }

  const DefaultPage: int := 1
  const DefaultLimit: int := 10
  const MaxLimit: int := 50

  /** What the validator lets through: an integer page of at least 1, an integer limit in [1, 50]. */
  predicate ValidPaginationQuery(q: UsersQueryDto) {
    && (q.page.Some? ==> q.page.value >= 1)
    && (q.limit.Some? ==> 1 <= q.limit.value <= MaxLimit)
  }

  /** The page the service works with. */
  function PageOf(q: UsersQueryDto): (p: int)
    requires ValidPaginationQuery(q)
    ensures p >= 1
    ensures q.page.None? ==> p == DefaultPage
    ensures q.page.Some? ==> p == q.page.value
  {
    q.page.GetOr(DefaultPage)
  }

  /** The page size the service works with; never zero, so dividing by it is defined. */
  function LimitOf(q: UsersQueryDto): (l: int)
    requires ValidPaginationQuery(q)
    ensures 1 <= l <= MaxLimit
    ensures q.limit.None? ==> l == DefaultLimit
    ensures q.limit.Some? ==> l == q.limit.value
  {
    q.limit.GetOr(DefaultLimit)
  }
}
