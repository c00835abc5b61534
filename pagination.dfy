/**
 * `findAllPaginated`: the where clause built from the query, the page and count
 * the repository returns (newest first), and the page arithmetic around them.
 */
module Pagination {
  import opened Wrappers
  import opened UserEntity
  import opened Dto

  /** The where clause: which filters are applied. */
  datatype Where = Where(name: Option<string>, email: Option<string>, role: Option<Role>)

  /** The clause the service builds field by field. */
  function WhereClause(q: UsersQueryDto): (w: Where)
    ensures w.name.Some? <==> Given(q.name)
    ensures w.email.Some? <==> Given(q.email)
    ensures w.name.Some? ==> w.name == q.name
    ensures w.email.Some? ==> w.email == q.email
    ensures w.role == q.role
  {
    Where(if Given(q.name) then q.name else None,
          if Given(q.email) then q.email else None,
          q.role)
  }

  /** `sub` occurs somewhere in `s` (what `LIKE '%sub%'` asks for). */
  predicate Contains(s: string, sub: string) {
    exists k | 0 <= k <= |s| - |sub| :: OccursAt(s, sub, k)
  }

  predicate OccursAt(s: string, sub: string, k: int) {
    0 <= k && k + |sub| <= |s| && s[k..k + |sub|] == sub
  }

  /** Name and email by substring, role exactly; an absent filter accepts everything. */
  predicate Matches(u: User, w: Where) {
    && (w.name.Some? ==> Contains(u.name, w.name.value))
    && (w.email.Some? ==> Contains(u.email, w.email.value))
    && (w.role.Some? ==> u.role == w.role.value)
  }

  /** The rows the where clause selects, in table order. */
  function Filter(t: Table, w: Where): (r: Table)
    ensures |r| <= |t|
    ensures forall u :: u in r <==> u in t && Matches(u, w)
    decreases |t|
  {
    if |t| == 0 then []
    else if Matches(t[0], w) then [t[0]] + Filter(t[1..], w)
    else Filter(t[1..], w)
  }

  /** `order: { created_at: 'DESC' }`: rows are kept in creation order, so newest first is the reverse. */
  function NewestFirst(t: Table): (r: Table)
    ensures |r| == |t|
    ensures forall i | 0 <= i < |t| :: r[i] == t[|t| - 1 - i]
    ensures forall u :: u in r <==> u in t
    decreases |t|
  {
    if |t| == 0 then []
    else
      assert t == [t[0]] + t[1..];
      NewestFirst(t[1..]) + [t[0]]
  }

  function Min(a: int, b: int): int {
    if a <= b then a else b
  }

  /** `skip` rows dropped, then at most `take` rows kept. */
  function Window(s: Table, skip: nat, take: nat): (r: Table)
    ensures |r| == if skip <= |s| then Min(take, |s| - skip) else 0
    ensures forall k | 0 <= k < |r| :: r[k] == s[skip + k]
    ensures forall u | u in r :: u in s
  {
    var r := s[Min(skip, |s|)..Min(skip + take, |s|)];
    assert forall u | u in r :: u in s by {
      forall u | u in r ensures u in s {
        var k :| 0 <= k < |r| && r[k] == u;
        assert s[Min(skip, |s|) + k] == u;
      }
    }
    r
  }

  /** `findAndCount({ where, skip, take, order })`: one window of the ordered selection, and its full size. */
  function FindAndCount(t: Table, w: Where, skip: nat, take: nat): (r: (Table, nat))
    ensures r.1 == |Filter(t, w)|
    ensures |r.0| == if skip <= r.1 then Min(take, r.1 - skip) else 0
    ensures forall k | 0 <= k < |r.0| :: r.0[k] == NewestFirst(Filter(t, w))[skip + k]
    ensures forall u | u in r.0 :: u in t && Matches(u, w)
  {
    var all := NewestFirst(Filter(t, w));
    (Window(all, skip, take), |all|)
  }

  /** `Math.ceil(a / b)` on non-negative integers. */
  function CeilDiv(a: nat, b: nat): (r: nat)
    requires b > 0
    ensures a <= r * b
    ensures r > 0 ==> (r - 1) * b < a
  {
    var q := (a + b - 1) / b;
    var m := (a + b - 1) % b;
    assert a + b - 1 == q * b + m;
    assert (q - 1) * b == q * b - b;
    q
  }

  /** A page of results with the metadata the service computes. */
  datatype Page<T> = Page(
    data: seq<T>,
    total: nat,
    page: int,
    limit: int,
    totalPages: nat,
    hasNextPage: bool,
    hasPreviousPage: bool)

  lemma {:induction false} MulMonotone(a: int, b: int, k: nat)
    requires a <= b
    ensures a * k <= b * k
    decreases k
  {
    if k > 0 {
      MulMonotone(a, b, k - 1);
      assert a * k == a * (k - 1) + a;
      assert b * k == b * (k - 1) + b;
    }
  }

  /** There is a page after `page` exactly when that page stops short of the total. */
  lemma NextPageExists(total: nat, page: int, limit: nat)
    requires page >= 1 && limit >= 1
    ensures page < CeilDiv(total, limit) <==> page * limit < total
  {
    var c := CeilDiv(total, limit);
    if page < c {
      MulMonotone(page, c - 1, limit);
    } else {
      MulMonotone(c, page, limit);
    }
  }

  /** `skip = (page - 1) * limit`. */
  function Offset(page: int, limit: nat): (s: nat)
    requires page >= 1
    ensures s == (page - 1) * limit
  {
    MulMonotone(0, page - 1, limit);
    (page - 1) * limit
  }

  /** The service method: defaults, skip = (page - 1) * limit, take = limit, then the page metadata. */
  function FindAllPaginated(t: Table, q: UsersQueryDto): (r: Page<User>)
    requires ValidPaginationQuery(q)
    ensures r.page == PageOf(q) && r.limit == LimitOf(q)
    ensures r.total == |Filter(t, WhereClause(q))|
    ensures r.total <= r.totalPages * r.limit
    ensures r.totalPages > 0 ==> (r.totalPages - 1) * r.limit < r.total
    ensures r.hasPreviousPage <==> r.page > 1
    ensures |r.data| <= r.limit
  {
    var page := PageOf(q);
    var limit := LimitOf(q);
    var skip := Offset(page, limit);
    var found := FindAndCount(t, WhereClause(q), skip, limit);
    var totalPages := CeilDiv(found.1, limit);
    Page(found.0, found.1, page, limit, totalPages, page < totalPages, page > 1)
  }

  /**
   * The page holds the matching rows, newest first, from position
   * (page - 1) * limit on: as many as fit, fewer on the last page, none past it.
   */
  lemma PageContents(t: Table, q: UsersQueryDto)
    requires ValidPaginationQuery(q)
    ensures var r := FindAllPaginated(t, q);
            var all := NewestFirst(Filter(t, WhereClause(q)));
            var skip := Offset(r.page, r.limit);
            && |r.data| == (if skip <= r.total then Min(r.limit, r.total - skip) else 0)
            && (forall k | 0 <= k < |r.data| :: skip + k < |all| && r.data[k] == all[skip + k])
            && (forall u | u in r.data :: u in t && Matches(u, WhereClause(q)))
  {
  }

  /**
   * `hasNextPage` is true exactly when this page stops short of the total, that
   * is, exactly when asking for the following page would return rows.
   */
  lemma HasNextPageIff(t: Table, q: UsersQueryDto)
    requires ValidPaginationQuery(q)
    ensures var r := FindAllPaginated(t, q);
            && (r.hasNextPage <==> r.page * r.limit < r.total)
            && (r.hasNextPage <==> |FindAllPaginated(t, q.(page := Some(r.page + 1))).data| > 0)
  {
    var r := FindAllPaginated(t, q);
    NextPageExists(r.total, r.page, r.limit);
    var next := q.(page := Some(r.page + 1));
    assert Offset(r.page + 1, r.limit) == r.page * r.limit;
    assert WhereClause(next) == WhereClause(q);
  }

  /** The examples the service's own tests check. */
  lemma PaginationExamples(t: Table, q: UsersQueryDto)
    requires ValidPaginationQuery(q) && LimitOf(q) == 10
    ensures |Filter(t, WhereClause(q))| == 15 && PageOf(q) == 1 ==>
              var r := FindAllPaginated(t, q);
              r.totalPages == 2 && r.hasNextPage && !r.hasPreviousPage && |r.data| == 10
    ensures |Filter(t, WhereClause(q))| == 15 && PageOf(q) == 2 ==>
              var r := FindAllPaginated(t, q);
              r.totalPages == 2 && !r.hasNextPage && r.hasPreviousPage && |r.data| == 5
    ensures |Filter(t, WhereClause(q))| == 0 && PageOf(q) == 1 ==>
              var r := FindAllPaginated(t, q);
              r.totalPages == 0 && !r.hasNextPage && !r.hasPreviousPage && r.data == []
  {
    var r := FindAllPaginated(t, q);
    assert CeilDiv(15, 10) == 2;
    assert CeilDiv(0, 10) == 0;
    if |Filter(t, WhereClause(q))| == 15 && PageOf(q) == 1 {
      assert |r.data| == 10;
    }
  }
}
