/** The listing half of `getAllUsers` (src/controllers/userController.js): the query
    parameters with their defaults, the where-clause, pagination, the page count and the
    export gate. The database's sort is not computed here: `rows` is the table in the
    order the database returns for the requested sort key. */
module UserQuery {
  import opened Common
  import opened Strings
  import opened Records
  import opened Http
  import opened Store

  /** `req.query` as the handler reads it; `page` and `limit` are already through
      `parseInt` (None for an absent or non-numeric value). */
  datatype ListParams = ListParams(
    page: Option<int>, limit: Option<int>, search: Option<string>, roles: Option<string>,
    active: Option<string>, sortBy: Option<string>, sortOrder: Option<string>,
    exportFlag: Option<string>)

  datatype Order = Asc | Desc

  /** The where-clause: text search, role list (empty for no filter), active flag. */
  datatype Where = Where(search: string, roles: seq<string>, active: Option<bool>)

  datatype Query = Query(
    page: int, limit: int, skip: int, where: Where, sortBy: string, sortOrder: Order,
    exporting: bool)

  /** `parseInt(v) || default`: NaN and 0 are falsy. */
  function NumberOr(v: Option<int>, default: int): int {
    match v
    case Some(n) => if n != 0 then n else default
    case None => default
  }

  /** `v || default` for a query string: absent and "" are falsy. */
  function StringOr(v: Option<string>, default: string): string {
    match v
    case Some(s) => if s != "" then s else default
    case None => default
  }

  /** The values the handler computes from the query before touching the database. */
  function BuildQuery(p: ListParams): (q: Query)
    ensures p.page.None? || p.page == Some(0) ==> q.page == 1
    ensures p.page.Some? && p.page.value != 0 ==> q.page == p.page.value
    ensures p.limit.None? || p.limit == Some(0) ==> q.limit == 10
    ensures p.limit.Some? && p.limit.value != 0 ==> q.limit == p.limit.value
    ensures q.skip == (q.page - 1) * q.limit
    ensures q.sortOrder == Desc <==> p.sortOrder == Some("desc")
    ensures q.where.active.Some? <==> p.active == Some("true") || p.active == Some("false")
    ensures q.where.active == Some(true) <==> p.active == Some("true")
    ensures q.exporting <==> p.exportFlag == Some("true")
    ensures q.where.roles == [] <==> p.roles.None? || p.roles == Some("")
    ensures q.where.search == "" <==> p.search.None? || p.search == Some("")
    ensures p.search.Some? ==> q.where.search == p.search.value
    ensures q.where.roles ==
      if p.roles.Some? && p.roles.value != "" then Split(p.roles.value, ',') else []
    ensures q.sortBy == if p.sortBy.Some? && p.sortBy.value != "" then p.sortBy.value else "id"
  {
    var page := NumberOr(p.page, 1);
    var limit := NumberOr(p.limit, 10);
    var roles := if p.roles.Some? && p.roles.value != "" then Split(p.roles.value, ',') else [];
    var active := if p.active == Some("true") then Some(true)
                  else if p.active == Some("false") then Some(false) else None;
    Query(page, limit, (page - 1) * limit,
          Where(StringOr(p.search, ""), roles, active),
          StringOr(p.sortBy, "id"),
          if p.sortOrder == Some("desc") then Desc else Asc,
          p.exportFlag == Some("true"))
  }

  /** A query without parameters lists the first ten users of everyone, by id, ascending. */
  lemma NoParameters()
    ensures BuildQuery(ListParams(None, None, None, None, None, None, None, None))
         == Query(1, 10, 0, Where("", [], None), "id", Asc, false)
  {
  }

  /** The where-clause: name or email contains the search text, and the role is in
      the list when there is one, and the active flag matches when one is asked for. */
  predicate Listed(u: User, w: Where) {
    && (Contains(u.name, w.search) || Contains(u.email, w.search))
    && (|w.roles| == 0 || u.role in w.roles)
    && (w.active.None? || w.active.value == u.active)
  }

  /** Without search text, roles or active flag, everyone is listed. */
  lemma EmptyWhereListsEveryone(u: User)
    ensures Listed(u, Where("", [], None))
  {
    ContainsEmpty(u.name);
  }

  /** The rows satisfying the where-clause, in the order given. */
  function Filter(rows: seq<User>, w: Where): (listed: seq<User>)
    ensures |listed| <= |rows|
    ensures forall u :: u in listed <==> u in rows && Listed(u, w)
    decreases |rows|
  {
    if rows == [] then []
    else
      var rest := Filter(rows[1..], w);
      assert forall u :: u in rows <==> u == rows[0] || u in rows[1..];
      if Listed(rows[0], w) then [rows[0]] + rest else rest
  }

  /** Filtering distributes over concatenation, so with the one-row case it fixes the
      result: the kept rows appear in their original order, each as often as it did. */
  lemma {:induction false} FilterAppend(a: seq<User>, b: seq<User>, w: Where)
    ensures Filter(a + b, w) == Filter(a, w) + Filter(b, w)
    decreases |a|
  {
    if a == [] {
      assert a + b == b;
    } else {
      var ab := a + b;
      assert ab != [] && ab[0] == a[0] && ab[1..] == a[1..] + b;
      FilterAppend(a[1..], b, w);
    }
  }

  /** One row is kept exactly when it satisfies the where-clause. */
  lemma FilterOne(u: User, w: Where)
    ensures Filter([u], w) == if Listed(u, w) then [u] else []
  {
    assert [u][1..] == [];
  }

  /** `skip` then `take` on a list. */
  function Window(s: seq<User>, skip: nat, take: nat): (page: seq<User>)
    ensures |page| <= take
    ensures forall k :: 0 <= k < |page| ==> skip + k < |s| && page[k] == s[skip + k]
    ensures |page| == if skip >= |s| then 0 else Min(take, |s| - skip)
  {
    s[Min(skip, |s|)..Min(skip + take, |s|)]
  }

  function Min(a: int, b: int): int {
    if a <= b then a else b
  }

  /** `Math.ceil(total / limit)` for a positive limit. */
  function TotalPages(total: nat, limit: int): (pages: nat)
    requires limit >= 1
    ensures pages * limit >= total
    ensures total > 0 ==> (pages - 1) * limit < total
    ensures total == 0 ==> pages == 0
  {
    var q := (total + limit - 1) / limit;
    var r := (total + limit - 1) % limit;
    assert total + limit - 1 == q * limit + r && 0 <= r < limit;
    assert q * limit >= total;
    assert total > 0 ==> q >= 1 && (q - 1) * limit == q * limit - limit;
    q
  }

  /** The columns of the user record a sort key may name. */
  const Columns: set<string> := {"id", "name", "email", "password", "role", "active",
    "lastLogin", "resetToken", "resetTokenExpires", "createdAt", "updatedAt"}

  function Summaries(rows: seq<User>): (r: seq<Summary>)
    ensures |r| == |rows|
    ensures forall k :: 0 <= k < |rows| ==> r[k] == SummaryOf(rows[k])
  {
    seq(|rows|, k requires 0 <= k < |rows| => SummaryOf(rows[k]))
  }

  /** `getAllUsers`. An export without the 'users.export' permission is refused before
      anything is read. An export is every listed user, unpaged and unsorted. A page
      holds at most `limit` listed users, starting `skip` rows in, and is counted with
      the same where-clause. A sort key that is not a column, a negative page or a
      negative limit is refused by the database. */
  function GetAllUsers(p: ListParams, canExport: bool, rows: seq<User>): (reply: Reply)
    ensures var q := BuildQuery(p);
      q.exporting && !canExport ==>
        reply == Respond(403, Errors("message", "You do not have permission to export users"))
    ensures var q := BuildQuery(p);
      q.exporting && canExport ==> reply == Respond(200, ExportBody(Summaries(Filter(rows, q.where))))
    ensures var q := BuildQuery(p);
      !q.exporting && q.page >= 1 && q.limit >= 1 && q.sortBy in Columns ==>
        var listed := Filter(rows, q.where);
        reply == Respond(200, ListBody(Summaries(Window(listed, q.skip, q.limit)), q.page,
                                       TotalPages(|listed|, q.limit), |listed|))
    ensures var q := BuildQuery(p);
      !q.exporting && !(q.page >= 1 && q.limit >= 1 && q.sortBy in Columns) ==>
        reply == Next(Thrown(InvalidArgument))
  {
    var q := BuildQuery(p);
    if q.exporting && !canExport then
      Respond(403, Errors("message", "You do not have permission to export users"))
    else
      var listed := Filter(rows, q.where);
      if q.exporting then Respond(200, ExportBody(Summaries(listed)))
      else if q.page < 1 || q.limit < 1 || q.sortBy !in Columns then Next(Thrown(InvalidArgument))
      else Respond(200, ListBody(Summaries(Window(listed, q.skip, q.limit)), q.page,
                                 TotalPages(|listed|, q.limit), |listed|))
  }

  /** Multiplying by a non-negative factor keeps the order. */
  lemma {:induction false} MulMono(a: int, b: int, c: int)
    requires 0 <= a <= b && 0 <= c
    ensures a * c <= b * c
    decreases b - a
  {
    if a < b {
      MulMono(a, b - 1, c);
      assert b * c == (b - 1) * c + c;
    }
  }

  /** The rows before page `page`: `(page - 1) * limit`. */
  function Offset(page: int, limit: int): (skip: nat)
    requires page >= 1 && limit >= 1
  {
    MulMono(0, page - 1, limit);
    (page - 1) * limit
  }

  /** Every user on a page is listed by the where-clause, and there are at most `limit`. */
  lemma PageIsListed(rows: seq<User>, w: Where, page: int, limit: int)
    requires page >= 1 && limit >= 1
    ensures var shown := Window(Filter(rows, w), Offset(page, limit), limit);
      |shown| <= limit && forall u | u in shown :: u in rows && Listed(u, w)
  {
    var listed := Filter(rows, w);
    var shown := Window(listed, Offset(page, limit), limit);
    forall u | u in shown
      ensures u in rows && Listed(u, w)
    {
      var k :| 0 <= k < |shown| && shown[k] == u;
      assert u in listed;
    }
  }

  lemma MulStep(n: int, limit: int)
    ensures (n - 1) * limit + limit == n * limit
  {
  }

  /** The first `n` pages, one after the other. */
  function PagesUpTo(s: seq<User>, limit: int, n: nat): seq<User>
    requires limit >= 1
  {
    if n == 0 then [] else PagesUpTo(s, limit, n - 1) + Window(s, Offset(n, limit), limit)
  }

  lemma {:induction false} PagesUpToPrefix(s: seq<User>, limit: int, n: nat)
    requires limit >= 1
    ensures PagesUpTo(s, limit, n) == s[..Min(n * limit, |s|)]
  {
    if n > 0 {
      PagesUpToPrefix(s, limit, n - 1);
      var skip := Offset(n, limit);
      MulStep(n, limit);
      var lo := Min(skip, |s|);
      var hi := Min(n * limit, |s|);
      assert s[..lo] + s[lo..hi] == s[..hi];
    }
  }

  /** Pages 1 to totalPages, read in order, give back every listed user exactly once:
      nothing is skipped and nothing repeats. */
  lemma PagesCoverListing(s: seq<User>, limit: int)
    requires limit >= 1
    ensures PagesUpTo(s, limit, TotalPages(|s|, limit)) == s
  {
    PagesUpToPrefix(s, limit, TotalPages(|s|, limit));
    assert s[..|s|] == s;
  }

  /** A page past totalPages is empty; every page up to it has at least one user. */
  lemma PagesBeyondAreEmpty(s: seq<User>, limit: int, page: int)
    requires limit >= 1 && page >= 1
    ensures page > TotalPages(|s|, limit) ==> Window(s, Offset(page, limit), limit) == []
    ensures page <= TotalPages(|s|, limit) ==> Window(s, Offset(page, limit), limit) != []
  {
    var tp := TotalPages(|s|, limit);
    var skip := Offset(page, limit);
    if page > tp {
      MulMono(tp, page - 1, limit);
      assert skip >= |s|;
    } else {
      MulMono(page - 1, tp - 1, limit);
      assert skip < |s|;
    }
  }

  /** Twenty-five listed users with a limit of ten: three pages of 10, 10 and 5. */
  lemma TwentyFiveByTen(s: seq<User>)
    requires |s| == 25
    ensures TotalPages(25, 10) == 3
    ensures |Window(s, 0, 10)| == 10 && |Window(s, 10, 10)| == 10 && |Window(s, 20, 10)| == 5
  {
  }

  /** An export refused for lack of permission does not depend on the table at all. */
  lemma ExportRefusedBeforeQuery(p: ListParams, rows1: seq<User>, rows2: seq<User>)
    requires BuildQuery(p).exporting
    ensures GetAllUsers(p, false, rows1) == GetAllUsers(p, false, rows2)
  {
  }

  /** What `aclService.hasPermission(user, 'users.export')` returns: an answer, when the
      service is synchronous, or a promise of one, when it is asynchronous (the ACL
      middleware awaits the same call). */
  datatype GateValue = Returned(granted: bool) | Promise(settlesTo: bool)

  /** The export gate as written: the value is tested without `await`, and a promise is
      an object, so it is truthy whatever it settles to. */
  function GateAsWritten(v: GateValue): (canExport: bool)
    ensures v.Promise? ==> canExport
    ensures v.Returned? ==> canExport == v.granted
  {
    match v
    case Returned(granted) => granted
    case Promise(_) => true
  }

  /** The export gate on the awaited answer. */
  function GateAwaited(v: GateValue): (canExport: bool)
    ensures canExport <==> (v.Returned? && v.granted) || (v.Promise? && v.settlesTo)
  {
    match v
    case Returned(granted) => granted
    case Promise(settlesTo) => settlesTo
  }

  /** As written, with an asynchronous permission service, a user the service refuses
      still receives the whole filtered user list when asking for an export. */
  lemma UnawaitedGateExportsToAnyone(p: ListParams, rows: seq<User>)
    requires BuildQuery(p).exporting
    ensures GetAllUsers(p, GateAsWritten(Promise(false)), rows)
         == Respond(200, ExportBody(Summaries(Filter(rows, BuildQuery(p).where))))
  {
  }

  /** Awaited, the refusal is a 403, whatever the table holds; the two gates disagree
      only on a promise of a refusal. */
  lemma AwaitedGateRefuses(p: ListParams, rows: seq<User>)
    requires BuildQuery(p).exporting
    ensures GetAllUsers(p, GateAwaited(Promise(false)), rows)
         == Respond(403, Errors("message", "You do not have permission to export users"))
    ensures forall v: GateValue :: GateAwaited(v) != GateAsWritten(v) <==> v == Promise(false)
  {
  }
}
