/** The two read-only views over the submission table in handlers.go: the
    approver's listing of handleGetSubmissions (handlers.go:532-611) and the
    per-ward log of handleGetWardLog (handlers.go:474-530). Both order rows by
    created_at DESC; here that ORDER BY is a stable sort, so rows with the same
    timestamp keep rowid order (SQL leaves their order open). */
module Listing {
  import opened Wrappers
  import opened Schema
  import opened Ledger
  import Decimal

  /** LIMIT 50 */
  const PageSize: nat := 50

  // ---- newest first ------------------------------------------------------------

  ghost predicate NewestFirst(s: seq<Submission>) {
    forall i, j :: 0 <= i < j < |s| ==> s[i].createdAt >= s[j].createdAt
  }

  lemma HeadNewerThanInserted(x: Submission, s: seq<Submission>, rest: seq<Submission>)
    requires NewestFirst(s) && s != [] && s[0].createdAt >= x.createdAt
    requires multiset(rest) == multiset(s[1..]) + multiset{x}
    ensures forall e :: e in multiset(rest) ==> s[0].createdAt >= e.createdAt
  {
    forall e | e in multiset(rest) ensures s[0].createdAt >= e.createdAt {
      if e != x {
        assert e in multiset(s[1..]);
        var m :| 0 <= m < |s| - 1 && s[1..][m] == e;
        assert s[m + 1] == e;
      }
    }
  }

  lemma ConsNewest(y: Submission, rest: seq<Submission>)
    requires NewestFirst(rest)
    requires forall e :: e in multiset(rest) ==> y.createdAt >= e.createdAt
    ensures NewestFirst([y] + rest)
  {
    forall i, j | 0 <= i < j < |[y] + rest| ensures ([y] + rest)[i].createdAt >= ([y] + rest)[j].createdAt {
      if i == 0 {
        assert rest[j - 1] in multiset(rest);
      }
    }
  }

  /** A row not older than the head of a newest-first list goes in front of it. */
  lemma PrependNewest(x: Submission, s: seq<Submission>)
    requires NewestFirst(s) && s != [] && x.createdAt >= s[0].createdAt
    ensures NewestFirst([x] + s)
  {
    forall e | e in multiset(s) ensures x.createdAt >= e.createdAt {
      var m :| 0 <= m < |s| && s[m] == e;
    }
    ConsNewest(x, s);
  }

  /** Insert `x` in front of the first row that is not newer than it. */
  function InsertByAge(x: Submission, s: seq<Submission>): (r: seq<Submission>)
    requires NewestFirst(s)
    ensures NewestFirst(r)
    ensures multiset(r) == multiset(s) + multiset{x}
    decreases |s|
  {
    if s == [] then [x]
    else if x.createdAt >= s[0].createdAt then
      PrependNewest(x, s);
      [x] + s
    else
      assert NewestFirst(s[1..]);
      var rest := InsertByAge(x, s[1..]);
      HeadNewerThanInserted(x, s, rest);
      ConsNewest(s[0], rest);
      assert s == [s[0]] + s[1..];
      [s[0]] + rest
  }

  /** ORDER BY created_at DESC */
  function ByAge(s: seq<Submission>): (r: seq<Submission>)
    ensures NewestFirst(r)
    ensures multiset(r) == multiset(s)
    decreases |s|
  {
    if s == [] then []
    else
      assert s == [s[0]] + s[1..];
      InsertByAge(s[0], ByAge(s[1..]))
  }

  // ---- the approver's listing -----------------------------------------------------

  /** The status filter: the query parameter, "pending" when it is empty. */
  function StatusFilter(param: string): (status: string)
    ensures param == "" ==> status == "pending"
    ensures param != "" ==> status == param
  {
    if param == "" then "pending" else param
  }

  /** WHERE ps.status = ? [AND ps.ward_id = ?], and the JOIN with wards keeps only
      rows whose ward exists. */
  predicate Visible(s: Submission, wards: seq<Ward>, status: string, scope: Option<int>) {
    && StatusName(s.status) == status
    && FindWard(wards, s.wardId).Some?
    && (scope.Some? ==> s.wardId == scope.value)
  }

  /** The visible rows, in rowid order. */
  function Matching(subs: seq<Submission>, wards: seq<Ward>, status: string, scope: Option<int>): (r: seq<Submission>)
    ensures |r| <= |subs|
    ensures forall x :: x in r <==> x in subs && Visible(x, wards, status, scope)
    ensures forall x :: multiset(r)[x] == if Visible(x, wards, status, scope) then multiset(subs)[x] else 0
    decreases |subs|
  {
    if subs == [] then []
    else
      var n := |subs| - 1;
      assert subs == subs[..n] + [subs[n]];
      Matching(subs[..n], wards, status, scope) + (if Visible(subs[n], wards, status, scope) then [subs[n]] else [])
  }

  /** A prefix of a newest-first sequence is newest first, holds rows of the
      sequence only, and no row left out of it is newer than a row in it. */
  lemma NewestPrefix(m: seq<Submission>, sorted: seq<Submission>, n: nat)
    requires NewestFirst(sorted) && multiset(sorted) == multiset(m) && n <= |sorted|
    ensures NewestFirst(sorted[..n])
    ensures forall x :: x in sorted[..n] ==> x in m
    ensures forall x, y :: x in sorted[..n] && y in m && y !in sorted[..n] ==> x.createdAt >= y.createdAt
  {
    var r := sorted[..n];
    forall x | x in r ensures x in m {
      assert x in multiset(sorted);
    }
    forall x, y | x in r && y in m && y !in r ensures x.createdAt >= y.createdAt {
      assert y in multiset(sorted);
      var j :| 0 <= j < |sorted| && sorted[j] == y;
      var i :| 0 <= i < |r| && r[i] == x;
      assert j >= n;
    }
  }

  /** The rows the listing returns: the 50 newest visible rows. */
  function Listing(subs: seq<Submission>, wards: seq<Ward>, status: string, scope: Option<int>): (r: seq<Submission>)
    ensures |r| <= PageSize
    ensures NewestFirst(r)
    ensures forall x :: x in r ==> x in subs && Visible(x, wards, status, scope)
    ensures |Matching(subs, wards, status, scope)| <= PageSize ==>
              multiset(r) == multiset(Matching(subs, wards, status, scope))
    ensures |Matching(subs, wards, status, scope)| > PageSize ==> |r| == PageSize
    ensures multiset(r) <= multiset(Matching(subs, wards, status, scope))
    ensures forall x, y :: x in r && y in subs && Visible(y, wards, status, scope) && y !in r ==>
              x.createdAt >= y.createdAt
  {
    var m := Matching(subs, wards, status, scope);
    var sorted := ByAge(m);
    assert |sorted| == |m| by { assert |multiset(sorted)| == |multiset(m)|; }
    var n := if |sorted| <= PageSize then |sorted| else PageSize;
    NewestPrefix(m, sorted, n);
    assert sorted[..|sorted|] == sorted;
    assert sorted == sorted[..n] + sorted[n..];
    sorted[..n]
  }

  datatype Row = Row(
    id: int, wardId: int, wardName: string, submitterName: string, points: int,
    note: string, status: string, createdAt: int)

  /** w.name of the joined ward. */
  function WardName(wards: seq<Ward>, wardId: int): string {
    match FindWard(wards, wardId)
    case Some(i) => wards[i].name
    case None => ""
  }

  function RowOf(wards: seq<Ward>, s: Submission): Row {
    Row(s.id, s.wardId, WardName(wards, s.wardId), s.submitterName, s.points, s.note, StatusName(s.status), s.createdAt)
  }

  /** The listing scope of the signed-in user: all wards for an admin, the own
      ward for an approver that has one, no listing for anyone else. */
  function Scope(u: User): (r: Option<Option<int>>)
    ensures u.role == Admin ==> r == Some(None)
    ensures u.role == WardApprover && u.wardId.Some? ==> r == Some(Some(u.wardId.value))
    ensures u.role == WardApprover && u.wardId.None? ==> r == None
  {
    if u.role == Admin then Some(None)
    else if u.wardId.Some? then Some(Some(u.wardId.value))
    else None
  }

  /** handleGetSubmissions: authentication, the role-scoped query, and the scan
      loop that appends one row per result. */
  method GetSubmissions(users: seq<User>, wards: seq<Ward>, subs: seq<Submission>, session: Option<string>, statusParam: string)
    returns (r: Result<seq<Row>>)
    ensures UserIdFromSession(session) == 0 ==> r == Err(Unauthorized)
    ensures UserIdFromSession(session) != 0 && FindUser(users, UserIdFromSession(session)).None? ==> r == Err(NotFound)
    ensures UserIdFromSession(session) != 0 && FindUser(users, UserIdFromSession(session)).Some? ==>
              var u := FindUser(users, UserIdFromSession(session)).value;
              match Scope(u)
              case None => r == Err(Forbidden)
              case Some(scope) =>
                && r.Ok?
                && |r.value| == |Listing(subs, wards, StatusFilter(statusParam), scope)|
                && forall i :: 0 <= i < |r.value| ==>
                     r.value[i] == RowOf(wards, Listing(subs, wards, StatusFilter(statusParam), scope)[i])
  {
    var userId := UserIdFromSession(session);
    if userId == 0 {
      return Err(Unauthorized);
    }
    var status := StatusFilter(statusParam);
    var found := FindUser(users, userId);
    if found.None? {
      return Err(NotFound);
    }
    var scope := Scope(found.value);
    if scope.None? {
      return Err(Forbidden);
    }
    var rows := ScanRows(wards, Listing(subs, wards, status, scope.value));
    return Ok(rows);
  }

  /** The scan loop: one row per result, in the query's order. */
  method ScanRows(wards: seq<Ward>, result: seq<Submission>) returns (rows: seq<Row>)
    ensures |rows| == |result|
    ensures forall k :: 0 <= k < |result| ==> rows[k] == RowOf(wards, result[k])
  {
    rows := [];
    var i := 0;
    while i < |result|
      invariant 0 <= i <= |result| && |rows| == i
      invariant forall k :: 0 <= k < i ==> rows[k] == RowOf(wards, result[k])
    {
      rows := rows + [RowOf(wards, result[i])];
      i := i + 1;
    }
  }

  /** An approver only ever sees rows of the own ward. */
  lemma ApproverSeesOwnWard(subs: seq<Submission>, wards: seq<Ward>, status: string, wardId: int)
    ensures forall x :: x in Listing(subs, wards, status, Some(wardId)) ==> x.wardId == wardId
  {
  }

  // ---- the ward log ---------------------------------------------------------------

  /** WHERE ward_id = ? */
  function OfWard(subs: seq<Submission>, wardId: int): (r: seq<Submission>)
    ensures |r| <= |subs|
    ensures forall x :: x in r <==> x in subs && x.wardId == wardId
    ensures forall x :: multiset(r)[x] == if x.wardId == wardId then multiset(subs)[x] else 0
    decreases |subs|
  {
    if subs == [] then []
    else
      var n := |subs| - 1;
      assert subs == subs[..n] + [subs[n]];
      OfWard(subs[..n], wardId) + (if subs[n].wardId == wardId then [subs[n]] else [])
  }

  datatype WardLogView = WardLogView(
    wardId: string, wardName: string, totalPoints: int, pendingPoints: int, submissions: seq<Submission>)

  /** handleGetWardLog: the route's id text is bound against the integer id
      column, so it selects the ward whose id it spells; a missing ward is
      NotFound, otherwise every submission of the ward, newest first. */
  function WardLog(wards: seq<Ward>, subs: seq<Submission>, idText: string): (r: Result<WardLogView>)
    ensures r.Err? <==> Decimal.Atoi(idText).None? || FindWard(wards, Decimal.Atoi(idText).value).None?
    ensures r.Err? ==> r.failure == NotFound
    ensures r.Ok? ==>
              var w := wards[FindWard(wards, Decimal.Atoi(idText).value).value];
              && r.value.wardId == idText
              && r.value.wardName == w.name
              && r.value.totalPoints == w.points
              && r.value.pendingPoints == w.pendingPoints
              && NewestFirst(r.value.submissions)
              && multiset(r.value.submissions) == multiset(OfWard(subs, w.id))
  {
    match Decimal.Atoi(idText)
    case None => Err(NotFound)
    case Some(id) =>
      match FindWard(wards, id)
      case None => Err(NotFound)
      case Some(i) =>
        Ok(WardLogView(idText, wards[i].name, wards[i].points, wards[i].pendingPoints, ByAge(OfWard(subs, wards[i].id))))
  }
}
