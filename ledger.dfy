/** The points ledger of handlers.go: the pending -> approved | rejected state
    machine of a submission and the ward counters that hang off it. The reference
    invariant (the final UPDATE of seedData, database.go:184-197) is that a
    ward's `points` is the sum of its approved submissions and its
    `pending_points` the sum of its pending ones; every transition below is
    proved to keep it. */
module Ledger {
  import opened Wrappers
  import opened Schema
  import Decimal

  // ---- the aggregate queries ----------------------------------------------

  /** What one submission adds to SUM(points) WHERE ward_id = w AND status = st. */
  function Share(s: Submission, wardId: int, st: Status): int {
    if s.wardId == wardId && s.status == st then s.points else 0
  }

  /** SELECT COALESCE(SUM(points), 0) FROM point_submissions WHERE ward_id = ? AND status = ? */
  function Total(subs: seq<Submission>, wardId: int, st: Status): int
    decreases |subs|
  {
    if subs == [] then 0
    else Total(subs[..|subs| - 1], wardId, st) + Share(subs[|subs| - 1], wardId, st)
  }

  /** The reference invariant: every ward's counters are the sums over the ledger. */
  ghost predicate Consistent(wards: seq<Ward>, subs: seq<Submission>) {
    forall i :: 0 <= i < |wards| ==>
      wards[i].points == Total(subs, wards[i].id, Approved) &&
      wards[i].pendingPoints == Total(subs, wards[i].id, Pending)
  }

  lemma TotalAppend(subs: seq<Submission>, s: Submission, wardId: int, st: Status)
    ensures Total(subs + [s], wardId, st) == Total(subs, wardId, st) + Share(s, wardId, st)
  {
    assert (subs + [s])[..|subs|] == subs;
  }

  /** Changing one row changes the sum by exactly that row's change of share. */
  lemma {:induction false} TotalUpdate(subs: seq<Submission>, i: nat, s: Submission, wardId: int, st: Status)
    requires i < |subs|
    ensures Total(subs[i := s], wardId, st) == Total(subs, wardId, st) - Share(subs[i], wardId, st) + Share(s, wardId, st)
    decreases |subs|
  {
    var n := |subs| - 1;
    var t := subs[i := s];
    if i == n {
      assert t[..n] == subs[..n];
    } else {
      assert t[..n] == subs[..n][i := s];
      TotalUpdate(subs[..n], i, s, wardId, st);
    }
  }

  /** A ward no row refers to has nothing approved and nothing pending. */
  lemma {:induction false} TotalAbsent(subs: seq<Submission>, wardId: int, st: Status)
    requires forall k :: 0 <= k < |subs| ==> subs[k].wardId != wardId
    ensures Total(subs, wardId, st) == 0
    decreases |subs|
  {
    if subs != [] {
      TotalAbsent(subs[..|subs| - 1], wardId, st);
    }
  }

  /** With positive amounts (Submit rejects points <= 0) no counter is negative. */
  lemma {:induction false} TotalNonNegative(subs: seq<Submission>, wardId: int, st: Status)
    requires forall k :: 0 <= k < |subs| ==> subs[k].points > 0
    ensures Total(subs, wardId, st) >= 0
    decreases |subs|
  {
    if subs != [] {
      TotalNonNegative(subs[..|subs| - 1], wardId, st);
    }
  }

  // ---- the statements that change the tables --------------------------------

  /** UPDATE wards SET points = points + dPoints, pending_points = pending_points + dPending WHERE id = wardId */
  function Adjust(wards: seq<Ward>, wardId: int, dPoints: int, dPending: int): (r: seq<Ward>)
    ensures |r| == |wards|
    ensures forall i :: 0 <= i < |wards| ==> r[i].id == wards[i].id && r[i].name == wards[i].name
    ensures forall i :: 0 <= i < |wards| && wards[i].id != wardId ==> r[i] == wards[i]
    ensures forall i :: 0 <= i < |wards| && wards[i].id == wardId ==>
              r[i].points == wards[i].points + dPoints && r[i].pendingPoints == wards[i].pendingPoints + dPending &&
              r[i].createdAt == wards[i].createdAt
  {
    seq(|wards|, i requires 0 <= i < |wards| =>
      if wards[i].id == wardId
      then wards[i].(points := wards[i].points + dPoints, pendingPoints := wards[i].pendingPoints + dPending)
      else wards[i])
  }

  /** UPDATE wards SET pending_points = (SELECT COALESCE(SUM(points), 0) ... status = 'pending') WHERE id = wardId */
  function RecomputePending(wards: seq<Ward>, subs: seq<Submission>, wardId: int): (r: seq<Ward>)
    ensures |r| == |wards|
    ensures forall i :: 0 <= i < |wards| ==> r[i].id == wards[i].id && r[i].name == wards[i].name
    ensures forall i :: 0 <= i < |wards| && wards[i].id != wardId ==> r[i] == wards[i]
    ensures forall i :: 0 <= i < |wards| && wards[i].id == wardId ==>
              r[i].pendingPoints == Total(subs, wardId, Pending) && r[i].points == wards[i].points &&
              r[i].createdAt == wards[i].createdAt
  {
    seq(|wards|, i requires 0 <= i < |wards| =>
      if wards[i].id == wardId
      then wards[i].(pendingPoints := Total(subs, wardId, Pending))
      else wards[i])
  }

  /** The final UPDATE of seedData: both counters of every ward recomputed from the ledger. */
  function RecomputeTotals(wards: seq<Ward>, subs: seq<Submission>): (r: seq<Ward>)
    ensures |r| == |wards|
    ensures forall i :: 0 <= i < |wards| ==>
              r[i].id == wards[i].id && r[i].name == wards[i].name && r[i].createdAt == wards[i].createdAt
    ensures Consistent(r, subs)
  {
    seq(|wards|, i requires 0 <= i < |wards| =>
      wards[i].(points := Total(subs, wards[i].id, Approved), pendingPoints := Total(subs, wards[i].id, Pending)))
  }

  /** UPDATE point_submissions SET status = ?, approved_by = ?, approved_at = CURRENT_TIMESTAMP */
  function Decide(s: Submission, st: Status, userId: int, now: int): Submission {
    s.(status := st, approvedBy := Some(userId), approvedAt := Some(now))
  }

  /** SELECT ... FROM point_submissions WHERE id = ? AND status = 'pending': the
      index of the first pending row with that id, if any. */
  function FindPending(subs: seq<Submission>, id: int, from: nat := 0): (r: Option<nat>)
    requires from <= |subs|
    ensures r.Some? ==> from <= r.value < |subs| && subs[r.value].id == id && subs[r.value].status == Pending
    ensures r.Some? ==> forall k :: from <= k < r.value ==> !(subs[k].id == id && subs[k].status == Pending)
    ensures r.None? ==> forall k :: from <= k < |subs| && subs[k].id == id ==> subs[k].status != Pending
    decreases |subs| - from
  {
    if from == |subs| then None
    else if subs[from].id == id && subs[from].status == Pending then Some(from)
    else FindPending(subs, id, from + 1)
  }

  // ---- the invariant is kept by every transition -----------------------------

  /** Submit: insert a pending row, then recompute that ward's pending sum. */
  lemma SubmitKeepsConsistent(wards: seq<Ward>, subs: seq<Submission>, s: Submission)
    requires Consistent(wards, subs)
    requires s.status == Pending
    ensures Consistent(RecomputePending(wards, subs + [s], s.wardId), subs + [s])
  {
    var subs' := subs + [s];
    var r := RecomputePending(wards, subs', s.wardId);
    forall i | 0 <= i < |r|
      ensures r[i].points == Total(subs', r[i].id, Approved)
      ensures r[i].pendingPoints == Total(subs', r[i].id, Pending)
    {
      TotalAppend(subs, s, wards[i].id, Approved);
      TotalAppend(subs, s, wards[i].id, Pending);
    }
  }

  /** The full recompute agrees with an increment when the counters were in sync;
      it differs only where they had drifted. */
  lemma RecomputeIsIncrement(wards: seq<Ward>, subs: seq<Submission>, s: Submission, i: nat)
    requires Consistent(wards, subs)
    requires s.status == Pending && i < |wards| && wards[i].id == s.wardId
    ensures RecomputePending(wards, subs + [s], s.wardId)[i].pendingPoints == wards[i].pendingPoints + s.points
  {
    TotalAppend(subs, s, s.wardId, Pending);
  }

  /** Approve: status -> approved, points + p, pending_points - p. */
  lemma ApproveKeepsConsistent(wards: seq<Ward>, subs: seq<Submission>, i: nat, userId: int, now: int)
    requires Consistent(wards, subs)
    requires i < |subs| && subs[i].status == Pending
    ensures Consistent(Adjust(wards, subs[i].wardId, subs[i].points, -subs[i].points),
                       subs[i := Decide(subs[i], Approved, userId, now)])
  {
    var s := subs[i];
    var subs' := subs[i := Decide(s, Approved, userId, now)];
    var r := Adjust(wards, s.wardId, s.points, -s.points);
    forall j | 0 <= j < |r|
      ensures r[j].points == Total(subs', r[j].id, Approved)
      ensures r[j].pendingPoints == Total(subs', r[j].id, Pending)
    {
      TotalUpdate(subs, i, Decide(s, Approved, userId, now), wards[j].id, Approved);
      TotalUpdate(subs, i, Decide(s, Approved, userId, now), wards[j].id, Pending);
    }
  }

  /** Reject: status -> rejected, pending_points - p, points untouched. */
  lemma RejectKeepsConsistent(wards: seq<Ward>, subs: seq<Submission>, i: nat, userId: int, now: int)
    requires Consistent(wards, subs)
    requires i < |subs| && subs[i].status == Pending
    ensures Consistent(Adjust(wards, subs[i].wardId, 0, -subs[i].points),
                       subs[i := Decide(subs[i], Rejected, userId, now)])
  {
    var s := subs[i];
    var subs' := subs[i := Decide(s, Rejected, userId, now)];
    var r := Adjust(wards, s.wardId, 0, -s.points);
    forall j | 0 <= j < |r|
      ensures r[j].points == Total(subs', r[j].id, Approved)
      ensures r[j].pendingPoints == Total(subs', r[j].id, Pending)
    {
      TotalUpdate(subs, i, Decide(s, Rejected, userId, now), wards[j].id, Approved);
      TotalUpdate(subs, i, Decide(s, Rejected, userId, now), wards[j].id, Pending);
    }
  }

  /** Once decided, a submission is no longer found by the pending lookup, so a
      second Approve or Reject of the same id answers NotFound. */
  lemma DecidedIsNotPending(subs: seq<Submission>, i: nat, st: Status, userId: int, now: int)
    requires forall k :: 0 <= k < |subs| ==> subs[k].id == k + 1
    requires i < |subs| && st != Pending
    ensures FindPending(subs[i := Decide(subs[i], st, userId, now)], subs[i].id) == None
  {
  }

  // ---- who may act -----------------------------------------------------------

  /** getUserIDFromSession: the Atoi value of the "session" cookie, 0 when the
      cookie is missing or does not parse. */
  function UserIdFromSession(cookie: Option<string>): (id: int)
    ensures cookie.None? ==> id == 0
    ensures id != 0 ==> cookie.Some? && Decimal.Atoi(cookie.value) == Some(id)
  {
    match cookie
    case None => 0
    case Some(text) =>
      match Decimal.Atoi(text)
      case None => 0
      case Some(n) => n
  }

  /** The cookie written at login holds the user id in decimal, so it is read back
      as that id. */
  lemma SessionRoundTrip(id: int)
    requires Decimal.MinInt <= id <= Decimal.MaxInt
    ensures UserIdFromSession(Some(Decimal.Itoa(id))) == id
  {
    Decimal.AtoiItoa(id);
  }

  /** canApproveForWard: an admin may act for every ward, a ward approver only for
      the ward recorded for them; an unknown user for none. */
  function CanApproveForWard(users: seq<User>, userId: int, wardId: int): (ok: bool)
    ensures FindUser(users, userId).None? ==> !ok
    ensures FindUser(users, userId).Some? && FindUser(users, userId).value.role == Admin ==> ok
    ensures FindUser(users, userId).Some? && FindUser(users, userId).value.role == WardApprover ==>
              (ok <==> FindUser(users, userId).value.wardId == Some(wardId))
  {
    match FindUser(users, userId)
    case None => false
    case Some(u) =>
      if u.role == Admin then true
      else u.role == WardApprover && u.wardId.Some? && u.wardId.value == wardId
  }

  /** Read against the users table (whose ids are unique): the decision is made by
      the one row with that id. */
  lemma CanApproveForWardByRow(users: seq<User>, wards: seq<Ward>, userId: int, wardId: int)
    requires UsersWellFormed(users, wards)
    ensures CanApproveForWard(users, userId, wardId) <==>
              1 <= userId <= |users| &&
              (users[userId - 1].role == Admin || users[userId - 1].wardId == Some(wardId))
  {
    FindUserByPosition(users, wards, userId);
  }
}
