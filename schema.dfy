/** The tables created by createTables in database.go, as records, and the
    CHECK / UNIQUE / FOREIGN KEY clauses of the schema as predicates over the
    table contents. Tables are sequences in rowid order; nothing is ever deleted,
    and wards, users, submissions and activity logs gain rows only by plain
    INSERTs, so their AUTOINCREMENT id is the row's 1-based position. Achievements
    are numbered by position too, although an ignored INSERT OR IGNORE can use up
    an id in SQLite; no handler reads their ids. */
module Schema {
  import opened Wrappers

  /** CHECK(status IN ('pending', 'approved', 'rejected')) */
  datatype Status = Pending | Approved | Rejected

  /** CHECK(role IN ('admin', 'ward_approver')) */
  datatype Role = Admin | WardApprover

  /** The text stored in the status column. */
  function StatusName(s: Status): string {
    match s
    case Pending => "pending"
    case Approved => "approved"
    case Rejected => "rejected"
  }

  datatype Ward = Ward(id: int, name: string, points: int, pendingPoints: int, createdAt: int)

  /** The password hash is not modelled. */
  datatype User = User(id: int, email: string, role: Role, wardId: Option<int>)

  datatype Submission = Submission(
    id: int, wardId: int, submitterName: string, points: int, note: string,
    status: Status, approvedBy: Option<int>, approvedAt: Option<int>, createdAt: int)

  /** The description column is always NULL and is not modelled. */
  datatype Achievement = Achievement(id: int, wardId: int, kind: string, title: string, icon: string, earnedAt: int)

  datatype ActivityLog = ActivityLog(
    id: int, wardId: int, userId: Option<int>, action: string, details: string, points: int, createdAt: int)

  // ---- the schema's constraints ------------------------------------------

  /** wards: AUTOINCREMENT ids, name TEXT NOT NULL UNIQUE */
  ghost predicate WardsWellFormed(wards: seq<Ward>) {
    && (forall i :: 0 <= i < |wards| ==> wards[i].id == i + 1)
    && (forall i, j :: 0 <= i < j < |wards| ==> wards[i].name != wards[j].name)
  }

  /** users: AUTOINCREMENT ids, email UNIQUE, ward_id REFERENCES wards(id) */
  ghost predicate UsersWellFormed(users: seq<User>, wards: seq<Ward>) {
    && (forall i :: 0 <= i < |users| ==> users[i].id == i + 1)
    && (forall i, j :: 0 <= i < j < |users| ==> users[i].email != users[j].email)
    && (forall i :: 0 <= i < |users| && users[i].wardId.Some? ==> 1 <= users[i].wardId.value <= |wards|)
  }

  /** point_submissions: AUTOINCREMENT ids, ward_id REFERENCES wards(id),
      approved_by REFERENCES users(id); the amount is positive (Submit validates
      it, the seed rows are positive) and a pending row carries no approver and
      no approval time. */
  ghost predicate SubmissionsWellFormed(subs: seq<Submission>, wards: seq<Ward>, users: seq<User>) {
    forall i :: 0 <= i < |subs| ==>
      && subs[i].id == i + 1
      && 1 <= subs[i].wardId <= |wards|
      && (subs[i].approvedBy.Some? ==> 1 <= subs[i].approvedBy.value <= |users|)
      && subs[i].points > 0
      && (subs[i].status == Pending ==> subs[i].approvedBy.None? && subs[i].approvedAt.None?)
  }

  /** At most one row per (ward_id, type): UNIQUE(ward_id, type). */
  ghost predicate UniquePerWard(achs: seq<Achievement>) {
    forall i, j :: 0 <= i < j < |achs| ==> achs[i].wardId != achs[j].wardId || achs[i].kind != achs[j].kind
  }

  /** achievements: ids by position (see the module comment), ward_id REFERENCES wards(id), UNIQUE(ward_id, type) */
  ghost predicate AchievementsWellFormed(achs: seq<Achievement>, wards: seq<Ward>) {
    && (forall i :: 0 <= i < |achs| ==> achs[i].id == i + 1 && 1 <= achs[i].wardId <= |wards|)
    && UniquePerWard(achs)
  }

  /** activity_logs: AUTOINCREMENT ids, ward_id REFERENCES wards(id), user_id REFERENCES users(id) */
  ghost predicate LogsWellFormed(logs: seq<ActivityLog>, wards: seq<Ward>, users: seq<User>) {
    forall i :: 0 <= i < |logs| ==>
      && logs[i].id == i + 1
      && 1 <= logs[i].wardId <= |wards|
      && (logs[i].userId.Some? ==> 1 <= logs[i].userId.value <= |users|)
  }

  // ---- lookups: QueryRow ... WHERE id = ? scans the first matching row ----

  /** The index of the first ward whose id is `id`. */
  function FindWard(wards: seq<Ward>, id: int, from: nat := 0): (r: Option<nat>)
    requires from <= |wards|
    ensures r.Some? ==> from <= r.value < |wards| && wards[r.value].id == id
    ensures r.Some? ==> forall k :: from <= k < r.value ==> wards[k].id != id
    ensures r.None? ==> forall k :: from <= k < |wards| ==> wards[k].id != id
    decreases |wards| - from
  {
    if from == |wards| then None
    else if wards[from].id == id then Some(from)
    else FindWard(wards, id, from + 1)
  }

  /** The first user whose id is `id`. */
  function FindUser(users: seq<User>, id: int, from: nat := 0): (r: Option<User>)
    requires from <= |users|
    ensures r.Some? ==> r.value.id == id && exists k :: from <= k < |users| && users[k] == r.value
    ensures r.None? ==> forall k :: from <= k < |users| ==> users[k].id != id
    decreases |users| - from
  {
    if from == |users| then None
    else if users[from].id == id then Some(users[from])
    else FindUser(users, id, from + 1)
  }

  /** With positional ids, a ward is found exactly when its id is in 1..|wards|. */
  lemma FindWardByPosition(wards: seq<Ward>, id: int)
    requires WardsWellFormed(wards)
    ensures FindWard(wards, id).Some? <==> 1 <= id <= |wards|
    ensures FindWard(wards, id).Some? ==> FindWard(wards, id).value == id - 1
  {
    if 1 <= id <= |wards| {
      assert wards[id - 1].id == id;
    }
  }

  /** With positional ids, a user is found exactly when its id is in 1..|users|. */
  lemma FindUserByPosition(users: seq<User>, wards: seq<Ward>, id: int)
    requires UsersWellFormed(users, wards)
    ensures FindUser(users, id).Some? <==> 1 <= id <= |users|
    ensures FindUser(users, id).Some? ==> FindUser(users, id).value == users[id - 1]
  {
    if 1 <= id <= |users| {
      assert users[id - 1].id == id;
    }
  }
}
