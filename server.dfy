/** The Server of main.go and handlers.go with its database held as in-memory
    tables: the submission handlers (submit, approve, reject), the achievement
    evaluator, the activity log, the leaderboard broadcasts, and the seeding of
    database.go. Every handler keeps the schema's constraints and the ledger
    invariant (`Ledger.Consistent`): ward counters are the sums over the
    submissions. */
module Server {
  import opened Wrappers
  import opened Schema
  import opened Ledger
  import Decimal
  import Milestones
  import Standings
  import Listing
  import opened Broadcast

  // ---- the broadcast payloads ------------------------------------------------------

  datatype Payload =
    | LeaderboardUpdate(leaderboard: seq<Standings.Entry>, stats: Standings.Stats)
    | AchievementUnlocked(ward: string, achievement: string, milestone: string)

  type Message = Envelope<Payload>

  /** broadcastLeaderboardUpdate: the points-descending board and the stats. */
  function LeaderboardMessage(wards: seq<Ward>, subs: seq<Submission>, achs: seq<Achievement>, logs: seq<ActivityLog>, now: int): Message {
    Envelope("leaderboard-update",
      LeaderboardUpdate(Standings.Board(wards, achs, logs, Standings.VerifiedDesc, now), Standings.GetStats(wards, subs, now)))
  }

  /** broadcastAchievement: "<ward> earned: <title>". */
  function AchievementMessage(wardName: string, title: string): Message {
    Envelope("achievement", AchievementUnlocked(wardName, title, wardName + " earned: " + title))
  }

  function AchievementMessages(wardName: string, titles: seq<string>): (r: seq<Message>)
    ensures |r| == |titles|
    ensures forall i :: 0 <= i < |titles| ==> r[i] == AchievementMessage(wardName, titles[i])
  {
    seq(|titles|, i requires 0 <= i < |titles| => AchievementMessage(wardName, titles[i]))
  }

  lemma AchievementMessagesAppend(wardName: string, said: seq<string>, title: string)
    ensures AchievementMessages(wardName, said + [title]) == AchievementMessages(wardName, said) + [AchievementMessage(wardName, title)]
  {
  }

  /** Row `i` of `subs0` was approved by `actor`: `subs1` has it decided,
      `wards1` has its points moved from the ward's pending to its verified
      points, `achs1` and the messages appended to `sent1` are the evaluation of
      the milestones at the new total, and `logs1` has the "points_approved" row;
      the leaderboard broadcast comes last. */
  ghost predicate ApprovedRow(wards0: seq<Ward>, subs0: seq<Submission>, achs0: seq<Achievement>,
                              logs0: seq<ActivityLog>, sent0: seq<Message>,
                              wards1: seq<Ward>, subs1: seq<Submission>, achs1: seq<Achievement>,
                              logs1: seq<ActivityLog>, sent1: seq<Message>, i: nat, actor: int, now: int) {
    && i < |subs0|
    && var s := subs0[i];
    && subs1 == subs0[i := Decide(s, Approved, actor, now)]
    && wards1 == Adjust(wards0, s.wardId, s.points, -s.points)
    && achs1 == Milestones.Awarded(achs0, s.wardId, PointsOf(wards1, s.wardId), Milestones.Table, now)
    && logs1 == logs0 + [ActivityLog(|logs0| + 1, s.wardId, Some(actor), "points_approved",
                                     ApprovedDetails(s.points, s.submitterName), s.points, now)]
    && sent1 == sent0 +
                AchievementMessages(Listing.WardName(wards1, s.wardId),
                  Milestones.AnnouncedAsWritten(PointsOf(wards1, s.wardId), Milestones.Table)) +
                [LeaderboardMessage(wards1, subs1, achs1, logs1, now)]
  }

  /** Row `i` of `subs0`, pending, was rejected by `actor`: `subs1` has it
      decided and `wards1` has its points dropped from the ward's pending. */
  ghost predicate RejectedRow(wards0: seq<Ward>, subs0: seq<Submission>, wards1: seq<Ward>, subs1: seq<Submission>,
                              i: nat, actor: int, now: int) {
    && i < |subs0|
    && subs1 == subs0[i := Decide(subs0[i], Rejected, actor, now)]
    && wards1 == Adjust(wards0, subs0[i].wardId, 0, -subs0[i].points)
  }

  /** One milestone `m` evaluated for a ward with `points` verified points: a met
      threshold is inserted with INSERT OR IGNORE and announced, whether the row
      is new or an ignored duplicate (the insert reports no error either way). */
  ghost predicate Evaluated(achs0: seq<Achievement>, sent0: seq<Message>, achs1: seq<Achievement>, sent1: seq<Message>,
                            wardName: string, wardId: int, points: int, m: Milestones.Milestone, now: int) {
    && achs1 == (if points >= m.threshold then Milestones.InsertOrIgnore(achs0, wardId, m.kind, m.title, m.icon, now) else achs0)
    && sent1 == sent0 + (if points >= m.threshold then [AchievementMessage(wardName, m.title)] else [])
  }

  /** Evaluating milestone i after the first i extends the awarded rows and the
      announcements to the first i + 1. */
  lemma EvaluationAdvances(a0: seq<Achievement>, wardId: int, points: int, wardName: string, i: nat, now: int,
                           sent0: seq<Message>, achs1: seq<Achievement>, sent1: seq<Message>,
                           achs2: seq<Achievement>, sent2: seq<Message>)
    requires i < |Milestones.Table|
    requires achs1 == Milestones.Awarded(a0, wardId, points, Milestones.Table[..i], now)
    requires sent1 == sent0 + AchievementMessages(wardName, Milestones.AnnouncedAsWritten(points, Milestones.Table[..i]))
    requires Evaluated(achs1, sent1, achs2, sent2, wardName, wardId, points, Milestones.Table[i], now)
    ensures achs2 == Milestones.Awarded(a0, wardId, points, Milestones.Table[..i + 1], now)
    ensures sent2 == sent0 + AchievementMessages(wardName, Milestones.AnnouncedAsWritten(points, Milestones.Table[..i + 1]))
  {
    var m := Milestones.Table[i];
    var said := Milestones.AnnouncedAsWritten(points, Milestones.Table[..i]);
    Milestones.EvaluationStep(a0, wardId, points, Milestones.Table, i, now);
    AchievementMessagesAppend(wardName, said, m.title);
    if points >= m.threshold {
      assert sent2 == sent0 + (AchievementMessages(wardName, said) + [AchievementMessage(wardName, m.title)]);
    } else {
      assert said + [] == said;
      assert sent2 == sent1;
    }
  }

  /** SELECT points FROM wards WHERE id = ?, scanned into a zero-initialised
      variable: 0 when the ward is missing. */
  function PointsOf(wards: seq<Ward>, wardId: int): int {
    match FindWard(wards, wardId)
    case Some(i) => wards[i].points
    case None => 0
  }

  /** "%s submitted %d points" */
  function SubmittedDetails(name: string, points: int): string {
    name + " submitted " + Decimal.Itoa(points) + " points"
  }

  /** "Approved %d points from %s" */
  function ApprovedDetails(points: int, name: string): string {
    "Approved " + Decimal.Itoa(points) + " points from " + name
  }

  // ---- deciding an approve or reject ---------------------------------------------------

  /** The checks approve and reject make before changing anything, in their order:
      a session user, a numeric id, a pending row with that id, and the right to
      act for its ward. On success: the acting user and the row's index. */
  function Decision(users: seq<User>, subs: seq<Submission>, session: Option<string>, idText: string): (r: Result<(int, nat)>)
    ensures UserIdFromSession(session) == 0 ==> r == Err(Unauthorized)
    ensures UserIdFromSession(session) != 0 && Decimal.Atoi(idText).None? ==> r == Err(BadRequest)
    ensures (UserIdFromSession(session) != 0 && Decimal.Atoi(idText).Some? &&
             FindPending(subs, Decimal.Atoi(idText).value).None?) ==> r == Err(NotFound)
    ensures (UserIdFromSession(session) != 0 && Decimal.Atoi(idText).Some? &&
             FindPending(subs, Decimal.Atoi(idText).value).Some? &&
             !CanApproveForWard(users, UserIdFromSession(session), subs[FindPending(subs, Decimal.Atoi(idText).value).value].wardId))
              ==> r == Err(Forbidden)
    ensures r.Ok? ==>
              && r.value.0 == UserIdFromSession(session) != 0
              && r.value.1 < |subs|
              && subs[r.value.1].status == Pending
              && Decimal.Atoi(idText) == Some(subs[r.value.1].id)
              && CanApproveForWard(users, r.value.0, subs[r.value.1].wardId)
  {
    var userId := UserIdFromSession(session);
    if userId == 0 then Err(Unauthorized)
    else
      match Decimal.Atoi(idText)
      case None => Err(BadRequest)
      case Some(id) =>
        match FindPending(subs, id)
        case None => Err(NotFound)
        case Some(i) =>
          if !CanApproveForWard(users, userId, subs[i].wardId) then Err(Forbidden) else Ok((userId, i))
  }

  /** Once decided, a row is no longer pending: a second approve or reject of the
      same id is NotFound and changes nothing. */
  lemma DecidedAgainIsNotFound(users: seq<User>, subs: seq<Submission>, session: Option<string>, idText: string,
                               st: Status, now: int)
    requires forall k :: 0 <= k < |subs| ==> subs[k].id == k + 1
    requires Decision(users, subs, session, idText).Ok? && st != Pending
    ensures var d := Decision(users, subs, session, idText).value;
            Decision(users, subs[d.1 := Decide(subs[d.1], st, d.0, now)], session, idText) == Err(NotFound)
  {
    var d := Decision(users, subs, session, idText).value;
    DecidedIsNotPending(subs, d.1, st, d.0, now);
  }

  // ---- the seed data -----------------------------------------------------------------

  const SeedWardNames: seq<string> := [
    "Fountain Green 1st Ward", "Fountain Green 2nd Ward", "Fountain Green 3rd Ward",
    "Moroni 1st Ward", "Moroni 2nd Ward", "Moroni 3rd Ward", "Sanpitch Ward"
  ]

  const AdminEmail: string := "admin@templepoints.org"

  datatype Sample = Sample(wardId: int, points: int, status: Status)

  const Samples: seq<Sample> := [
    Sample(4, 847, Approved), Sample(2, 765, Approved), Sample(7, 692, Approved),
    Sample(6, 543, Approved), Sample(1, 489, Approved), Sample(5, 412, Approved),
    Sample(3, 387, Approved),
    Sample(4, 50, Pending), Sample(2, 55, Pending), Sample(6, 35, Pending),
    Sample(1, 25, Pending), Sample(3, 55, Pending)
  ]

  datatype SeedAward = SeedAward(wardId: int, kind: string, title: string, icon: string)

  const SeedAwards: seq<SeedAward> := [
    SeedAward(4, "first_500", "First to 500!", "\U{26A1}"),
    SeedAward(4, "week_champion", "Week Champion", "\U{1F3C6}"),
    SeedAward(4, "streak_3", "3 Day Streak!", "\U{1F525}"),
    SeedAward(2, "rising_star", "Rising Star", "\U{2728}"),
    SeedAward(2, "team_player", "Team Player", "\U{1F91D}"),
    SeedAward(7, "consistent", "Consistent", "\U{1F4CA}"),
    SeedAward(6, "getting_started", "Getting Started", "\U{1F31F}"),
    SeedAward(3, "momentum", "Building Momentum!", "\U{1F680}")
  ]

  /** A sample row as inserted: "Demo User", "Initial seed data", approved_at set
      for the approved ones, no approver. */
  function SampleRow(id: int, s: Sample, now: int): Submission {
    Submission(id, s.wardId, "Demo User", s.points, "Initial seed data", s.status,
               None, if s.status == Approved then Some(now) else None, now)
  }

  /** The seven wards, numbered 1..7, all at zero. */
  function SeededWards(now: int): (r: seq<Ward>)
    ensures |r| == |SeedWardNames|
  {
    seq(|SeedWardNames|, i requires 0 <= i < |SeedWardNames| => Ward(i + 1, SeedWardNames[i], 0, 0, now))
  }

  function SeededSubmissions(now: int): (r: seq<Submission>)
    ensures |r| == |Samples|
  {
    seq(|Samples|, i requires 0 <= i < |Samples| => SampleRow(i + 1, Samples[i], now))
  }

  /** The achievement rows after the seed's INSERT OR IGNORE loop over `awards`. */
  function SeededAwards(achs: seq<Achievement>, awards: seq<SeedAward>, now: int): seq<Achievement>
    decreases |awards|
  {
    if awards == [] then achs
    else
      var a := awards[|awards| - 1];
      Milestones.InsertOrIgnore(SeededAwards(achs, awards[..|awards| - 1], now), a.wardId, a.kind, a.title, a.icon, now)
  }

  /** Every sample and every seeded achievement names one of the seven wards. */
  lemma SeedRowsShape()
    ensures forall k :: 0 <= k < |Samples| ==> 1 <= Samples[k].wardId <= |SeedWardNames| && Samples[k].points > 0
    ensures forall j :: 0 <= j < |SeedAwards| ==> 1 <= SeedAwards[j].wardId <= |SeedWardNames|
  {
  }

  lemma SeedWardNamesDistinct()
    ensures forall i, j :: 0 <= i < j < |SeedWardNames| ==> SeedWardNames[i] != SeedWardNames[j]
  {
    assert forall i :: 0 <= i < |SeedWardNames| ==> |SeedWardNames[i]| >= 13;
    assert SeedWardNames[0][15] == '1' && SeedWardNames[1][15] == '2' && SeedWardNames[2][15] == '3';
    assert SeedWardNames[3][7] == '1' && SeedWardNames[4][7] == '2' && SeedWardNames[5][7] == '3';
    assert SeedWardNames[0][0] == 'F' && SeedWardNames[3][0] == 'M' && SeedWardNames[6][0] == 'S';
  }

  /** The first row of each referencing table names an existing ward. */
  lemma FirstRowsReferenceWards(subs: seq<Submission>, achs: seq<Achievement>, logs: seq<ActivityLog>, wards: seq<Ward>, users: seq<User>)
    requires SubmissionsWellFormed(subs, wards, users) && AchievementsWellFormed(achs, wards) && LogsWellFormed(logs, wards, users)
    ensures subs != [] ==> 1 <= subs[0].wardId <= |wards|
    ensures achs != [] ==> 1 <= achs[0].wardId <= |wards|
    ensures logs != [] ==> 1 <= logs[0].wardId <= |wards|
  {
  }

  // ---- the server ------------------------------------------------------------------------

  class Server {
    var wards: seq<Ward>
    var users: seq<User>
    var submissions: seq<Submission>
    var achievements: seq<Achievement>
    var logs: seq<ActivityLog>
    const hub: Hub<Message>

    /** The schema's constraints over all tables. */
    ghost predicate WellFormed()
      reads this
    {
      && WardsWellFormed(wards)
      && UsersWellFormed(users, wards)
      && SubmissionsWellFormed(submissions, wards, users)
      && AchievementsWellFormed(achievements, wards)
      && LogsWellFormed(logs, wards, users)
    }

    ghost predicate Valid()
      reads this, hub
    {
      WellFormed() && Consistent(wards, submissions) && hub.Valid()
    }

    /** NewServer: initDB on an empty database (createTables, then seedData),
        and a hub with no clients. */
    constructor(now: int)
      ensures Valid() && fresh(hub)
      ensures hub.State() == HubState({}, map[], {}) && hub.sent == []
      ensures wards == RecomputeTotals(SeededWards(now), SeededSubmissions(now))
      ensures submissions == SeededSubmissions(now)
      ensures users == [User(1, AdminEmail, Admin, None)]
      ensures achievements == SeededAwards([], SeedAwards, now)
      ensures logs == []
    {
      wards := [];
      users := [];
      submissions := [];
      achievements := [];
      logs := [];
      hub := new Hub();
      new;
      SeedData(now);
    }

    // ---- inserts -------------------------------------------------------------------

    /** INSERT INTO wards (name): a new ward at zero points; a taken name violates
        UNIQUE and inserts nothing. */
    method InsertWard(name: string, now: int) returns (r: Result<int>)
      requires Valid()
      modifies this
      ensures Valid()
      ensures users == old(users) && submissions == old(submissions)
      ensures achievements == old(achievements) && logs == old(logs)
      ensures (exists i :: 0 <= i < |old(wards)| && old(wards)[i].name == name) ==> r == Err(StoreError) && wards == old(wards)
      ensures r.Ok? <==> forall i :: 0 <= i < |old(wards)| ==> old(wards)[i].name != name
      ensures r.Ok? ==> r.value == |old(wards)| + 1 && wards == old(wards) + [Ward(r.value, name, 0, 0, now)]
    {
      if exists i :: 0 <= i < |wards| && wards[i].name == name {
        return Err(StoreError);
      }
      var id := |wards| + 1;
      forall k | 0 <= k < |submissions| ensures submissions[k].wardId != id {
      }
      TotalAbsent(submissions, id, Approved);
      TotalAbsent(submissions, id, Pending);
      wards := wards + [Ward(id, name, 0, 0, now)];
      return Ok(id);
    }

    /** INSERT INTO users (email, password, role): a taken email violates UNIQUE
        and inserts nothing (seedData only logs it). */
    method InsertUser(email: string, role: Role, now: int)
      requires Valid()
      modifies this
      ensures Valid()
      ensures wards == old(wards) && submissions == old(submissions)
      ensures achievements == old(achievements) && logs == old(logs)
      ensures (exists i :: 0 <= i < |old(users)| && old(users)[i].email == email) ==> users == old(users)
      ensures (forall i :: 0 <= i < |old(users)| ==> old(users)[i].email != email) ==>
                users == old(users) + [User(|old(users)| + 1, email, role, None)]
    {
      if exists i :: 0 <= i < |users| && users[i].email == email {
        return;
      }
      users := users + [User(|users| + 1, email, role, None)];
    }

    /** logActivity: INSERT INTO activity_logs; a dangling ward or user reference
        fails the insert, which is only logged. */
    method LogActivity(wardId: int, userId: Option<int>, action: string, details: string, points: int, now: int)
      requires WellFormed()
      modifies this
      ensures WellFormed()
      ensures wards == old(wards) && users == old(users) && submissions == old(submissions)
      ensures achievements == old(achievements)
      ensures FindWard(wards, wardId).Some? && (userId.Some? ==> FindUser(users, userId.value).Some?) ==>
                logs == old(logs) + [ActivityLog(|old(logs)| + 1, wardId, userId, action, details, points, now)]
      ensures !(FindWard(wards, wardId).Some? && (userId.Some? ==> FindUser(users, userId.value).Some?)) ==>
                logs == old(logs)
    {
      if FindWard(wards, wardId).Some? && (userId.Some? ==> FindUser(users, userId.value).Some?) {
        FindWardByPosition(wards, wardId);
        if userId.Some? {
          FindUserByPosition(users, wards, userId.value);
        }
        logs := logs + [ActivityLog(|logs| + 1, wardId, userId, action, details, points, now)];
      }
    }

    // ---- broadcasts ------------------------------------------------------------------
    // `hub.sent` is the history of broadcast messages; each method names the messages
    // it adds, and `Delivered` says the queues took them in that order.

    /** broadcastUpdate: the {type, data} envelope handed to the hub. */
    method BroadcastUpdate(kind: string, data: Payload)
      requires hub.Valid()
      modifies hub
      ensures hub.Valid()
      ensures hub.State() == Broadcasted(old(hub.State()), Envelope(kind, data))
      ensures hub.sent == old(hub.sent) + [Envelope(kind, data)]
    {
      hub.Broadcast(Envelope(kind, data));
    }

    method BroadcastLeaderboardUpdate(now: int)
      requires hub.Valid()
      modifies hub
      ensures hub.Valid()
      ensures hub.sent == old(hub.sent) + [LeaderboardMessage(wards, submissions, achievements, logs, now)]
      ensures Delivered(old(hub.State()), old(hub.sent), hub.State(), hub.sent)
    {
      var entries := Standings.GetLeaderboardEntries(wards, achievements, logs, "verified-desc", now);
      var stats := Standings.GetStats(wards, submissions, now);
      BroadcastUpdate("leaderboard-update", LeaderboardUpdate(entries, stats));
      DeliveredOne(old(hub.State()), old(hub.sent), hub.State(), LeaderboardMessage(wards, submissions, achievements, logs, now));
    }

    method BroadcastAchievement(wardId: int, title: string)
      requires hub.Valid()
      modifies hub
      ensures hub.Valid()
      ensures hub.sent == old(hub.sent) + [AchievementMessage(Listing.WardName(wards, wardId), title)]
      ensures Delivered(old(hub.State()), old(hub.sent), hub.State(), hub.sent)
    {
      var name := Listing.WardName(wards, wardId);
      BroadcastUpdate("achievement", AchievementUnlocked(name, title, name + " earned: " + title));
      DeliveredOne(old(hub.State()), old(hub.sent), hub.State(), AchievementMessage(name, title));
    }

    // ---- achievements --------------------------------------------------------------------

    /** One milestone of the table for a ward with `points` verified points: a met
        threshold is inserted with INSERT OR IGNORE and announced, since the insert
        reports no error for an ignored duplicate either. */
    method Evaluate(wardId: int, points: int, m: Milestones.Milestone, now: int)
      requires WellFormed() && hub.Valid()
      requires points >= m.threshold ==> 1 <= wardId <= |wards|
      modifies this, hub
      ensures WellFormed() && hub.Valid()
      ensures wards == old(wards) && users == old(users) && submissions == old(submissions) && logs == old(logs)
      ensures Evaluated(old(achievements), old(hub.sent), achievements, hub.sent, Listing.WardName(wards, wardId), wardId, points, m, now)
      ensures Delivered(old(hub.State()), old(hub.sent), hub.State(), hub.sent)
    {
      DeliveredNone(hub.State(), hub.sent);
      if points >= m.threshold {
        Milestones.InsertKeepsWellFormed(achievements, wards, wardId, m.kind, m.title, m.icon, now);
        achievements := Milestones.InsertOrIgnore(achievements, wardId, m.kind, m.title, m.icon, now);
        BroadcastAchievement(wardId, m.title);
      } else {
        assert hub.sent == old(hub.sent) + [];
      }
    }

    /** checkAndAwardAchievements: each met threshold is inserted with INSERT OR
        IGNORE and announced, including those the ward already held. */
    method CheckAndAwardAchievements(wardId: int, now: int)
      requires WellFormed() && hub.Valid()
      modifies this, hub
      ensures WellFormed() && hub.Valid()
      ensures wards == old(wards) && users == old(users) && submissions == old(submissions) && logs == old(logs)
      ensures achievements == Milestones.Awarded(old(achievements), wardId, PointsOf(wards, wardId), Milestones.Table, now)
      ensures hub.sent == old(hub.sent) +
                AchievementMessages(Listing.WardName(wards, wardId),
                  Milestones.AnnouncedAsWritten(PointsOf(wards, wardId), Milestones.Table))
      ensures Delivered(old(hub.State()), old(hub.sent), hub.State(), hub.sent)
    {
      var points := PointsOf(wards, wardId);
      ghost var a0 := achievements;
      ghost var h0 := hub.State();
      ghost var s0 := hub.sent;
      ghost var name := Listing.WardName(wards, wardId);
      FindWardByPosition(wards, wardId);
      Milestones.TableShape();
      DeliveredNone(h0, s0);
      assert s0 + [] == s0;
      var i := 0;
      while i < |Milestones.Table|
        invariant 0 <= i <= |Milestones.Table|
        invariant WellFormed() && hub.Valid()
        invariant wards == old(wards) && users == old(users) && submissions == old(submissions) && logs == old(logs)
        invariant achievements == Milestones.Awarded(a0, wardId, points, Milestones.Table[..i], now)
        invariant hub.sent == s0 + AchievementMessages(name, Milestones.AnnouncedAsWritten(points, Milestones.Table[..i]))
        invariant Delivered(h0, s0, hub.State(), hub.sent)
      {
        ghost var h1 := hub.State();
        ghost var s1 := hub.sent;
        ghost var a1 := achievements;
        // a met threshold (at least 100) means the ward was found
        assert Milestones.Table[i].threshold >= 100;
        Evaluate(wardId, points, Milestones.Table[i], now);
        EvaluationAdvances(a0, wardId, points, name, i, now, s0, a1, s1, achievements, hub.sent);
        DeliveredTrans(h0, s0, h1, s1, hub.State(), hub.sent);
        i := i + 1;
      }
      assert Milestones.Table[..i] == Milestones.Table;
    }

    // ---- the submission handlers ------------------------------------------------------

    /** INSERT INTO point_submissions of a pending row, then the UPDATE that
        recomputes the ward's pending points from the ledger. */
    method Record(s: Submission)
      requires Valid() && s.id == |submissions| + 1 && 1 <= s.wardId <= |wards|
      requires s.points > 0 && s.status == Pending && s.approvedBy.None? && s.approvedAt.None?
      modifies this
      ensures Valid()
      ensures submissions == old(submissions) + [s]
      ensures wards == RecomputePending(old(wards), submissions, s.wardId)
      ensures wards[s.wardId - 1].pendingPoints == old(wards)[s.wardId - 1].pendingPoints + s.points
      ensures wards[s.wardId - 1].pendingPoints == Total(submissions, s.wardId, Pending)
      ensures users == old(users) && achievements == old(achievements) && logs == old(logs)
    {
      SubmitKeepsConsistent(wards, submissions, s);
      RecomputeIsIncrement(wards, submissions, s, s.wardId - 1);
      submissions := submissions + [s];
      wards := RecomputePending(wards, submissions, s.wardId);
    }

    /** handleSubmitPoints, under the JSON decoding: validation, the insert of a
        pending row, the full recompute of the ward's pending points, the activity
        row and the leaderboard broadcast. */
    method Submit(wardId: int, submitterName: string, points: int, note: string, now: int) returns (r: Result<int>)
      requires Valid()
      modifies this, hub
      ensures Valid()
      ensures wardId == 0 || submitterName == "" || points <= 0 ==> r == Err(BadRequest)
      ensures !(wardId == 0 || submitterName == "" || points <= 0) ==>
                (r.Ok? <==> 1 <= wardId <= |old(wards)|) && (r.Err? ==> r == Err(StoreError))
      ensures r.Err? ==> unchanged(this) && unchanged(hub)
      ensures r.Ok? ==> r.value == |old(submissions)| + 1
      ensures r.Ok? ==> submissions == old(submissions) + [Submission(r.value, wardId, submitterName, points, note, Pending, None, None, now)]
      ensures r.Ok? ==> wards == RecomputePending(old(wards), submissions, wardId)
      ensures r.Ok? ==> wards[wardId - 1].pendingPoints == old(wards)[wardId - 1].pendingPoints + points
      ensures r.Ok? ==> wards[wardId - 1].pendingPoints == Total(submissions, wardId, Pending)
      ensures r.Ok? ==> users == old(users) && achievements == old(achievements)
      ensures r.Ok? ==> logs == old(logs) + [ActivityLog(|old(logs)| + 1, wardId, None, "points_submitted",
                                                         SubmittedDetails(submitterName, points), points, now)]
      ensures r.Ok? ==> hub.sent == old(hub.sent) + [LeaderboardMessage(wards, submissions, achievements, logs, now)]
      ensures r.Ok? ==> Delivered(old(hub.State()), old(hub.sent), hub.State(), hub.sent)
    {
      if wardId == 0 || submitterName == "" || points <= 0 {
        return Err(BadRequest);
      }
      // FOREIGN KEY (ward_id) REFERENCES wards(id)
      FindWardByPosition(wards, wardId);
      if FindWard(wards, wardId).None? {
        return Err(StoreError);
      }
      var id := |submissions| + 1;
      Record(Submission(id, wardId, submitterName, points, note, Pending, None, None, now));
      ghost var w1 := wards;
      ghost var s1 := submissions;
      LogActivity(wardId, None, "points_submitted", SubmittedDetails(submitterName, points), points, now);
      assert wards == w1 && submissions == s1;
      BroadcastLeaderboardUpdate(now);
      assert wards == w1 && submissions == s1;
      return Ok(id);
    }

    /** UPDATE point_submissions SET status, approved_by, approved_at, and the
        matching UPDATE of the ward's counters: approve moves the amount from
        pending to verified points, reject drops it from pending. The approver
        is an existing user, as approved_by REFERENCES users(id) demands. */
    method Settle(i: nat, userId: int, st: Status, now: int)
      requires Valid() && i < |submissions| && submissions[i].status == Pending && st != Pending
      requires 1 <= userId <= |users|
      modifies this
      ensures Valid()
      ensures submissions == old(submissions)[i := Decide(old(submissions)[i], st, userId, now)]
      ensures st == Approved ==> wards == Adjust(old(wards), old(submissions)[i].wardId, old(submissions)[i].points, -old(submissions)[i].points)
      ensures st == Rejected ==> wards == Adjust(old(wards), old(submissions)[i].wardId, 0, -old(submissions)[i].points)
      ensures users == old(users) && achievements == old(achievements) && logs == old(logs)
    {
      var s := submissions[i];
      if st == Approved {
        ApproveKeepsConsistent(wards, submissions, i, userId, now);
      } else {
        RejectKeepsConsistent(wards, submissions, i, userId, now);
      }
      submissions := submissions[i := Decide(s, st, userId, now)];
      wards := Adjust(wards, s.wardId, if st == Approved then s.points else 0, -s.points);
    }

    /** The approve transaction on a pending row the caller may decide: the
        status update, points += p and pending -= p, the achievement evaluation,
        the activity row and the leaderboard broadcast. */
    method ApplyApproval(i: nat, userId: int, now: int)
      requires Valid() && i < |submissions| && submissions[i].status == Pending
      requires 1 <= userId <= |users|
      modifies this, hub
      ensures Valid()
      ensures ApprovedRow(old(wards), old(submissions), old(achievements), old(logs), old(hub.sent),
                          wards, submissions, achievements, logs, hub.sent, i, userId, now)
      ensures users == old(users)
      ensures Delivered(old(hub.State()), old(hub.sent), hub.State(), hub.sent)
    {
      var s := submissions[i];
      Settle(i, userId, Approved, now);
      ghost var credited := wards;
      ghost var settled := submissions;
      ghost var h1 := hub.State();
      ghost var s1 := hub.sent;
      CheckAndAwardAchievements(s.wardId, now);
      assert wards == credited && submissions == settled;
      FindWardByPosition(wards, s.wardId);
      FindUserByPosition(users, wards, userId);
      ghost var h2 := hub.State();
      ghost var s2 := hub.sent;
      LogActivity(s.wardId, Some(userId), "points_approved", ApprovedDetails(s.points, s.submitterName), s.points, now);
      assert wards == credited && submissions == settled && hub.State() == h2 && hub.sent == s2;
      BroadcastLeaderboardUpdate(now);
      assert wards == credited && submissions == settled;
      DeliveredTrans(h1, s1, h2, s2, hub.State(), hub.sent);
    }

    /** handleApprovePoints: the checks of `Decision`, then the approve
        transaction on row `row` by user `actor`. */
    method Approve(session: Option<string>, idText: string, now: int) returns (r: Result<()>, ghost actor: int, ghost row: nat)
      requires Valid()
      modifies this, hub
      ensures Valid()
      ensures r.Ok? <==> Decision(old(users), old(submissions), session, idText).Ok?
      ensures r.Err? ==> r.failure == Decision(old(users), old(submissions), session, idText).failure
      ensures r.Err? ==> unchanged(this) && unchanged(hub)
      ensures r.Ok? ==> Decision(old(users), old(submissions), session, idText) == Ok((actor, row))
      ensures r.Ok? ==> ApprovedRow(old(wards), old(submissions), old(achievements), old(logs), old(hub.sent),
                                    wards, submissions, achievements, logs, hub.sent, row, actor, now)
      ensures r.Ok? ==> users == old(users)
      ensures r.Ok? ==> Delivered(old(hub.State()), old(hub.sent), hub.State(), hub.sent)
    {
      var d := Decision(users, submissions, session, idText);
      if d.Err? {
        return Err(d.failure), 0, 0;
      }
      actor, row := d.value.0, d.value.1;
      // only an existing user can be allowed to act
      CanApproveForWardByRow(users, wards, d.value.0, submissions[d.value.1].wardId);
      ApplyApproval(d.value.1, d.value.0, now);
      return Ok(()), actor, row;
    }

    /** The reject transaction: the status update, pending -= p and the
        leaderboard broadcast; no activity row. */
    method ApplyRejection(i: nat, userId: int, now: int)
      requires Valid() && i < |submissions| && submissions[i].status == Pending
      requires 1 <= userId <= |users|
      modifies this, hub
      ensures Valid()
      ensures RejectedRow(old(wards), old(submissions), wards, submissions, i, userId, now)
      ensures users == old(users) && achievements == old(achievements) && logs == old(logs)
      ensures hub.sent == old(hub.sent) + [LeaderboardMessage(wards, submissions, achievements, logs, now)]
      ensures Delivered(old(hub.State()), old(hub.sent), hub.State(), hub.sent)
    {
      Settle(i, userId, Rejected, now);
      ghost var w1 := wards;
      ghost var s1 := submissions;
      BroadcastLeaderboardUpdate(now);
      assert wards == w1 && submissions == s1;
    }

    /** handleRejectPoints: the checks of `Decision`, then the reject
        transaction on row `row`. */
    method Reject(session: Option<string>, idText: string, now: int) returns (r: Result<()>, ghost actor: int, ghost row: nat)
      requires Valid()
      modifies this, hub
      ensures Valid()
      ensures r.Ok? <==> Decision(old(users), old(submissions), session, idText).Ok?
      ensures r.Err? ==> r.failure == Decision(old(users), old(submissions), session, idText).failure
      ensures r.Err? ==> unchanged(this) && unchanged(hub)
      ensures r.Ok? ==> Decision(old(users), old(submissions), session, idText) == Ok((actor, row))
      ensures r.Ok? ==> RejectedRow(old(wards), old(submissions), wards, submissions, row, actor, now)
      ensures r.Ok? ==> users == old(users) && achievements == old(achievements) && logs == old(logs)
      ensures r.Ok? ==> hub.sent == old(hub.sent) + [LeaderboardMessage(wards, submissions, achievements, logs, now)]
      ensures r.Ok? ==> Delivered(old(hub.State()), old(hub.sent), hub.State(), hub.sent)
    {
      var d := Decision(users, submissions, session, idText);
      if d.Err? {
        return Err(d.failure), 0, 0;
      }
      actor, row := d.value.0, d.value.1;
      // only an existing user can be allowed to act
      CanApproveForWardByRow(users, wards, d.value.0, submissions[d.value.1].wardId);
      ApplyRejection(d.value.1, d.value.0, now);
      return Ok(()), actor, row;
    }

    /** handleGetLeaderboard: the board under the requested order ("verified-desc"
        when none is given) and the stats. */
    method GetLeaderboard(sortBy: string, now: int) returns (entries: seq<Standings.Entry>, stats: Standings.Stats)
      ensures entries == Standings.Board(wards, achievements, logs, Standings.ParseSortKey(sortBy), now)
      ensures sortBy == "" ==> entries == Standings.Board(wards, achievements, logs, Standings.VerifiedDesc, now)
      ensures stats == Standings.GetStats(wards, submissions, now)
    {
      var key := if sortBy == "" then "verified-desc" else sortBy;
      entries := Standings.GetLeaderboardEntries(wards, achievements, logs, key, now);
      stats := Standings.GetStats(wards, submissions, now);
    }

    // ---- seeding --------------------------------------------------------------------------

    /** seedData's first loop: the seven wards, each name inserted once. */
    method SeedWards(now: int)
      requires Valid() && wards == [] && submissions == [] && achievements == [] && logs == []
      modifies this
      ensures Valid()
      ensures wards == SeededWards(now)
      ensures users == old(users) && submissions == [] && achievements == [] && logs == []
    {
      SeedWardNamesDistinct();
      var i := 0;
      while i < |SeedWardNames|
        invariant 0 <= i <= |SeedWardNames|
        invariant Valid()
        invariant wards == SeededWards(now)[..i]
        invariant users == old(users) && submissions == [] && achievements == [] && logs == []
      {
        var r := InsertWard(SeedWardNames[i], now);
        assert SeededWards(now)[..i + 1] == SeededWards(now)[..i] + [Ward(i + 1, SeedWardNames[i], 0, 0, now)];
        i := i + 1;
      }
      assert SeededWards(now)[..i] == SeededWards(now);
    }

    /** seedData's sample loop: every sample names an existing ward, so every
        insert succeeds. The counters are left for the recompute that follows. */
    method SeedSamples(now: int)
      requires WellFormed() && wards == SeededWards(now) && submissions == []
      modifies this
      ensures WellFormed()
      ensures submissions == SeededSubmissions(now)
      ensures wards == old(wards) && users == old(users) && achievements == old(achievements) && logs == old(logs)
    {
      // FOREIGN KEY (ward_id) REFERENCES wards(id): every sample's ward exists
      SeedRowsShape();
      var k := 0;
      while k < |Samples|
        invariant 0 <= k <= |Samples|
        invariant WellFormed()
        invariant submissions == SeededSubmissions(now)[..k]
        invariant wards == old(wards) && users == old(users) && achievements == old(achievements) && logs == old(logs)
      {
        var sample := Samples[k];
        FindWardByPosition(wards, sample.wardId);
        if FindWard(wards, sample.wardId).Some? {
          submissions := submissions + [SampleRow(|submissions| + 1, sample, now)];
        }
        assert SeededSubmissions(now)[..k + 1] == SeededSubmissions(now)[..k] + [SampleRow(k + 1, sample, now)];
        k := k + 1;
      }
      assert SeededSubmissions(now)[..k] == SeededSubmissions(now);
    }

    /** seedData's last loop: INSERT OR IGNORE of the sample achievements. */
    method SeedAchievements(now: int)
      requires Valid() && |wards| == |SeedWardNames| && achievements == []
      modifies this
      ensures Valid()
      ensures achievements == SeededAwards([], SeedAwards, now)
      ensures wards == old(wards) && users == old(users) && submissions == old(submissions) && logs == old(logs)
    {
      SeedRowsShape();
      var j := 0;
      while j < |SeedAwards|
        invariant 0 <= j <= |SeedAwards|
        invariant WellFormed()
        invariant achievements == SeededAwards([], SeedAwards[..j], now)
        invariant wards == old(wards) && users == old(users) && submissions == old(submissions) && logs == old(logs)
      {
        var a := SeedAwards[j];
        assert SeedAwards[..j + 1][..j] == SeedAwards[..j];
        Milestones.InsertKeepsWellFormed(achievements, wards, a.wardId, a.kind, a.title, a.icon, now);
        achievements := Milestones.InsertOrIgnore(achievements, a.wardId, a.kind, a.title, a.icon, now);
        j := j + 1;
      }
      assert SeedAwards[..j] == SeedAwards;
    }

    /** seedData after the wards and the admin user: the sample submissions, the
        recompute of every ward's totals and the sample achievements. */
    method SeedLedger(now: int)
      requires Valid() && wards == SeededWards(now) && submissions == [] && achievements == []
      modifies this
      ensures Valid()
      ensures wards == RecomputeTotals(SeededWards(now), SeededSubmissions(now))
      ensures submissions == SeededSubmissions(now)
      ensures achievements == SeededAwards([], SeedAwards, now)
      ensures users == old(users) && logs == old(logs)
    {
      SeedSamples(now);
      // the single UPDATE that sets both counters from the ledger
      wards := RecomputeTotals(wards, submissions);
      ghost var w1, s1 := wards, submissions;
      SeedAchievements(now);
      assert wards == w1 && submissions == s1;
    }

    /** seedData: nothing when a ward exists; otherwise the seven wards, the admin
        user (skipped when the email is taken), the sample submissions, the
        recompute of every ward's totals and the sample achievements. */
    method SeedData(now: int)
      requires Valid()
      modifies this
      ensures Valid()
      ensures old(wards) != [] ==> unchanged(this)
      ensures old(wards) == [] ==> wards == RecomputeTotals(SeededWards(now), SeededSubmissions(now))
      ensures old(wards) == [] ==> submissions == SeededSubmissions(now)
      ensures old(wards) == [] ==> achievements == SeededAwards([], SeedAwards, now)
      ensures old(wards) == [] ==> logs == old(logs)
      ensures old(wards) == [] && (exists i :: 0 <= i < |old(users)| && old(users)[i].email == AdminEmail) ==>
                users == old(users)
      ensures old(wards) == [] && (forall i :: 0 <= i < |old(users)| ==> old(users)[i].email != AdminEmail) ==>
                users == old(users) + [User(|old(users)| + 1, AdminEmail, Admin, None)]
    {
      if |wards| > 0 {
        return;
      }
      // no ward: every row that references one is absent too
      FirstRowsReferenceWards(submissions, achievements, logs, wards, users);
      SeedWards(now);
      InsertUser(AdminEmail, Admin, now);
      SeedLedger(now);
    }
  }
}
