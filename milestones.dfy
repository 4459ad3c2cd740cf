/** The achievement evaluator of checkAndAwardAchievements (handlers.go:664-695):
    a fixed ascending table of thresholds tested with >= against a ward's
    verified points, each met threshold inserted with INSERT OR IGNORE, which
    keeps at most one row per (ward, type). */
module Milestones {
  import opened Schema

  /** The competition goal also used by the leaderboard's progress. */
  const Goal: int := 1300

  datatype Milestone = Milestone(threshold: int, kind: string, title: string, icon: string)

  /** The table at handlers.go:676-679. */
  const Table: seq<Milestone> := [
    Milestone(100, "first_100", "First 100 Points!", "\U{1F4AF}"),
    Milestone(500, "first_500", "First to 500!", "\U{26A1}"),
    Milestone(1000, "first_1000", "Thousand Club!", "\U{1F3AF}"),
    Milestone(Goal, "goal_reached", "Goal Achieved!", "\U{1F3C6}")
  ]

  predicate DistinctKinds(ms: seq<Milestone>) {
    forall i, j :: 0 <= i < j < |ms| ==> ms[i].kind != ms[j].kind
  }

  lemma TableShape()
    ensures forall i, j :: 0 <= i < j < |Table| ==> Table[i].threshold < Table[j].threshold
    ensures DistinctKinds(Table)
  {
  }

  /** Some row of `achs` gives `wardId` an achievement of type `kind`. */
  predicate HasKind(achs: seq<Achievement>, wardId: int, kind: string) {
    exists i :: 0 <= i < |achs| && achs[i].wardId == wardId && achs[i].kind == kind
  }

  /** INSERT OR IGNORE INTO achievements (ward_id, type, title, icon): a no-op when
      the (ward, type) pair is already present. A new row is numbered by its
      position; SQLite may give it a larger id after earlier ignored inserts. */
  function InsertOrIgnore(achs: seq<Achievement>, wardId: int, kind: string, title: string, icon: string, now: int): (r: seq<Achievement>)
    ensures achs <= r && |r| <= |achs| + 1
    ensures HasKind(r, wardId, kind)
    ensures HasKind(achs, wardId, kind) ==> r == achs
    ensures !HasKind(achs, wardId, kind) ==> r == achs + [Achievement(|achs| + 1, wardId, kind, title, icon, now)]
    ensures forall w, k :: HasKind(r, w, k) <==> HasKind(achs, w, k) || (w == wardId && k == kind)
    ensures UniquePerWard(achs) ==> UniquePerWard(r)
  {
    if HasKind(achs, wardId, kind) then achs
    else
      var r := achs + [Achievement(|achs| + 1, wardId, kind, title, icon, now)];
      assert r[|achs|].wardId == wardId && r[|achs|].kind == kind;
      assert forall w, k :: HasKind(achs, w, k) ==> HasKind(r, w, k) by {
        forall w, k | HasKind(achs, w, k) ensures HasKind(r, w, k) {
          var i :| 0 <= i < |achs| && achs[i].wardId == w && achs[i].kind == k;
          assert r[i] == achs[i];
        }
      }
      r
  }

  /** The rows after the loop has run over `ms` for a ward with `points` verified points. */
  function Awarded(achs: seq<Achievement>, wardId: int, points: int, ms: seq<Milestone>, now: int): (r: seq<Achievement>)
    ensures achs <= r
    ensures UniquePerWard(achs) ==> UniquePerWard(r)
    decreases |ms|
  {
    if ms == [] then achs
    else
      var prev := Awarded(achs, wardId, points, ms[..|ms| - 1], now);
      var m := ms[|ms| - 1];
      if points >= m.threshold then InsertOrIgnore(prev, wardId, m.kind, m.title, m.icon, now) else prev
  }

  /** One insert keeps the table's ids positional, its ward references valid and
      its (ward, type) pairs unique. */
  lemma InsertKeepsWellFormed(achs: seq<Achievement>, wards: seq<Ward>, wardId: int, kind: string, title: string, icon: string, now: int)
    requires AchievementsWellFormed(achs, wards) && 1 <= wardId <= |wards|
    ensures AchievementsWellFormed(InsertOrIgnore(achs, wardId, kind, title, icon, now), wards)
  {
  }

  /** The evaluation keeps the table's ids positional, its ward references valid
      and its (ward, type) pairs unique. */
  lemma {:induction false} AwardedWellFormed(achs: seq<Achievement>, wards: seq<Ward>, wardId: int, points: int, ms: seq<Milestone>, now: int)
    requires AchievementsWellFormed(achs, wards) && 1 <= wardId <= |wards|
    ensures AchievementsWellFormed(Awarded(achs, wardId, points, ms, now), wards)
    decreases |ms|
  {
    if ms != [] {
      var m := ms[|ms| - 1];
      AwardedWellFormed(achs, wards, wardId, points, ms[..|ms| - 1], now);
      InsertKeepsWellFormed(Awarded(achs, wardId, points, ms[..|ms| - 1], now), wards, wardId, m.kind, m.title, m.icon, now);
    }
  }

  /** One more milestone of the table: the loop's step. */
  lemma EvaluationStep(achs: seq<Achievement>, wardId: int, points: int, ms: seq<Milestone>, i: nat, now: int)
    requires i < |ms|
    ensures var prev := Awarded(achs, wardId, points, ms[..i], now);
            && Awarded(achs, wardId, points, ms[..i + 1], now) ==
                 (if points >= ms[i].threshold then InsertOrIgnore(prev, wardId, ms[i].kind, ms[i].title, ms[i].icon, now) else prev)
            && Announced(achs, wardId, points, ms[..i + 1], now) ==
                 Announced(achs, wardId, points, ms[..i], now) +
                 (if points >= ms[i].threshold && !HasKind(prev, wardId, ms[i].kind) then [ms[i].title] else [])
            && AnnouncedAsWritten(points, ms[..i + 1]) ==
                 AnnouncedAsWritten(points, ms[..i]) + (if points >= ms[i].threshold then [ms[i].title] else [])
  {
    assert ms[..i + 1][..i] == ms[..i];
  }

  /** The titles broadcast by the code as written: err == nil after INSERT OR IGNORE
      holds for an ignored duplicate too, so every met threshold is announced. */
  function AnnouncedAsWritten(points: int, ms: seq<Milestone>): seq<string>
    decreases |ms|
  {
    if ms == [] then []
    else
      AnnouncedAsWritten(points, ms[..|ms| - 1]) +
      (if points >= ms[|ms| - 1].threshold then [ms[|ms| - 1].title] else [])
  }

  /** The code broadcasts a title exactly when the table has a threshold of that
      title which the points meet, however many rows the ward already holds. */
  lemma {:induction false} AnnouncedAsWrittenMet(points: int, ms: seq<Milestone>)
    ensures |AnnouncedAsWritten(points, ms)| <= |ms|
    ensures forall t :: t in AnnouncedAsWritten(points, ms) <==>
              exists i :: 0 <= i < |ms| && ms[i].title == t && points >= ms[i].threshold
    decreases |ms|
  {
    if ms != [] {
      var n := |ms| - 1;
      var pre := ms[..n];
      assert forall i :: 0 <= i < n ==> pre[i] == ms[i];
      AnnouncedAsWrittenMet(points, pre);
    }
  }

  /** The titles the comment at handlers.go:690 means to broadcast: only
      achievements that this evaluation newly inserts. */
  function Announced(achs: seq<Achievement>, wardId: int, points: int, ms: seq<Milestone>, now: int): seq<string>
    decreases |ms|
  {
    if ms == [] then []
    else
      var m := ms[|ms| - 1];
      var prev := Awarded(achs, wardId, points, ms[..|ms| - 1], now);
      Announced(achs, wardId, points, ms[..|ms| - 1], now) +
      (if points >= m.threshold && !HasKind(prev, wardId, m.kind) then [m.title] else [])
  }

  /** After the evaluation a ward holds an achievement type exactly when it already
      did or the table has a met threshold of that type; other wards are untouched. */
  lemma {:induction false} AwardedHasKind(achs: seq<Achievement>, wardId: int, points: int, ms: seq<Milestone>, now: int, w: int, kind: string)
    ensures HasKind(Awarded(achs, wardId, points, ms, now), w, kind) <==>
              HasKind(achs, w, kind) ||
              (w == wardId && exists i :: 0 <= i < |ms| && ms[i].kind == kind && points >= ms[i].threshold)
    decreases |ms|
  {
    if ms != [] {
      var n := |ms| - 1;
      AwardedHasKind(achs, wardId, points, ms[..n], now, w, kind);
      if w == wardId && (exists i :: 0 <= i < n && ms[..n][i].kind == kind && points >= ms[..n][i].threshold) {
        var i :| 0 <= i < n && ms[..n][i].kind == kind && points >= ms[..n][i].threshold;
        assert ms[i] == ms[..n][i];
      }
      if exists i :: 0 <= i < |ms| && ms[i].kind == kind && points >= ms[i].threshold {
        var i :| 0 <= i < |ms| && ms[i].kind == kind && points >= ms[i].threshold;
        if i < n { assert ms[..n][i] == ms[i]; }
      }
    }
  }

  /** When every met type is already held, the evaluation inserts nothing. */
  lemma {:induction false} AwardedNoop(achs: seq<Achievement>, wardId: int, points: int, ms: seq<Milestone>, now: int)
    requires forall i :: 0 <= i < |ms| && points >= ms[i].threshold ==> HasKind(achs, wardId, ms[i].kind)
    ensures Awarded(achs, wardId, points, ms, now) == achs
    ensures Announced(achs, wardId, points, ms, now) == []
    decreases |ms|
  {
    if ms != [] {
      var n := |ms| - 1;
      assert forall i :: 0 <= i < n ==> ms[..n][i] == ms[i];
      AwardedNoop(achs, wardId, points, ms[..n], now);
    }
  }

  /** Evaluating twice with no change of points is the same as evaluating once,
      whatever the clock says the second time. */
  lemma AwardedIdempotent(achs: seq<Achievement>, wardId: int, points: int, ms: seq<Milestone>, now: int, later: int)
    ensures Awarded(Awarded(achs, wardId, points, ms, now), wardId, points, ms, later) == Awarded(achs, wardId, points, ms, now)
    ensures Announced(Awarded(achs, wardId, points, ms, now), wardId, points, ms, later) == []
  {
    var once := Awarded(achs, wardId, points, ms, now);
    forall i | 0 <= i < |ms| && points >= ms[i].threshold
      ensures HasKind(once, wardId, ms[i].kind)
    {
      AwardedHasKind(achs, wardId, points, ms, now, wardId, ms[i].kind);
    }
    AwardedNoop(once, wardId, points, ms, later);
  }

  /** The two announcement rules agree on a ward's first evaluation: with none of
      the table's types held yet, every met threshold is new. */
  lemma {:induction false} AnnouncedFirstTime(achs: seq<Achievement>, wardId: int, points: int, ms: seq<Milestone>, now: int)
    requires DistinctKinds(ms)
    requires forall i :: 0 <= i < |ms| ==> !HasKind(achs, wardId, ms[i].kind)
    ensures Announced(achs, wardId, points, ms, now) == AnnouncedAsWritten(points, ms)
    decreases |ms|
  {
    if ms != [] {
      var n := |ms| - 1;
      var pre := ms[..n];
      assert forall i :: 0 <= i < n ==> pre[i] == ms[i];
      AnnouncedFirstTime(achs, wardId, points, pre, now);
      AwardedHasKind(achs, wardId, points, pre, now, wardId, ms[n].kind);
    }
  }

  /** The as-written rule re-announces: a ward sitting at 100 points that already
      holds first_100 is announced "First 100 Points!" again on every evaluation,
      while the intended rule announces nothing. */
  lemma RepeatEvaluationRebroadcasts(achs: seq<Achievement>, wardId: int, now: int)
    requires HasKind(achs, wardId, "first_100")
    ensures AnnouncedAsWritten(100, Table) == ["First 100 Points!"]
    ensures Announced(achs, wardId, 100, Table, now) == []
  {
    TablePrefixes();
    assert AnnouncedAsWritten(100, Table[..1]) == ["First 100 Points!"];
    assert AnnouncedAsWritten(100, Table[..2]) == ["First 100 Points!"];
    assert AnnouncedAsWritten(100, Table[..3]) == ["First 100 Points!"];
    AwardedNoop(achs, wardId, 100, Table, now);
  }

  /** The end-to-end example: 50 points earn nothing; reaching 100 inserts exactly
      one first_100 row and announces it once. */
  lemma FirstHundred(wardId: int, now: int)
    ensures Awarded([], wardId, 50, Table, now) == []
    ensures Awarded([], wardId, 100, Table, now) == [Achievement(1, wardId, "first_100", "First 100 Points!", "\U{1F4AF}", now)]
    ensures Announced([], wardId, 100, Table, now) == ["First 100 Points!"]
  {
    TablePrefixes();
    var row := Achievement(1, wardId, "first_100", "First 100 Points!", "\U{1F4AF}", now);
    assert Awarded([], wardId, 50, Table[..1], now) == [];
    assert Awarded([], wardId, 50, Table[..2], now) == [];
    assert Awarded([], wardId, 50, Table[..3], now) == [];
    assert Awarded([], wardId, 100, Table[..1], now) == [row];
    assert Awarded([], wardId, 100, Table[..2], now) == [row];
    assert Awarded([], wardId, 100, Table[..3], now) == [row];
    assert AnnouncedAsWritten(100, Table[..1]) == ["First 100 Points!"];
    assert AnnouncedAsWritten(100, Table[..2]) == ["First 100 Points!"];
    assert AnnouncedAsWritten(100, Table[..3]) == ["First 100 Points!"];
    AnnouncedFirstTime([], wardId, 100, Table, now);
  }

  lemma TablePrefixes()
    ensures Table[..3][..|Table[..3]| - 1] == Table[..2]
    ensures Table[..2][..|Table[..2]| - 1] == Table[..1]
    ensures Table[..1][..|Table[..1]| - 1] == Table[..0] == []
    ensures Table[..|Table| - 1] == Table[..3]
  {
  }
}
