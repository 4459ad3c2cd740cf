/** The leaderboard and the summary statistics of handlers.go: the sort-key
    dispatch of getLeaderboardEntries (handlers.go:57-70), the ranked entries
    built by its loop (handlers.go:78-111) with the achievement labels of
    getWardAchievements (handlers.go:114-132) and the streak of calculateStreak
    (handlers.go:134-145), and getStats (handlers.go:147-181). The ORDER BY of
    the query is a stable sort here, so ties keep rowid (ward id) order. */
module Standings {
  import opened Wrappers
  import opened Schema
  import opened Ledger
  import Milestones

  // ---- sort keys -----------------------------------------------------------

  datatype SortKey = VerifiedDesc | VerifiedAsc | TotalDesc | TotalAsc | WardAsc | WardDesc

  function SortKeyName(k: SortKey): string {
    match k
    case VerifiedDesc => "verified-desc"
    case VerifiedAsc => "verified-asc"
    case TotalDesc => "total-desc"
    case TotalAsc => "total-asc"
    case WardAsc => "ward-asc"
    case WardDesc => "ward-desc"
  }

  /** The switch on the sort parameter: the five named orders, and points
      descending for anything else, the empty parameter included. */
  function ParseSortKey(s: string): (k: SortKey)
    ensures k != VerifiedDesc ==> SortKeyName(k) == s
    ensures (forall k' :: SortKeyName(k') != s) ==> k == VerifiedDesc
  {
    if s == "verified-asc" then VerifiedAsc
    else if s == "total-desc" then TotalDesc
    else if s == "total-asc" then TotalAsc
    else if s == "ward-asc" then WardAsc
    else if s == "ward-desc" then WardDesc
    else VerifiedDesc
  }

  /** Every key's own name selects it. */
  lemma ParseSortKeyName(k: SortKey)
    ensures ParseSortKey(SortKeyName(k)) == k
  {
  }

  /** SQLite's BINARY collation on names: lexicographic by character. */
  predicate LexLe(a: string, b: string)
    decreases |a|
  {
    a == [] || (b != [] && (a[0] < b[0] || (a[0] == b[0] && LexLe(a[1..], b[1..]))))
  }

  lemma {:induction false} LexLeTotal(a: string, b: string)
    ensures LexLe(a, b) || LexLe(b, a)
    decreases |a|
  {
    if a != [] && b != [] && a[0] == b[0] {
      LexLeTotal(a[1..], b[1..]);
    }
  }

  lemma {:induction false} LexLeTransitive(a: string, b: string, c: string)
    requires LexLe(a, b) && LexLe(b, c)
    ensures LexLe(a, c)
    decreases |a|
  {
    if a != [] && a[0] == b[0] && b[0] == c[0] {
      LexLeTransitive(a[1..], b[1..], c[1..]);
    }
  }

  /** `a` may be listed before `b` under key `k`. */
  predicate Before(k: SortKey, a: Ward, b: Ward) {
    match k
    case VerifiedDesc => a.points >= b.points
    case VerifiedAsc => a.points <= b.points
    case TotalDesc => a.points + a.pendingPoints >= b.points + b.pendingPoints
    case TotalAsc => a.points + a.pendingPoints <= b.points + b.pendingPoints
    case WardAsc => LexLe(a.name, b.name)
    case WardDesc => LexLe(b.name, a.name)
  }

  lemma BeforeTotal(k: SortKey, a: Ward, b: Ward)
    ensures Before(k, a, b) || Before(k, b, a)
  {
    LexLeTotal(a.name, b.name);
  }

  lemma BeforeTransitive(k: SortKey, a: Ward, b: Ward, c: Ward)
    requires Before(k, a, b) && Before(k, b, c)
    ensures Before(k, a, c)
  {
    if k == WardAsc {
      LexLeTransitive(a.name, b.name, c.name);
    } else if k == WardDesc {
      LexLeTransitive(c.name, b.name, a.name);
    }
  }

  ghost predicate SortedBy(k: SortKey, s: seq<Ward>) {
    forall i, j :: 0 <= i < j < |s| ==> Before(k, s[i], s[j])
  }

  /** `x` may precede every row of a sorted sequence it may precede the head of. */
  lemma BeforeHeadBeforeAll(k: SortKey, x: Ward, s: seq<Ward>)
    requires SortedBy(k, s) && s != [] && Before(k, x, s[0])
    ensures SortedBy(k, [x] + s)
  {
    forall j | 0 < j < |s| ensures Before(k, x, s[j]) {
      BeforeTransitive(k, x, s[0], s[j]);
    }
  }

  /** A sorted sequence stays sorted under a head that may precede all of it. */
  lemma ConsSorted(k: SortKey, y: Ward, rest: seq<Ward>)
    requires SortedBy(k, rest)
    requires forall e :: e in multiset(rest) ==> Before(k, y, e)
    ensures SortedBy(k, [y] + rest)
  {
    forall i, j | 0 <= i < j < |[y] + rest| ensures Before(k, ([y] + rest)[i], ([y] + rest)[j]) {
      if i == 0 {
        assert rest[j - 1] in multiset(rest);
      }
    }
  }

  lemma HeadBeforeInserted(k: SortKey, x: Ward, s: seq<Ward>, rest: seq<Ward>)
    requires SortedBy(k, s) && s != [] && Before(k, s[0], x)
    requires multiset(rest) == multiset(s[1..]) + multiset{x}
    ensures forall e :: e in multiset(rest) ==> Before(k, s[0], e)
  {
    forall e | e in multiset(rest) ensures Before(k, s[0], e) {
      if e != x {
        assert e in multiset(s[1..]);
        var m :| 0 <= m < |s| - 1 && s[1..][m] == e;
        assert s[m + 1] == e;
      }
    }
  }

  /** Insert `x` in front of the first row it may precede (stable). */
  function Insert(k: SortKey, x: Ward, s: seq<Ward>): (r: seq<Ward>)
    requires SortedBy(k, s)
    ensures SortedBy(k, r)
    ensures multiset(r) == multiset(s) + multiset{x}
    decreases |s|
  {
    if s == [] then [x]
    else if Before(k, x, s[0]) then
      BeforeHeadBeforeAll(k, x, s);
      [x] + s
    else
      assert SortedBy(k, s[1..]);
      var rest := Insert(k, x, s[1..]);
      BeforeTotal(k, x, s[0]);
      HeadBeforeInserted(k, x, s, rest);
      ConsSorted(k, s[0], rest);
      assert s == [s[0]] + s[1..];
      [s[0]] + rest
  }

  /** The ORDER BY of getLeaderboardEntries: a stable insertion sort. */
  function Sort(k: SortKey, s: seq<Ward>): (r: seq<Ward>)
    ensures SortedBy(k, r)
    ensures multiset(r) == multiset(s)
    decreases |s|
  {
    if s == [] then []
    else
      assert s == [s[0]] + s[1..];
      Insert(k, s[0], Sort(k, s[1..]))
  }

  // ---- progress ---------------------------------------------------------------

  /** ROUND(CAST(points AS FLOAT) / 1300 * 100, 1) in tenths of a percent: the
      integer nearest to points * 1000 / 1300 (never a tie, since 20 * points is
      even and 13 is odd), rounded half away from zero as SQLite's ROUND does. */
  function Progress(points: int): (tenths: int)
    ensures -13 < 26 * tenths - 20 * points < 13
    ensures points >= 0 ==> tenths >= 0
    ensures 0 <= points <= Milestones.Goal ==> tenths <= 1000
  {
    if points >= 0 then (20 * points + 13) / 26 else -((20 * -points + 13) / 26)
  }

  /** verified = 650 of the 1300 goal is 50.0 %. */
  lemma ProgressAtHalfGoal()
    ensures Progress(650) == 500 && Progress(Milestones.Goal) == 1000 && Progress(0) == 0
  {
  }

  // ---- streak -------------------------------------------------------------------

  const Day: int := 86400
  const Week: int := 7 * Day

  /** DATE(created_at) of the ward's activity rows at or after datetime('now', '-7 days'). */
  function ActiveDays(logs: seq<ActivityLog>, wardId: int, now: int): set<int> {
    set l | l in logs && l.wardId == wardId && l.createdAt >= now - Week :: l.createdAt / Day
  }

  /** calculateStreak: COUNT(DISTINCT DATE(created_at)) over the trailing week. */
  function Streak(logs: seq<ActivityLog>, wardId: int, now: int): nat {
    |ActiveDays(logs, wardId, now)|
  }

  /** The ward has an activity row inside the trailing week dated on `day`. */
  predicate ActiveOn(logs: seq<ActivityLog>, wardId: int, now: int, day: int) {
    exists i :: 0 <= i < |logs| && logs[i].wardId == wardId && logs[i].createdAt >= now - Week && logs[i].createdAt / Day == day
  }

  lemma ActiveDaysAppend(logs: seq<ActivityLog>, l: ActivityLog, wardId: int, now: int)
    ensures ActiveDays(logs + [l], wardId, now) ==
              ActiveDays(logs, wardId, now) + (if l.wardId == wardId && l.createdAt >= now - Week then {l.createdAt / Day} else {})
  {
    forall x | x in logs + [l] ensures x in logs || x == l { }
  }

  lemma ActiveDaysAreActive(logs: seq<ActivityLog>, wardId: int, now: int, day: int)
    ensures day in ActiveDays(logs, wardId, now) <==> ActiveOn(logs, wardId, now, day)
  {
    if day in ActiveDays(logs, wardId, now) {
      var l :| l in logs && l.wardId == wardId && l.createdAt >= now - Week && day == l.createdAt / Day;
      var i :| 0 <= i < |logs| && logs[i] == l;
    }
    if ActiveOn(logs, wardId, now, day) {
      var i :| 0 <= i < |logs| && logs[i].wardId == wardId && logs[i].createdAt >= now - Week && logs[i].createdAt / Day == day;
      assert logs[i] in logs;
    }
  }

  /** No activity, no streak. */
  lemma StreakEmpty(wardId: int, now: int)
    ensures Streak([], wardId, now) == 0
  {
    assert ActiveDays([], wardId, now) == {};
  }

  /** One more activity row raises the ward's streak by one exactly when it is the
      ward's, inside the trailing week, and on a day with no earlier such row:
      another ward's row, an older row or a second row on an active day changes
      nothing. */
  lemma StreakAppend(logs: seq<ActivityLog>, l: ActivityLog, wardId: int, now: int)
    ensures Streak(logs + [l], wardId, now) ==
              Streak(logs, wardId, now) +
              (if l.wardId == wardId && l.createdAt >= now - Week && !ActiveOn(logs, wardId, now, l.createdAt / Day)
               then 1 else 0)
  {
    ActiveDaysAppend(logs, l, wardId, now);
    ActiveDaysAreActive(logs, wardId, now, l.createdAt / Day);
  }

  /** A set of integers inside a range of n consecutive values has at most n elements. */
  lemma {:induction false} BoundedSetSize(s: set<int>, lo: int, n: nat)
    requires forall d :: d in s ==> lo <= d < lo + n
    ensures |s| <= n
    decreases n
  {
    if n > 0 {
      var s' := s - {lo + n - 1};
      BoundedSetSize(s', lo, n - 1);
    } else {
      assert forall d :: d !in s;
      assert s == {};
    }
  }

  /** A trailing window of seven days touches at most eight calendar dates, so no
      streak exceeds 8 while no activity row is dated in the future. */
  lemma StreakAtMostEight(logs: seq<ActivityLog>, wardId: int, now: int)
    requires forall i :: 0 <= i < |logs| ==> logs[i].createdAt <= now
    ensures Streak(logs, wardId, now) <= 8
  {
    var lo := now / Day - 7;
    var days := ActiveDays(logs, wardId, now);
    forall d | d in days ensures lo <= d < lo + 8 {
      var l :| l in logs && l.wardId == wardId && l.createdAt >= now - Week && d == l.createdAt / Day;
      assert (now - Week) / Day == lo;
    }
    BoundedSetSize(days, lo, 8);
  }

  // ---- achievement labels -----------------------------------------------------

  function Label(a: Achievement): string { a.icon + " " + a.title }

  /** SELECT icon || ' ' || title FROM achievements WHERE ward_id = ?, in rowid order. */
  /** The positions of the ward's rows in a table. */
  ghost function WardRows(achs: seq<Achievement>, wardId: int): set<int> {
    set j | 0 <= j < |achs| && achs[j].wardId == wardId
  }

  /** The ward's row positions in a table are those of the table without its last
      row, plus the last position when that row is the ward's. */
  lemma WardRowsStep(achs: seq<Achievement>, wardId: int)
    requires achs != []
    ensures |WardRows(achs, wardId)| ==
            |WardRows(achs[..|achs| - 1], wardId)| + (if achs[|achs| - 1].wardId == wardId then 1 else 0)
  {
    var n := |achs| - 1;
    assert forall j :: 0 <= j < n ==> achs[..n][j] == achs[j];
    assert WardRows(achs, wardId) == WardRows(achs[..n], wardId) + (if achs[n].wardId == wardId then {n} else {});
  }

  function Labels(achs: seq<Achievement>, wardId: int): (r: seq<string>)
    ensures |r| <= |achs|
    ensures |r| == |WardRows(achs, wardId)|
    ensures forall x :: x in r <==> exists j :: 0 <= j < |achs| && achs[j].wardId == wardId && x == Label(achs[j])
    decreases |achs|
  {
    if achs == [] then []
    else
      var n := |achs| - 1;
      var prev := Labels(achs[..n], wardId);
      assert forall j :: 0 <= j < n ==> achs[..n][j] == achs[j];
      WardRowsStep(achs, wardId);
      prev + (if achs[n].wardId == wardId then [Label(achs[n])] else [])
  }

  /** getWardAchievements: the loop that appends one label per row of the ward. */
  method GetWardAchievements(achs: seq<Achievement>, wardId: int) returns (labels: seq<string>)
    ensures labels == Labels(achs, wardId)
  {
    labels := [];
    var i := 0;
    while i < |achs|
      invariant 0 <= i <= |achs|
      invariant labels == Labels(achs[..i], wardId)
    {
      assert achs[..i + 1][..i] == achs[..i];
      if achs[i].wardId == wardId {
        labels := labels + [Label(achs[i])];
      }
      i := i + 1;
    }
    assert achs[..i] == achs;
  }

  // ---- the leaderboard ------------------------------------------------------------

  datatype Entry = Entry(
    rank: int, wardId: int, wardName: string, points: int, pendingPoints: int,
    totalPoints: int, progress: int, achievements: seq<string>, streak: nat)

  /** The entry order under key `k`, read off the entries' own columns. */
  predicate EntryBefore(k: SortKey, a: Entry, b: Entry) {
    match k
    case VerifiedDesc => a.points >= b.points
    case VerifiedAsc => a.points <= b.points
    case TotalDesc => a.totalPoints >= b.totalPoints
    case TotalAsc => a.totalPoints <= b.totalPoints
    case WardAsc => LexLe(a.wardName, b.wardName)
    case WardDesc => LexLe(b.wardName, a.wardName)
  }

  function EntryFor(w: Ward, rank: int, achs: seq<Achievement>, logs: seq<ActivityLog>, now: int): Entry {
    Entry(rank, w.id, w.name, w.points, w.pendingPoints, w.points + w.pendingPoints,
          Progress(w.points), Labels(achs, w.id), Streak(logs, w.id, now))
  }

  /** The columns an entry copies from its ward row. */
  function WardKeys(ws: seq<Ward>): (r: seq<(int, string, int, int)>)
    ensures |r| == |ws|
  {
    seq(|ws|, i requires 0 <= i < |ws| => (ws[i].id, ws[i].name, ws[i].points, ws[i].pendingPoints))
  }

  function EntryKeys(es: seq<Entry>): (r: seq<(int, string, int, int)>)
    ensures |r| == |es|
  {
    seq(|es|, i requires 0 <= i < |es| => (es[i].wardId, es[i].wardName, es[i].points, es[i].pendingPoints))
  }

  function WardKey(w: Ward): (int, string, int, int) {
    (w.id, w.name, w.points, w.pendingPoints)
  }

  /** Taking row `m` out of a table takes one copy of it, and one copy of its key. */
  lemma RemoveAt(b: seq<Ward>, m: nat)
    requires m < |b|
    ensures multiset(b[..m] + b[m + 1..]) == multiset(b) - multiset{b[m]}
    ensures multiset(WardKeys(b)) == multiset(WardKeys(b[..m] + b[m + 1..])) + multiset{WardKey(b[m])}
  {
    var b' := b[..m] + b[m + 1..];
    assert b == b[..m] + [b[m]] + b[m + 1..];
    assert WardKeys(b) == WardKeys(b[..m]) + [WardKey(b[m])] + WardKeys(b[m + 1..]);
    assert WardKeys(b') == WardKeys(b[..m]) + WardKeys(b[m + 1..]);
  }

  /** The keys of a table are its first row's key and the keys of the rest. */
  lemma WardKeysHead(a: seq<Ward>)
    requires a != []
    ensures multiset(a) == multiset(a[1..]) + multiset{a[0]}
    ensures multiset(WardKeys(a)) == multiset(WardKeys(a[1..])) + multiset{WardKey(a[0])}
  {
    assert a == [a[0]] + a[1..];
    assert WardKeys(a) == [WardKey(a[0])] + WardKeys(a[1..]);
  }

  lemma Occurrence(b: seq<Ward>, x: Ward) returns (m: nat)
    requires x in multiset(b)
    ensures m < |b| && b[m] == x
  {
    assert x in b;
    m :| 0 <= m < |b| && b[m] == x;
  }

  /** Reordering the rows reorders their keys. */
  lemma {:induction false} WardKeysPermutation(a: seq<Ward>, b: seq<Ward>)
    requires multiset(a) == multiset(b)
    ensures multiset(WardKeys(a)) == multiset(WardKeys(b))
    decreases |a|
  {
    if a == [] {
      assert |multiset(b)| == 0;
    } else {
      WardKeysHead(a);
      var m := Occurrence(b, a[0]);
      var b' := b[..m] + b[m + 1..];
      RemoveAt(b, m);
      WardKeysPermutation(a[1..], b');
    }
  }

  /** The entries for `rows` in order, ranked by position. */
  function Entries(rows: seq<Ward>, achs: seq<Achievement>, logs: seq<ActivityLog>, now: int): (r: seq<Entry>)
    ensures |r| == |rows|
    ensures forall i :: 0 <= i < |rows| ==> r[i] == EntryFor(rows[i], i + 1, achs, logs, now)
  {
    seq(|rows|, i requires 0 <= i < |rows| => EntryFor(rows[i], i + 1, achs, logs, now))
  }

  /** Each entry copies its row's key columns. */
  lemma EntriesKeys(rows: seq<Ward>, achs: seq<Achievement>, logs: seq<ActivityLog>, now: int)
    ensures EntryKeys(Entries(rows, achs, logs, now)) == WardKeys(rows)
  {
  }

  /** Entries of rows sorted by `k` are in the order `k` names for entries. */
  lemma EntriesOrdered(k: SortKey, rows: seq<Ward>, achs: seq<Achievement>, logs: seq<ActivityLog>, now: int)
    requires SortedBy(k, rows)
    ensures forall i, j :: 0 <= i < j < |rows| ==>
              EntryBefore(k, Entries(rows, achs, logs, now)[i], Entries(rows, achs, logs, now)[j])
  {
    var r := Entries(rows, achs, logs, now);
    forall i, j | 0 <= i < j < |rows| ensures EntryBefore(k, r[i], r[j]) {
      assert Before(k, rows[i], rows[j]);
    }
  }

  /** A sort keeps the number of rows. */
  lemma SortLength(k: SortKey, wards: seq<Ward>)
    ensures |Sort(k, wards)| == |wards|
  {
    assert |multiset(Sort(k, wards))| == |multiset(wards)|;
  }

  /** The leaderboard under key `k`: one entry per ward, ranked 1.. by output
      position, ordered by `k`, each with total = points + pending. */
  function Board(wards: seq<Ward>, achs: seq<Achievement>, logs: seq<ActivityLog>, k: SortKey, now: int): (r: seq<Entry>)
    ensures |r| == |wards|
    ensures multiset(EntryKeys(r)) == multiset(WardKeys(wards))
    ensures forall i :: 0 <= i < |r| ==>
              && r[i].rank == i + 1
              && r[i].totalPoints == r[i].points + r[i].pendingPoints
              && r[i].progress == Progress(r[i].points)
              && r[i].achievements == Labels(achs, r[i].wardId)
              && r[i].streak == Streak(logs, r[i].wardId, now)
    ensures forall i, j :: 0 <= i < j < |r| ==> EntryBefore(k, r[i], r[j])
  {
    var sorted := Sort(k, wards);
    SortLength(k, wards);
    EntriesKeys(sorted, achs, logs, now);
    WardKeysPermutation(sorted, wards);
    EntriesOrdered(k, sorted, achs, logs, now);
    Entries(sorted, achs, logs, now)
  }

  lemma BoardIsEntries(wards: seq<Ward>, achs: seq<Achievement>, logs: seq<ActivityLog>, k: SortKey, now: int)
    ensures Board(wards, achs, logs, k, now) == Entries(Sort(k, wards), achs, logs, now)
  {
  }

  /** getLeaderboardEntries: rows in key order, rank counted up from 1, labels and
      streak looked up per row. */
  method GetLeaderboardEntries(wards: seq<Ward>, achs: seq<Achievement>, logs: seq<ActivityLog>, sortBy: string, now: int)
    returns (entries: seq<Entry>)
    ensures entries == Board(wards, achs, logs, ParseSortKey(sortBy), now)
  {
    var k := ParseSortKey(sortBy);
    var rows := Sort(k, wards);
    entries := [];
    var rank := 1;
    var i := 0;
    while i < |rows|
      invariant 0 <= i <= |rows| && rank == i + 1
      invariant |entries| == i
      invariant forall m :: 0 <= m < i ==> entries[m] == EntryFor(rows[m], m + 1, achs, logs, now)
    {
      var w := rows[i];
      var labels := GetWardAchievements(achs, w.id);
      var entry := Entry(rank, w.id, w.name, w.points, w.pendingPoints, w.points + w.pendingPoints,
                         Progress(w.points), labels, Streak(logs, w.id, now));
      rank := rank + 1;
      entries := entries + [entry];
      i := i + 1;
    }
    assert entries == Entries(rows, achs, logs, now);
    BoardIsEntries(wards, achs, logs, k, now);
  }

  // ---- statistics ------------------------------------------------------------------

  datatype Stats = Stats(leadingWard: string, totalPoints: int, daysActive: int, participants: nat)

  /** SELECT COALESCE(SUM(points), 0) FROM wards */
  function SumPoints(wards: seq<Ward>): int
    decreases |wards|
  {
    if wards == [] then 0 else SumPoints(wards[..|wards| - 1]) + wards[|wards| - 1].points
  }

  /** SELECT MIN(created_at) FROM point_submissions WHERE status = 'approved' */
  function FirstApproval(subs: seq<Submission>): (r: Option<int>)
    ensures r.None? ==> forall i :: 0 <= i < |subs| ==> subs[i].status != Approved
    ensures r.Some? ==> exists i :: 0 <= i < |subs| && subs[i].status == Approved && subs[i].createdAt == r.value
    ensures r.Some? ==> forall i :: 0 <= i < |subs| && subs[i].status == Approved ==> r.value <= subs[i].createdAt
    decreases |subs|
  {
    if subs == [] then None
    else
      var n := |subs| - 1;
      var prev := FirstApproval(subs[..n]);
      assert forall i :: 0 <= i < n ==> subs[..n][i] == subs[i];
      if subs[n].status != Approved then prev
      else if prev.Some? && prev.value <= subs[n].createdAt then prev
      else Some(subs[n].createdAt)
  }

  /** int(time.Since(first).Hours() / 24): whole days, truncated toward zero. */
  function WholeDays(seconds: int): (d: int)
    ensures seconds >= 0 ==> 0 <= d * Day <= seconds < (d + 1) * Day
    ensures seconds < 0 ==> (d - 1) * Day < seconds <= d * Day <= 0
  {
    if seconds >= 0 then seconds / Day else -((-seconds) / Day)
  }

  /** The submitter names that occur in the table. */
  function Names(subs: seq<Submission>): (r: set<string>)
    ensures |r| <= |subs|
    ensures subs != [] ==> |r| >= 1
    ensures forall x :: x in r <==> exists i :: 0 <= i < |subs| && subs[i].submitterName == x
    decreases |subs|
  {
    if subs == [] then {}
    else
      var n := |subs| - 1;
      assert forall i :: 0 <= i < n ==> subs[..n][i] == subs[i];
      Names(subs[..n]) + {subs[n].submitterName}
  }

  /** Row `i` has the most verified points. */
  predicate Leads(wards: seq<Ward>, i: int)
    requires 0 <= i < |wards|
  {
    forall j :: 0 <= j < |wards| ==> wards[j].points <= wards[i].points
  }

  /** The first row of the points-descending order is a ward with the most points. */
  lemma SortedHeadLeads(wards: seq<Ward>)
    requires wards != []
    ensures |Sort(VerifiedDesc, wards)| == |wards|
    ensures exists i :: 0 <= i < |wards| && wards[i] == Sort(VerifiedDesc, wards)[0] && Leads(wards, i)
  {
    var sorted := Sort(VerifiedDesc, wards);
    SortLength(VerifiedDesc, wards);
    var lead := sorted[0];
    assert lead in multiset(wards) by { assert lead in multiset(sorted); }
    var i :| 0 <= i < |wards| && wards[i] == lead;
    forall j | 0 <= j < |wards| ensures wards[j].points <= lead.points {
      assert wards[j] in multiset(sorted);
      var m :| 0 <= m < |sorted| && sorted[m] == wards[j];
      if m > 0 { assert Before(VerifiedDesc, sorted[0], sorted[m]); }
    }
    assert Leads(wards, i);
  }

  /** SELECT name FROM wards ORDER BY points DESC LIMIT 1 */
  function LeadingWard(wards: seq<Ward>): (name: string)
    requires wards != []
    ensures exists i :: 0 <= i < |wards| && name == wards[i].name && Leads(wards, i)
  {
    SortedHeadLeads(wards);
    Sort(VerifiedDesc, wards)[0].name
  }

  /** The whole days since the first approved submission; 0 when there is none. */
  function DaysActive(subs: seq<Submission>, now: int): (d: int)
    ensures FirstApproval(subs).None? ==> d == 0
    ensures FirstApproval(subs).Some? && FirstApproval(subs).value <= now ==>
              0 <= d * Day <= now - FirstApproval(subs).value < (d + 1) * Day
  {
    match FirstApproval(subs)
    case None => 0
    case Some(t) => WholeDays(now - t)
  }

  /** What the SQLite driver hands to Scan for one result column. */
  datatype DriverValue = NullValue | TextValue(seconds: int) | TimeValue(seconds: int)

  /** SELECT MIN(created_at) ... WHERE status = 'approved'. The driver turns a
      timestamp into a time value only for a column declared DATE, DATETIME or
      TIMESTAMP; MIN(...) is an expression with no declared type, so it arrives
      as text, or as NULL when nothing is approved. */
  function MinApprovedColumn(subs: seq<Submission>): DriverValue {
    match FirstApproval(subs)
    case None => NullValue
    case Some(t) => TextValue(t)
  }

  /** Scan into a time.Time stores only a time value; NULL and text are errors. */
  function ScanTime(v: DriverValue): Option<int> {
    if v.TimeValue? then Some(v.seconds) else None
  }

  /** handlers.go:167-173 with the driver behaviour above: the day count is set
      only when the Scan succeeds. */
  function DaysActiveAsWritten(subs: seq<Submission>, now: int): int {
    match ScanTime(MinApprovedColumn(subs))
    case None => 0
    case Some(t) => WholeDays(now - t)
  }

  /** With that driver the count never leaves 0, while the intended count is the
      whole days since the first approval: one approved row two days old gives 0
      against 2. */
  lemma DaysActiveScanFails(subs: seq<Submission>, now: int)
    ensures DaysActiveAsWritten(subs, now) == 0
    ensures var s := Submission(1, 1, "Demo User", 10, "", Approved, None, Some(0), 0);
            DaysActiveAsWritten([s], 2 * Day) == 0 && DaysActive([s], 2 * Day) == 2
  {
    var s := Submission(1, 1, "Demo User", 10, "", Approved, None, Some(0), 0);
    assert FirstApproval([s]) == Some(0);
  }

  /** getStats. With no ward the leading-ward query finds no row and the handler
      keeps the zero value; otherwise the leading ward is the first row of the
      points-descending order, the day count is 0 when nothing is approved, and
      the participants are the distinct submitter names. */
  function GetStats(wards: seq<Ward>, subs: seq<Submission>, now: int): (st: Stats)
    ensures wards == [] ==> st == Stats("", 0, 0, 0)
    ensures wards != [] ==> exists i :: 0 <= i < |wards| && st.leadingWard == wards[i].name && Leads(wards, i)
    ensures wards != [] ==> st.participants <= |subs| && (subs != [] ==> st.participants >= 1)
    ensures wards != [] ==> st.totalPoints == SumPoints(wards) && st.participants == |Names(subs)|
    ensures wards != [] && FirstApproval(subs).None? ==> st.daysActive == 0
    ensures wards != [] ==> st.daysActive == DaysActive(subs, now)
  {
    if wards == [] then Stats("", 0, 0, 0)
    else
      Stats(LeadingWard(wards), SumPoints(wards), DaysActive(subs, now), |Names(subs)|)
  }

  // ---- the total across wards is the total of the approved ledger -----------------

  /** The approved (or pending) points of all rows whose ward is one of 1..n. */
  function LedgerSum(subs: seq<Submission>, n: int, st: Status): int
    decreases |subs|
  {
    if subs == [] then 0
    else
      var s := subs[|subs| - 1];
      LedgerSum(subs[..|subs| - 1], n, st) + (if 1 <= s.wardId <= n && s.status == st then s.points else 0)
  }

  /** The sum of Total over the ward ids 1..n. */
  function ColumnSum(subs: seq<Submission>, n: nat, st: Status): int
    decreases n
  {
    if n == 0 then 0 else ColumnSum(subs, n - 1, st) + Total(subs, n, st)
  }

  lemma {:induction false} ColumnSumAppend(subs: seq<Submission>, s: Submission, n: nat, st: Status)
    ensures ColumnSum(subs + [s], n, st) ==
              ColumnSum(subs, n, st) + (if 1 <= s.wardId <= n && s.status == st then s.points else 0)
    decreases n
  {
    if n > 0 {
      ColumnSumAppend(subs, s, n - 1, st);
      TotalAppend(subs, s, n, st);
    }
  }

  lemma {:induction false} ColumnSumIsLedgerSum(subs: seq<Submission>, n: nat, st: Status)
    ensures ColumnSum(subs, n, st) == LedgerSum(subs, n, st)
    decreases |subs|
  {
    if subs == [] {
      ColumnSumEmpty(n, st);
    } else {
      var k := |subs| - 1;
      assert subs == subs[..k] + [subs[k]];
      ColumnSumIsLedgerSum(subs[..k], n, st);
      ColumnSumAppend(subs[..k], subs[k], n, st);
    }
  }

  lemma {:induction false} ColumnSumEmpty(n: nat, st: Status)
    ensures ColumnSum([], n, st) == 0
    decreases n
  {
    if n > 0 { ColumnSumEmpty(n - 1, st); }
  }

  /** In a consistent store the leaderboard's total points is the sum of every
      approved submission: nothing approved is lost or counted twice. */
  lemma {:induction false} StatsTotalIsApprovedLedger(wards: seq<Ward>, subs: seq<Submission>, users: seq<User>)
    requires WardsWellFormed(wards) && SubmissionsWellFormed(subs, wards, users)
    requires Consistent(wards, subs)
    ensures SumPoints(wards) == LedgerSum(subs, |wards|, Approved)
    decreases |wards|
  {
    WardTotalsAreColumns(wards, subs);
    ColumnSumIsLedgerSum(subs, |wards|, Approved);
  }

  lemma {:induction false} WardTotalsAreColumns(wards: seq<Ward>, subs: seq<Submission>)
    requires forall i :: 0 <= i < |wards| ==> wards[i].id == i + 1
    requires Consistent(wards, subs)
    ensures SumPoints(wards) == ColumnSum(subs, |wards|, Approved)
    decreases |wards|
  {
    if wards != [] {
      var n := |wards| - 1;
      assert forall i :: 0 <= i < n ==> wards[..n][i] == wards[i];
      WardTotalsAreColumns(wards[..n], subs);
    }
  }
}
