# templepoints in Dafny

templepoints is a small competition board for wards. Members submit points for
their ward. An admin, or the approver of that ward, approves or rejects each
submission. A live leaderboard with achievements, streaks and summary statistics
is pushed to every connected browser over a websocket hub.

This project models the core of that server and proves properties of it:

- **The submission ledger.** Each submission goes from `pending` to `approved`
  or `rejected`; both of those are terminal. The ward counters `points` and
  `pending_points` follow that state machine. The invariant kept by every
  operation is: `points` is the sum of the ward's approved submissions, and
  `pending_points` is the sum of its pending ones (`Ledger.Consistent`).
- **The authorisation rule** for approving and rejecting, and the session
  cookie decoding it relies on (`Ledger`, `Decimal`).
- **The achievement evaluator.** A fixed threshold table (100/500/1000/1300) is
  checked with `>=` against a ward's verified points. `INSERT OR IGNORE` keeps
  at most one row per (ward, type) (`Milestones`).
- **The read-only views:**
  - the leaderboard, with its six sort keys, 1-based ranks, progress,
    achievement labels and streaks, and the summary statistics (`Standings`);
  - the role-scoped submissions listing and the per-ward log (`Listing`).
- **The websocket hub.** This is the registry of live clients, each with a
  send queue bounded at 256. Its register, unregister and broadcast cases are
  modelled as sequential state updates (`Broadcast`).
- **The server itself** (`Server`). This is a class whose fields are the
  database tables, held in memory, plus a hub. It has:
  - the submit, approve and reject handlers;
  - the activity log;
  - the leaderboard and achievement broadcasts;
  - the seeding of an empty database.

The database's tables are sequences in rowid order. Nothing is ever deleted, and
wards, users, submissions and activity logs gain rows only through plain INSERTs,
so their AUTOINCREMENT id is the row's 1-based position. Achievements are added
with INSERT OR IGNORE, whose ignored duplicates can use up ids; the model still
numbers them by position (see `Milestones.InsertOrIgnore` under "## Left out"). The schema's CHECK, UNIQUE
and FOREIGN KEY clauses are predicates over the tables (`Schema`), and
`Server.Server.Valid` holds them together with the ledger invariant.

Modelling choices:

- **Time:** every `CURRENT_TIMESTAMP`, `time.Now()` and `datetime('now')` is an
  explicit integer parameter `now`, in seconds.
- **Progress:** it is kept in integer tenths of a percent.
- **Ordering:** every SQL `ORDER BY` is a stable sort, so rows that tie keep
  rowid order.
- **Broadcast history:** the hub keeps a ghost history `sent` of every message
  broadcast. The server's contracts state two things:
  - which messages each handler broadcasts, in order;
  - that the hub's new state is the result of broadcasting exactly those
    messages (`Broadcast.Delivered`).

## Model

| member | source | states |
|---|---|---|
| `Schema.FindWard` | handlers.go:481-490 | the index of the first ward row with the id; `None` exactly when no row has it |
| `Schema.FindUser` | handlers.go:632-638 | a user row with the id; `None` exactly when no row has it |
| `Schema.FindWardByPosition` | database.go:32-38 | with AUTOINCREMENT ids a ward id exists iff `1 <= id <= |wards|`, and it sits at position `id - 1` |
| `Schema.FindUserByPosition` | database.go:40-48 | with AUTOINCREMENT ids a user id exists iff `1 <= id <= |users|`, and the row found is `users[id - 1]` |
| `Decimal.Atoi` | handlers.go:620-623 | a parsed value lies in Go's 64-bit int range; a parse needs a non-empty string starting with a digit or a sign, and a negative value needs a leading `-` |
| `Decimal.Itoa` | handlers.go:233 | `%d` text is non-empty and has digits only, after one `-` for a negative number |
| `Decimal.NatDigitsValue` | handlers.go:233 | reading back the digits that `%d` writes for `n >= 0` gives `n` |
| `Decimal.AtoiItoa` | handlers.go:620 | `Atoi` of the `%d` text of any 64-bit int gives that int back |
| `Ledger.TotalUpdate` | handlers.go:286-291 | replacing one submission changes a ward's status sum by exactly the difference of the old and new row's shares |
| `Ledger.TotalAbsent` | database.go:188-190 | `COALESCE(SUM(points), 0)` is 0 for a ward with no submissions |
| `Ledger.TotalNonNegative` | database.go:187-196 | sums of positive amounts are never negative |
| `Ledger.Adjust` | handlers.go:299-304 | the relative update: the ward with that id gets `points + dPoints` and `pending_points + dPending` and keeps its id, name and creation time; every other row is unchanged |
| `Ledger.RecomputePending` | handlers.go:217-225 | the ward with that id gets `pending_points` equal to the sum of its pending submissions and keeps its points, id, name and creation time; every other row is unchanged |
| `Ledger.RecomputeTotals` | database.go:185-197 | after the seed's UPDATE every ward's points and pending points are the sums over its approved and pending submissions; ids, names and creation times are kept |
| `Ledger.FindPending` | handlers.go:265-269 | the first row with that id that is still pending (no earlier row is a pending row with that id); `None` exactly when no row with that id is pending |
| `Ledger.SubmitKeepsConsistent` | handlers.go:203-225 | inserting a pending row and recomputing its ward's pending sum keeps both ledger sums right for every ward |
| `Ledger.RecomputeIsIncrement` | handlers.go:216-225 | the full recompute leaves the ward's pending points at exactly their old value plus the new amount |
| `Ledger.ApproveKeepsConsistent` | handlers.go:286-304 | approving a pending row and moving its amount from pending to points keeps both ledger sums right |
| `Ledger.RejectKeepsConsistent` | handlers.go:360-377 | rejecting a pending row and subtracting its amount from pending keeps both ledger sums right, points untouched |
| `Ledger.DecidedIsNotPending` | handlers.go:265-278 | once a row is approved or rejected, the pending lookup by its id finds nothing: decided rows are terminal |
| `Ledger.UserIdFromSession` | handlers.go:614-626 | no cookie gives 0; a non-zero id comes only from a cookie whose text `Atoi` reads as that id |
| `Ledger.SessionRoundTrip` | handlers.go:614-626 | a cookie holding the decimal text of an id yields that id |
| `Ledger.CanApproveForWard` | handlers.go:628-651 | false when the user is missing; true for any admin; for a ward approver, true exactly when their ward id is set and equals the target ward |
| `Ledger.CanApproveForWardByRow` | handlers.go:628-651 | over a well-formed user table the same rule in terms of row `userId - 1` |
| `Milestones.TableShape` | handlers.go:676-679 | the four thresholds ascend strictly and their types are distinct |
| `Milestones.InsertOrIgnore` | handlers.go:684-687 | the table only grows, by at most one row; afterwards (ward, type) is present; a duplicate is a no-op; a new pair appends the row with the next positional id, the ward, type, title, icon and time; nothing else gains a row; uniqueness per (ward, type) is kept |
| `Milestones.Awarded` | handlers.go:682-694 | evaluation only appends rows and keeps uniqueness per (ward, type) |
| `Milestones.InsertKeepsWellFormed` | database.go:64-74 | an insert or ignore keeps the achievements table's id, foreign key and UNIQUE constraints |
| `Milestones.AwardedWellFormed` | handlers.go:682-694 | a whole evaluation keeps those constraints |
| `Milestones.EvaluationStep` | handlers.go:683-693 | one more table entry inserts its row iff its threshold is met; the code announces it iff the threshold is met, the intended rule iff it is met and the ward did not hold it yet |
| `Milestones.AnnouncedAsWrittenMet` | handlers.go:682-694 | the code announces a title exactly when one of the table's thresholds with that title is met, at most one title per entry |
| `Milestones.AwardedHasKind` | handlers.go:676-694 | after evaluation a ward holds a type iff it held it before or that type's threshold is met by its points |
| `Milestones.AwardedNoop` | handlers.go:682-694 | when the ward already holds every met type, evaluation changes nothing and announces nothing |
| `Milestones.AwardedIdempotent` | handlers.go:664-695 | evaluating the same points again adds no row and announces nothing |
| `Milestones.AnnouncedFirstTime` | handlers.go:682-694 | for a ward holding none of the types, the new-only announcements equal the code's announcements |
| `Milestones.RepeatEvaluationRebroadcasts` | handlers.go:689-691 | a ward holding first_100 at 100 points: the code re-announces "First 100 Points!" while no new row appears |
| `Milestones.FirstHundred` | handlers.go:676 | 50 points award nothing; 100 points award exactly first_100 and announce it |
| `Standings.ParseSortKey` | handlers.go:57-70 | each of the five named keys maps to its ordering; any other text falls back to points-descending |
| `Standings.ParseSortKeyName` | handlers.go:57-70 | every ordering's key text dispatches back to that ordering |
| `Standings.BeforeTotal` | handlers.go:57-70 | any two wards are comparable under every ordering |
| `Standings.BeforeTransitive` | handlers.go:57-70 | every ordering is transitive |
| `Standings.Insert` | handlers.go:57-70 | inserting into a sorted board keeps it sorted and adds exactly that ward |
| `Standings.Sort` | handlers.go:57-70 | the ordered rows are sorted by the key and a permutation of the wards |
| `Standings.Progress` | handlers.go:53 | progress in tenths of a percent is within half a tenth of `points / 1300 * 100`; non-negative for non-negative points, at most 100% up to the goal |
| `Standings.ProgressAtHalfGoal` | handlers.go:53 | 650 points is 50.0%, 1300 is 100.0%, 0 is 0.0% |
| `Standings.StreakEmpty` | handlers.go:137-143 | no activity rows give a streak of 0 |
| `Standings.StreakAppend` | handlers.go:137-143 | one more activity row raises the ward's streak by one exactly when it is the ward's, dated inside the trailing week and on a day without an earlier such row; another ward's row, an older row or a second row on an active day change nothing |
| `Standings.StreakAtMostEight` | handlers.go:137-142 | with no future log rows the streak is at most 8, the number of calendar days a seven-day window touches |
| `Standings.Labels` | handlers.go:114-132 | the labels are exactly `icon + " " + title` of the ward's achievement rows, one label per row of the ward |
| `Standings.GetWardAchievements` | handlers.go:114-132 | the loop collects exactly `Labels` |
| `Standings.EntriesOrdered` | handlers.go:57-111 | entries built from ordered rows are ordered by the same key |
| `Standings.Board` | handlers.go:45-112 | one entry per ward, a permutation of the wards; rank = 1-based position, total = points + pending, progress, labels and streak of that ward; ordered by the key |
| `Standings.BoardIsEntries` | handlers.go:45-112 | the board is the entries of the sorted wards |
| `Standings.GetLeaderboardEntries` | handlers.go:45-112 | the rank-counting loop produces exactly the board for the parsed key |
| `Standings.FirstApproval` | handlers.go:168-170 | the earliest creation time among approved submissions, `None` when none is approved |
| `Standings.WholeDays` | handlers.go:172 | `int(hours / 24)`: whole days truncated toward zero |
| `Standings.Names` | handlers.go:176-178 | the distinct submitter names; at least one for a non-empty table |
| `Standings.SortedHeadLeads` | handlers.go:151-153 | the first row of the points-descending order is a ward with the most points |
| `Standings.LeadingWard` | handlers.go:151-156 | the leading ward's name belongs to a ward with the most points |
| `Standings.DaysActive` | handlers.go:166-173 | 0 with no approved submission, else the whole days since the first one, as the handler's text computes them |
| `Standings.DaysActiveScanFails` | handlers.go:167-173 | with the driver handing `MIN(created_at)` to Scan as text or NULL, the count as written is always 0; one approved row two days old shows 0 against the intended 2 |
| `Standings.GetStats` | handlers.go:147-181 | with no wards all zero; otherwise the leading ward, the sum of ward points, whole days since the first approval and the number of distinct submitters |
| `Standings.ColumnSumIsLedgerSum` | handlers.go:159-161 | summing per ward and summing over the ledger give the same total |
| `Standings.StatsTotalIsApprovedLedger` | handlers.go:159-161 | under the ledger invariant, total points equal the sum of all approved submissions |
| `Standings.WardTotalsAreColumns` | handlers.go:159-161 | under the ledger invariant, the sum of ward points is the per-ward sum of approved amounts |
| `Listing.InsertByAge` | handlers.go:567 | inserting into a newest-first list keeps it newest first and adds exactly that row |
| `Listing.ByAge` | handlers.go:567 | `ORDER BY created_at DESC` yields a newest-first permutation |
| `Listing.StatusFilter` | handlers.go:539-542 | an empty status parameter means "pending"; any other is used as given |
| `Listing.Matching` | handlers.go:559-582 | exactly the rows of the status (and ward, for an approver) whose ward exists for the JOIN, each as many times as it occurs in the table |
| `Listing.NewestPrefix` | handlers.go:567-568 | the first n of a newest-first order are newest first, matching, and no newer than anything left out |
| `Listing.Listing` | handlers.go:559-586 | at most 50 rows, newest first, each matching and no row more often than it matches; all matches when there are at most 50, else 50, none older than a skipped match |
| `Listing.Scope` | handlers.go:559-586 | admin sees every ward; an approver with a ward sees that ward; anyone else is refused |
| `Listing.GetSubmissions` | handlers.go:532-610 | 401 without a session user, 404 for a missing user, 403 for an approver without a ward, else the listing's rows with their ward names |
| `Listing.ScanRows` | handlers.go:596-606 | one output row per result row, carrying its ward's name |
| `Listing.ApproverSeesOwnWard` | handlers.go:571-582 | an approver's listing holds only their ward's rows |
| `Listing.OfWard` | handlers.go:493-498 | exactly the submissions of the ward, each as many times as it occurs in the table |
| `Listing.WardLog` | handlers.go:474-530 | 404 exactly when the id is not a ward; else the ward's name and counters and its submissions newest first |
| `Broadcast.DeliveredOne` | main.go:81-89 | a one-message delivery is exactly one broadcast |
| `Broadcast.RegisterKeepsInv` | main.go:70-71 | registering an open queue keeps the hub invariant and adds the client |
| `Broadcast.UnregisterKeepsInv` | main.go:74-79 | unregistering removes the client and closes its queue only when it was live; otherwise nothing changes, so no queue is closed twice |
| `Broadcast.BroadcastKeepsInv` | main.go:81-89 | every live client with room gets the message appended; a full client is closed and dropped; queues of others are unchanged; no queue exceeds 256 |
| `Broadcast.BroadcastAllKeepsInv` | main.go:81-89 | any series of broadcasts keeps the hub invariant |
| `Broadcast.ClosedOnlyOnLeaving` | main.go:74-88 | a queue is closed only when its client leaves the live set; registering closes nothing |
| `Broadcast.Hub.constructor` | main.go:43-48 | a hub with no clients and no queues |
| `Broadcast.Hub.NewClient` | main.go:149-153 | a fresh client with an empty open queue; nothing else changes |
| `Broadcast.Hub.Register` | main.go:70-72 | the new state is `Registered`, the invariant kept |
| `Broadcast.Hub.Unregister` | main.go:74-79 | the new state is `Unregistered`, the invariant kept |
| `Broadcast.Hub.Offer` | main.go:83-88 | the non-blocking send to one client: appended when it has room, else closed and dropped |
| `Broadcast.Hub.Broadcast` | main.go:81-89 | the loop over the live clients leaves exactly `Broadcasted`, in any visiting order; the invariant kept |
| `Broadcast.Hub.Receive` | main.go:193-198 | the client's next queued message, or closed once its queue is closed and drained |
| `Server.Decision` | handlers.go:247-284 | the checks in the handler's order: 401 without a session user, 400 for a non-numeric id, 404 without a pending row, 403 without the right for its ward; success names the user and a pending row with that id |
| `Server.DecidedAgainIsNotFound` | handlers.go:265-278 | after a row is decided, deciding the same id again is 404 |
| `Server.SeedWardNamesDistinct` | database.go:112-120 | the seven seed ward names are distinct, as UNIQUE requires |
| `Server.Server.constructor` | main.go:37-65 | a fresh server holds the seeded tables, one admin user, no log rows and a hub with no clients |
| `Server.Server.InsertWard` | database.go:123 | a new ward gets the next id and zero counters; a taken name inserts nothing and fails |
| `Server.Server.InsertUser` | database.go:135-143 | a new email adds the user with the next id; a taken one inserts nothing |
| `Server.Server.LogActivity` | handlers.go:653-662 | a log row with the next id is appended when its ward and user exist; otherwise nothing changes |
| `Server.Server.BroadcastUpdate` | main.go:219-232 | exactly the envelope `{type, data}` is broadcast |
| `Server.Server.BroadcastLeaderboardUpdate` | handlers.go:697-705 | broadcasts the points-descending board and the stats of the current tables |
| `Server.Server.BroadcastAchievement` | handlers.go:707-716 | broadcasts the ward's name, the title and "<ward> earned: <title>" |
| `Server.Server.Evaluate` | handlers.go:683-693 | one table entry: insert or ignore when met, and an achievement message whenever it is met, a duplicate included |
| `Server.Server.CheckAndAwardAchievements` | handlers.go:664-695 | the achievements become `Awarded` for the ward's current points; the title of every met threshold is broadcast in threshold order, including those the ward already held |
| `Server.Server.Record` | handlers.go:203-229 | appends the pending row and recomputes its ward's pending sum, which rises by the amount |
| `Server.Server.Submit` | handlers.go:183-245 | ward 0, an empty name or points <= 0 is 400 with nothing changed; an unknown ward fails with nothing changed; else the pending row with the next id, its ward's pending sum recomputed, a log row and one leaderboard broadcast |
| `Server.Server.Settle` | handlers.go:286-304 | the decided row and its counter update, approve (points + p, pending - p) or reject (pending - p), ledger invariant kept, with the approver an existing user (approved_by REFERENCES users(id)) |
| `Server.Server.ApplyApproval` | handlers.go:286-318 | approve, counters, achievement evaluation with a message for every met threshold, log row, then the leaderboard broadcast, in the handler's order |
| `Server.Server.Approve` | handlers.go:247-325 | fails exactly as `Decision` does, leaving the tables and the hub unchanged; on success the row is approved with approver and time, p moved from pending to points, achievements evaluated with a message for every met threshold, a log row, then a leaderboard broadcast |
| `Server.Server.ApplyRejection` | handlers.go:360-380 | reject, pending - p, then a leaderboard broadcast; no log row or achievement |
| `Server.Server.Reject` | handlers.go:327-387 | fails exactly as `Decision` does, leaving everything unchanged; on success the row is rejected, p leaves pending, points is kept, then a leaderboard broadcast |
| `Server.Server.GetLeaderboard` | handlers.go:16-43 | the board for the requested key, points-descending for an empty one, and the stats |
| `Server.Server.SeedWards` | database.go:111-127 | the seven wards in order with ids 1..7 and zero counters |
| `Server.Server.SeedSamples` | database.go:145-182 | the twelve sample rows, approved ones with an approval time |
| `Server.Server.SeedAchievements` | database.go:202-227 | the eight seed achievements inserted or ignored in order |
| `Server.Server.SeedLedger` | database.go:145-227 | the samples, the totals recomputed from them, and the seed achievements |
| `Server.Server.SeedData` | database.go:99-231 | nothing when a ward exists; otherwise the seven wards, the admin unless its email exists, the samples, totals equal to the ledger sums, and the seed achievements |

## Left out

- `Milestones.InsertOrIgnore`: a new achievement gets the id `|achs| + 1`. SQLite's AUTOINCREMENT can skip ids after an ignored insert, and such inserts happen on every evaluation that meets a threshold already held, so real achievement ids may be larger. Numbering by position is a modelling choice here. No handler reads an achievement's id: the ward query selects only `icon || ' ' || title` (handlers.go:115).
- HTTP routing, JSON request decoding, response encoding and page serving are plumbing (main.go:94-139, handlers.go:389-472). Handlers take their decoded inputs as parameters.
- The websocket connection is not modelled: the upgrade, `readPump`, the writes of `writePump` and the deadlines and ping ticker are network I/O. `Broadcast.Hub.Receive` models only the channel read of `writePump`.
- Goroutines and channel blocking are not modelled. `Hub.run` is a sequence of register, unregister and broadcast steps. A send on the unbuffered register, unregister and broadcast channels is a method call.
- Concurrency between requests is not modelled. The race between the pending lookup and the status update in approve and reject (handlers.go:265 against 287) cannot be expressed, because each handler runs to completion.
- bcrypt hashing, login, logout and the user endpoint are foreign library calls and cookie handling; the stored password is not modelled. The session is given as an optional cookie text.
- `Server.Server.BroadcastUpdate`: the `json.Marshal` failure branch (main.go:225-229) is not modelled. Marshal fails only on a NaN or infinite float or a time outside years 0-9999; the one float, `Progress` (models.go:44), is a rounding of a finite quotient, and the times are database timestamps or the zero `LastActivity` (models.go:47), all of which marshal.
- The clock is a parameter `now` in whole seconds. Timestamp text formats and their comparison in SQLite are not modelled, and `DATE()` is whole-day division by 86400.
- `Standings.Progress`: `ROUND(CAST(points AS FLOAT) / 1300 * 100, 1)` is integer tenths of a percent rounded half away from zero, not a float.
- Database failures the handlers report as 500 are not modelled ("Database error" and "Failed to approve/reject submission", handlers.go:274-276, 293-295, 367-369, 501-504, 589-592), because an in-memory table cannot refuse these statements. The only store failures modelled are a foreign key or UNIQUE violation on insert.
- `Listing.WardLog`: SQLite compares the text id with the integer column under numeric affinity. The model reads the text with Go's `Atoi` rules, so forms such as `" 4"` or `"4.0"` that SQLite would also match are reported as not found.
- Ties in every `ORDER BY` keep rowid order, which is one of the orders SQL allows.
- The ward log returns whole submission rows (`Listing.WardLogView`) rather than the columns its SELECT names. The listing's rows (`Listing.Row`) are exactly its SELECT's columns plus the ward name.
- The achievements `description` column is always NULL and is not modelled. The `LastActivity` field of models.go is not modelled either, since no query of the core fills it.
- Go's 64-bit integer overflow of point sums is not modelled, because sums are unbounded integers. Only the id text parsing keeps the 64-bit range.
- `log.Printf` logging is not modelled.
- `LastInsertId`, index creation and the mechanics of enforcing foreign keys are not modelled.
- `Server.Server.constructor`: NewServer opens a database file that may already hold data, and seedData then returns early (database.go:107-109). The constructor models only the start from an empty file; `Server.Server.SeedData` covers the early exit.
- `Standings.GetStats`: the day count is the whole days the handler's text computes (`Standings.DaysActive`). The second Findings row gives reasons to expect the running server to report 0.
- `Server.Server.Approve` and `Server.Server.Reject` return the acting user and the decided row as ghost results. Their contracts name these results, but the handlers do not return them.
- The server's contracts state broadcasts through the hub's ghost history `sent` and `Broadcast.Delivered`, rather than by spelling out the hub's queues.

## Findings

| source | as written | input that shows it | evidently intended | confidence | as-written member | corrected member |
|---|---|---|---|---|---|---|
| handlers.go:689-691 | every threshold the ward currently meets is broadcast on every evaluation, because `INSERT OR IGNORE` reports no error for a duplicate (ward, type) | a ward already holding first_100 with 100 points is approved for more points that keep it under 500: "First 100 Points!" is broadcast again though no row is inserted | broadcast only an achievement that was newly inserted, as the comment says (`Milestones.Announced`); the server methods model the code as written (`Milestones.AnnouncedAsWritten`) | not executed | `Milestones.RepeatEvaluationRebroadcasts` | `Milestones.AwardedIdempotent` |
| handlers.go:167-173 | `MIN(created_at)` is scanned into a `time.Time`; the SQLite driver converts text to a time only for a column declared DATE, DATETIME or TIMESTAMP, and an aggregate has no declared type, so Scan fails on the text (or on NULL) and `days_active` stays 0 | any database with an approved submission created two days ago: the stats report 0 days | the whole days since the first approval, as the code computes once the Scan succeeds | not executed; depends on the driver's conversion rules | `Standings.DaysActiveScanFails` | `Standings.DaysActive` |
