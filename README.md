# Task tracker: tables, status machine and sweep

A model of the logic in `app.py` of a small Flask to-do tracker. Users
register and log in. Each user owns tasks with a title, a deadline and a status
(`pending`, `completed` or `missed`). Every dashboard view first runs a sweep
that flips overdue pending tasks to `missed`.

Once the Flask and sqlite3 wrapping is removed, each route handler is one SQL
statement on the `users` or `tasks` table. The model states those statements
exactly:

- `sqlite_text.dfy` (module `SqliteText`): the text comparison behind
  `deadline < ?`. This is SQLite's BINARY collation, i.e. character by
  character with a proper prefix ranked first. It is not Dafny's built-in
  string `<`, which means "proper prefix". The module proves that this order
  is a strict total order. It also proves that on `YYYY-MM-DD` strings (what
  `date.isoformat()` returns) it is chronological order.
- `tables.dfy` (module `Tables`): rows and table invariants, plus each
  statement as a function on the rows in rowid order. The functions are the
  sweep, the owner-scoped `complete` and `delete`, the unscoped `recover`, the
  per-user listing, the `GROUP BY status` counts and the stats dictionary.
  Each comes with lemmas about isolation between users, idempotence and what
  stays unchanged.
- `store.dfy` (module `Store`): class `TrackerDb` holds both tables and their
  AUTOINCREMENT counters. Each handler is a method on it, and `Valid()` is the
  PRIMARY KEY, UNIQUE and status-set invariant that every method keeps. The
  sweep is a loop over the rows. The stats dictionary is built by the same
  seeded loop as app.py:101-103.
- `scenarios.dfy` (module `Scenarios`): short request sequences on a fresh
  database, with the expected outcome of each step asserted, and worked
  examples of the sweep and the stats on concrete rows.

Two deliberate behaviours of the source are kept as they are, and stated
rather than fixed:

- `recover` has no owner check, so any logged-in user can reset any user's
  task to `pending`, whatever its status (`RecoverTaskReachesEveryUser`).
- The sweep covers every user's tasks, not only the viewer's
  (`MarkMissedReachesEveryUser`).

Neither status update checks the current status. `recover` also resets a
`completed` task to `pending` (`RecoverTask`), and `complete` also applies to
a `missed` task (`CompleteTask`).

The session user is an explicit `uid` parameter. `today` is a parameter.
The password hash is passed in as a string, and the library's hash check is
passed in as a function `checkPasswordHash`.

## Model

| member | source | states |
|---|---|---|
| `SqliteText.LexLess` | app.py:60 | the BINARY `<` of the sweep's `deadline < ?`: a value is never below itself, and nothing is below the empty text |
| `SqliteText.LexLessMeansFirstDifference` | app.py:60 | the comparison used for `deadline < ?` is lexicographic order: `a < b` exactly when, at the first position where they differ, `a` either ends or has the smaller character |
| `SqliteText.LexLessAsymmetric` | app.py:60 | of two text values at most one is below the other |
| `SqliteText.LexLessTransitive` | app.py:60 | the text order is transitive |
| `SqliteText.LexLessTotal` | app.py:60 | any two text values are equal or ordered one way or the other |
| `SqliteText.LexLessConcat` | app.py:60 | when the leading parts have equal length, they decide the comparison unless they are equal, in which case the rest decides |
| `SqliteText.ProperPrefixIsLexLess` | app.py:60 | every proper prefix is smaller under BINARY order |
| `SqliteText.NumberOrder` | app.py:53 | for digit strings of equal length, the text order is the order of their decimal values, and equal values mean equal strings |
| `SqliteText.IsoDateOrder` | app.py:53-60 | for two `YYYY-MM-DD` dates, `deadline < today` holds exactly when the deadline is the earlier calendar date (year, then month, then day) |
| `SqliteText.YearDigits` | app.py:53 | the year of a `YYYY-MM-DD` date is the decimal value of its first four digits |
| `SqliteText.EmptyTextIsLeast` | app.py:117 | an empty deadline is below every non-empty `today` |
| `Tables.FindUser` | app.py:181-182 | the lookup by username returns nothing exactly when no row has that name; otherwise it returns a row with that name |
| `Tables.FindUserUnique` | app.py:20 | with usernames unique, the row found is the one row with that name |
| `Tables.IsOverdue` | app.py:60 | only a `pending` row is selected; a NULL deadline never is; when the deadline and `today` are `YYYY-MM-DD` dates, a pending row is selected exactly when its deadline is the earlier calendar date |
| `Tables.MarkMissed` | app.py:57-61 | every row that is `pending` with a non-NULL deadline below `today` becomes that row with status `missed`; every other row, of any user, is unchanged |
| `Tables.MarkMissedIdempotent` | app.py:57-61 | a second sweep on the same day changes nothing |
| `Tables.MarkMissedOnlyFlipsPending` | app.py:58-60 | the sweep never changes id, owner, title or deadline; the only status change is `pending` to `missed`, so completed and missed tasks keep their status |
| `Tables.MarkMissedDeadlineEdgeCases` | app.py:30 | for a pending task, an empty-string deadline is marked missed on any day, and a NULL deadline never is |
| `Tables.CompleteTask` | app.py:148-151 | exactly the rows with that id and that owner become `completed`; all other rows are unchanged |
| `Tables.CompleteTaskIdempotent` | app.py:148-151 | completing twice gives the same result as once; when no row both has the id and the owner, or that row is already completed, nothing changes |
| `Tables.CompleteTaskIsolation` | app.py:148-151 | the owner's list changes as if the update ran on that list alone, and every other user's list is unchanged |
| `Tables.RecoverTask` | app.py:136 | every row with that id becomes `pending`, whoever owns it and whatever its status was, including `completed`; all other rows are unchanged |
| `Tables.RecoverTaskReachesEveryUser` | app.py:136 | for every user, not only the caller, that user's list changes by the recover |
| `Tables.DeleteTask` | app.py:164-167 | the table never grows, and it keeps its length exactly when no row has both the id and the owner |
| `Tables.DeleteTaskMembers` | app.py:164-167 | the rows left are exactly the rows that do not match both the id and the owner |
| `Tables.DeleteTaskNoMatch` | app.py:164-167 | when no row has both the id and the owner, the delete is a silent no-op and the table is unchanged |
| `Tables.DeleteTaskRemovesRow` | app.py:164-167 | when the owner deletes a task and no other row has that id, exactly that row is removed and the other rows keep their order |
| `Tables.DeleteTaskKeepsUniqueIds` | app.py:27 | deleting keeps the task ids unique |
| `Tables.DeleteTaskKeepsIdBound` | app.py:27 | when every id is within the AUTOINCREMENT bound, it still is after a delete |
| `Tables.DeleteTaskKeepsStatuses` | app.py:31 | when every status is one of the three, it still is after a delete |
| `Tables.DeleteTaskIsolation` | app.py:164-167 | the owner's list loses the task as if the delete ran on that list alone, and other users' lists are unchanged |
| `Tables.DeletedTaskLeavesList` | app.py:164-167 | after the owner deletes a task, no row with that id remains in the owner's list |
| `Tables.TasksOf` | app.py:83-88 | the list is no longer than the table, and every row in it belongs to the user |
| `Tables.TasksOfMembers` | app.py:83-88 | the dashboard list holds exactly the user's rows |
| `Tables.TasksOfAppend` | app.py:121-124 | a new row appears at the end of its owner's list and in no other user's list |
| `Tables.MarkMissedReachesEveryUser` | app.py:57-61 | each user's list is swept as a whole, whoever views the dashboard |
| `Tables.CountStatus` | app.py:91-96 | a status count is at most the number of rows, and it is positive exactly when some row has that status |
| `Tables.CountsCoverKnownStatuses` | app.py:31 | when every status is one of the three, the three counts sum to the number of rows |
| `Tables.StatusesIn` | app.py:95 | the distinct statuses of the rows, each listed once |
| `Tables.GroupByStatus` | app.py:91-97 | one pair per status present: keys are distinct, each count equals that status's count and is positive, and a key occurs exactly when some row has that status |
| `Tables.StatsFor` | app.py:83-103 | the reference stats map: its keys are the three known statuses plus every status among the user's rows, and each key maps to the number of the user's rows in that status |
| `Tables.StatsDefaultToZero` | app.py:101 | each of `pending`, `completed` and `missed` is always in the stats, and its value is 0 exactly when the user has no task in that status |
| `Tables.StatsSumToListLength` | app.py:83-103 | when all statuses are among the three, the three stats values sum to the length of the user's task list |
| `Store.StatsFromGroups` | app.py:101-103 | the keys are the three seeded statuses plus the grouped keys; a seeded key that is not grouped keeps 0; a grouped key holds the count of its last pair |
| `Store.GroupedStatsMatch` | app.py:91-103 | any map with the keys and values the stats loop promises for the grouped rows equals any map keyed by the known statuses plus the rows' statuses and holding each one's count, which is what `StatsFor` is |
| `Store.TrackerDb.constructor` | app.py:17-34 | new tables are empty, and both AUTOINCREMENT counters start at 1 |
| `Store.TrackerDb.Register` | app.py:197-214 | registration succeeds exactly when the name is new; on success exactly one user with the next id is appended; on failure nothing changes; usernames stay unique |
| `Store.TrackerDb.Login` | app.py:175-190 | returns a user id exactly when a user has that name and the hash check accepts the password; the id returned is that user's |
| `Store.TrackerDb.AddTask` | app.py:115-128 | appends one `pending` row for the session user with the form's title and deadline; its id is above every existing id; the old rows are unchanged |
| `Store.TrackerDb.Complete` | app.py:144-155 | the table becomes `CompleteTask` of the old table, and the invariant is kept |
| `Store.TrackerDb.Recover` | app.py:133-139 | the table becomes `RecoverTask` of the old table, with no owner in the condition, and the invariant is kept |
| `Store.TrackerDb.Delete` | app.py:161-170 | the table becomes `DeleteTask` of the old table, and ids stay unique |
| `Store.TrackerDb.AutoMarkMissed` | app.py:52-64 | the row-by-row sweep leaves the table equal to `MarkMissed` of the old table, and keeps the invariant |
| `Store.TrackerDb.Dashboard` | app.py:76-110 | the sweep runs first; then the rows returned are the user's rows, and the stats map equals the reference `StatsFor` (seeded zeros, then per-status counts of the user's rows) |
| `Scenarios.SweepOnAGivenDay` | app.py:52-61 | on 2026-10-14 the sweep marks a pending task due 2020-01-01 missed, and leaves a pending task due 2999-01-01 and a completed task due 2020-01-01 unchanged |
| `Scenarios.ExampleYears` | app.py:53 | the three example dates are ISO dates of the years 2020, 2026 and 2999 |
| `Scenarios.ExampleDates` | app.py:53-60 | derived from the calendar order: `2020-01-01` is below `2026-10-14` and `2999-01-01` is not; `2020-01-01` is not a prefix of `2026-10-14`, so Dafny's `<` would not relate them |
| `Scenarios.ExampleOwnRows` | app.py:83-88 | listing user 1 from rows of users 1, 2 and 1 keeps the first and the last row, in order |
| `Scenarios.StatsExample` | app.py:91-103 | one pending and one completed task of the user, plus another user's missed task, give `{pending: 1, completed: 1, missed: 0}` |

## Left out

- Flask routing, redirects, `render_template`, the GET branches of login and register, and the home and logout routes. These are presentation only.
- The session and the `login_required` decorator (app.py:43-49). The session user is the `uid` parameter. Setting `session["user_id"]` after login is the returned id.
- sqlite3 connections, cursors, commit and close. Each statement is modelled as one atomic step.
- `init_db` runs DDL. Only its effect is modelled: empty tables, counters at 1, and the constraints in `Valid()`.
- `database.py` is not part of this model. It creates a different `tasks` table in the same `tasks.db`: a `created_at` column, no `DEFAULT 'pending'` on `status`, and nullable `user_id` and `title`. Both scripts use `CREATE TABLE IF NOT EXISTS`, so whichever runs first fixes the schema. The model assumes app.py's own schema (app.py:25-34).
- werkzeug's `generate_password_hash` and `check_password_hash` are foreign calls. The hash is a string parameter, and the check is a function parameter.
- `date.today()` reads the clock. `today` is a parameter, and `IsoDateOrder` assumes it is in the `YYYY-MM-DD` form that `isoformat()` produces.
- Concurrency between requests (last write wins) is out of scope. The model is sequential.
- The foreign key `user_id REFERENCES users(id)` is not in `Valid()`. SQLite does not enforce foreign keys unless `PRAGMA foreign_keys` is on, and app.py never turns it on.
- The listing in `Store.TrackerDb.Dashboard` returns whole rows, `user_id` included, where the SELECT projects four columns. Order is rowid order, which SQLite does not guarantee without ORDER BY.
- `Tables.GroupByStatus` lists groups in first-occurrence order. SQLite gives no order for GROUP BY, and the stats dictionary does not depend on the order.
- Ids are unbounded integers. SQLite's 64-bit rowid limit (SQLITE_FULL at the maximum) is not modelled.
- `Store.TrackerDb.AddTask` returns the new id, which the route itself discards. This makes it easy to state.
- The plain-text replies "Invalid credentials" and "Username already exists" are the `None` and `false` results.
- Text comparison is over Unicode code points (Dafny `char`). For valid strings this orders the same way as memcmp over UTF-8 bytes. Invalid UTF-8 is not modelled.
