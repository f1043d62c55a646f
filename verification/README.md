# mSupply report-email scheduler: the datasource's schedule and membership store

This project models the store behind the report-email scheduler of the mSupply
Grafana plugin (`pkg/datasource`). The store keeps three SQLite tables:

- `Schedule`: one row per recurring report job. Its columns are id, interval,
  nextReportTime, name, description, lookback, reportGroupID, time, day,
  dateFormat and datePosition.
- `ReportContent`: the panels of each schedule, keyed by `scheduleID`.
- `ReportGroupMembership`: which user belongs to which report group.

The class `Datasource.EresDatasource` holds the three tables as sequences of
rows in table order. Each Go operation is a method on it:

- reads: `GetSchedules`, `GetSchedule`, `OverdueSchedules`, `GroupMemberUserIDs`;
- writes: `UpdateSchedule`, `DeleteSchedule`.

The SQL each operation runs is modelled as follows:

- `SELECT ... WHERE` is `Sql.Where`, an order-keeping filter.
- `UPDATE ... WHERE id = ?` is `Schedules.UpdateRows`.
- `DELETE ... WHERE` is `Where` with the negated condition.

The pure constructors `NewSchedule` and `NewReportGroupMembership` are functions.

The environment is passed in as parameters:

- `fault: Sql.Fault` names the one database call that fails, if any: the
  open, the query, the prepare or execute of statement n, or the step of
  `rows.Next()` past the first n rows of a result.
- `panelsOf` is the report-content lookup `GetReportContent`. It may fail.
- `advance` is `Schedule.UpdateNextReportTime`.
- `now` is the wall-clock time in epoch seconds that `strftime("%s", "now")`
  reads.

SQLite stores any value in any column. A row whose stored values `rows.Scan`
cannot convert to the Go field types (a NULL in a string column, a text in an
integer column) carries `scannable = false`.

Modules:

- `Sql` (sql.dfy): results, errors, faults, and `Where` with its lemmas.
- `Schedules` (schedule.dfy): schedule values and rows, and the update and
  delete transformations.
- `Memberships` (report_group_membership.dfy): membership values and rows, and
  the expansion of a group into user identifiers.
- `Datasource` (datasource.dfy): the store class and its operations.

Behaviour of the code worth noting:

- Group members are NOT deduplicated: a user is listed once per membership row.
- A failure to execute the cascade delete of `ReportContent` is not reported;
  a failure to prepare it is.
- `UpdateSchedule` reports success when no row has the identifier.
- No rescheduling rule exists in the code shown; `UpdateNextReportTime` stays a
  parameter.
- No read loop consults `rows.Err()`. When stepping to the next row fails,
  `rows.Next()` just reports the end of the result, so the four reads return
  the rows reached so far with no error. `Sql.Fault.RowsReached` gives how many
  rows that is.

## Model

| member | source | states |
|---|---|---|
| Schedules.NewSchedule | pkg/datasource/schedule.go:12-28 | every argument lands in the field of the same name, and `panelDetails` starts empty |
| Schedules.Load | pkg/datasource/schedule.go:52-77 | the schedule built from a scanned row carries the row's id and columns unchanged and exactly the given panel details |
| Schedules.Unpanelled | pkg/datasource/schedule.go:222-227 | building a schedule from a row through NewSchedule equals reading the row with no panel details |
| Schedules.Overwrite | pkg/datasource/schedule.go:151-158 | a row the UPDATE wrote keeps its id, holds well-typed values, and reads back as the written schedule under the row's id |
| Schedules.UpdateRowsAt | pkg/datasource/schedule.go:151-158 | an update keeps row count, order and every id; it overwrites exactly the rows with the given id and leaves every other row unchanged |
| Schedules.UpdateRowsAbsent | pkg/datasource/schedule.go:151-165 | updating an id no row has leaves the table unchanged |
| Schedules.UpdateRowsIdempotent | pkg/datasource/schedule.go:151-158 | writing the same schedule twice has the same effect as writing it once |
| Schedules.DeleteRowsEffect | pkg/datasource/schedule.go:176-187 | after the delete no row has the id; every other row is kept with its multiplicity; deleting an absent id changes nothing |
| Schedules.DeleteContentEffect | pkg/datasource/schedule.go:189-199 | the cascade removes every ReportContent row of the schedule and keeps every other row with its multiplicity |
| Schedules.OverdueRowsExact | pkg/datasource/schedule.go:212 | a row is overdue exactly when its nextReportTime is strictly before now; a row due exactly at now is excluded |
| Sql.Fault.RowsReached | pkg/datasource/schedule.go:48 | a `for rows.Next()` loop reaches at most the rows of the result, and falls short of them exactly when stepping past row n fails for some n below their number |
| Sql.WhereMembers | pkg/datasource/report_group_membership.go:31 | a SELECT returns a row exactly when the table holds it and it meets the condition |
| Sql.WhereCount | pkg/datasource/schedule.go:176 | a selection keeps each matching row as often as the table holds it, and drops every non-matching row |
| Sql.WhereConcat | pkg/datasource/schedule.go:212 | a selection keeps table order: selecting from two consecutive parts gives the two selections in turn |
| Sql.WhereAllOrNone | pkg/datasource/schedule.go:176 | a selection is never longer than the table; it is the whole table when every row matches, and empty when none does |
| Sql.WhereIdempotent | pkg/datasource/schedule.go:189 | selecting twice with the same condition gives the same rows as selecting once |
| Sql.WhereFirst | pkg/datasource/schedule.go:95-136 | the first row a selection returns is the first row of the table that meets the condition |
| Memberships.NewReportGroupMembership | pkg/datasource/report_group_membership.go:19-21 | the membership's id, userID and reportGroupID are the three arguments |
| Memberships.MemberUserIDsAt | pkg/datasource/report_group_membership.go:31-52 | a group's member list has one entry per selected membership row, the row's userID, in row order |
| Memberships.MemberUserIDsConcat | pkg/datasource/report_group_membership.go:37-52 | the members of two consecutive parts of the table are listed part by part, in order |
| Memberships.MemberUserIDsMultiplicity | pkg/datasource/report_group_membership.go:49-52 | a user appears as many times as there are membership rows putting them in the group (no deduplication) |
| Memberships.MemberUserIDsContains | pkg/datasource/report_group_membership.go:31-52 | a user is listed exactly when some membership row puts them in the group |
| Memberships.MemberUserIDsEmpty | pkg/datasource/report_group_membership.go:37-54 | a group no membership row names expands to the empty list |
| Datasource.EresDatasource.GetSchedules | pkg/datasource/schedule.go:30-82 | a failed open or query, and only that, is a store error. Otherwise it succeeds exactly when every row the loop reaches scans and has panel details. The result then has one schedule per reached row, in row order, each carrying the panel details of its id; the loop reaches every row unless `rows.Next()` fails, which silently shortens the list. On failure, the error is the one the first failing row raises, and no partial list is returned |
| Datasource.EresDatasource.GetSchedule | pkg/datasource/schedule.go:84-141 | a failed open or query, and only that, is a store error. "No schedule found" comes exactly when the loop reaches no row with the id, which it does whenever no row has the id (and, when `rows.Next()` does not fail, only then). It succeeds exactly when it reaches some matching row and every matching row it reaches scans and has panel details; with no `rows.Next()` failure that means some row has the id and every such row loads. The result is the first row with the id, carrying the argument id. Otherwise the error is the first failing matching row's |
| Datasource.EresDatasource.UpdateSchedule | pkg/datasource/schedule.go:143-166 | a failed open, prepare or exec changes nothing and is a store error. Otherwise it returns the advanced schedule and writes its non-id columns into every row with the id. It keeps every id and every other row, leaves ReportContent and memberships unchanged, and succeeds when no row matched |
| Datasource.EresDatasource.DeleteSchedule | pkg/datasource/schedule.go:168-202 | a failure of the first delete is an error and changes nothing. Otherwise every row with the id goes and all other rows stay. The cascade removes the schedule's ReportContent rows unless its prepare or exec fails. A prepare failure is reported; an exec failure is not |
| Datasource.EresDatasource.OverdueSchedules | pkg/datasource/schedule.go:204-231 | a failed open or query, and only that, is a store error. It succeeds exactly when every overdue row the loop reaches scans. It then returns one schedule per reached row with nextReportTime < now, in row order, built by NewSchedule. Every result is strictly overdue and has empty panel details. When `rows.Next()` does not fail, every overdue row is reached and appears. A scan failure is a scan error |
| Datasource.EresDatasource.GroupMemberUserIDs | pkg/datasource/report_group_membership.go:23-55 | a failed open or query, and only that, is a store error. It succeeds exactly when every membership row of the group that the loop reaches scans. It then returns one userID per reached row, in row order, duplicates kept; when `rows.Next()` does not fail, that is the group's whole member list, empty for a group without rows. A scan failure returns an error and no identifiers. The table is only read |
| Datasource.GetScheduleQueryErrorPanics | pkg/datasource/schedule.go:95-100 | as written, a failed query makes GetSchedule panic in the deferred `rows.Close()` instead of returning the error |
| Datasource.DeleteSchedulePrepareErrorPanics | pkg/datasource/schedule.go:176-181 | as written, a failed first Prepare makes DeleteSchedule panic in the deferred `stmt.Close()`; a failed second Prepare is returned |

## Left out

- Connection handling, `sql.Open`/`Close`, `Prepare`, `trace()`, error wrapping (`ereserror`, `errors.Wrap`) and logging are collapsed into one `StoreUnavailable` outcome, chosen by the `fault` parameter.
- `GetReportContent` has no body in the code shown. It is the parameter `panelsOf`, a function that may fail; where it reads its panels from is not part of this model.
- `Schedule.UpdateNextReportTime` has no body in the code shown. It is the parameter `advance` (schedule in, schedule out); no rescheduling rule is assumed.
- `ReportGroupMembershipFields` only returns a fixed description string, so it is not modelled.
- The `ReportContent` table's columns other than `scheduleID` are not known from the code shown. They are one opaque `panel` value.
- The `ReportGroup` type is not part of this model beyond its identifier, which is all the membership query uses.
- Go's 64-bit `int` is modelled as an unbounded integer: no wrap-around.
- SQLite semantics are assumed, not modelled:
  - a `SELECT` without `ORDER BY` returns rows in table order;
  - `strftime("%s", "now") > nextReportTime` compares numerically (the column's integer affinity);
  - `id = ?` is plain string equality;
  - a failed statement changes nothing.
- Table constraints (for example a unique `id`) are not shown, so none is assumed: several rows may share an id.
- Pointers (`*Schedule`, `*ReportGroupMembership`) are modelled as values, so aliasing is not captured. A nil slice for an empty result is modelled as the empty sequence.
- Rows that `OverdueSchedules` and `GroupMemberUserIDs` never close, and the defers that close the other handles, are not modelled, except for the panics listed under Findings.
- Datasource.EresDatasource.UpdateSchedule: a failed `sql.Open` is modelled as a store error. As written, `defer db.Close()` is registered before the error check (pkg/datasource/schedule.go:144-145), so the nil handle would panic instead. In Go, `sql.Open` does not connect to the database and rarely fails, so this is not listed under Findings.
- Datasource.EresDatasource.OverdueSchedules: the same nil `db.Close()` on a failed `sql.Open` (pkg/datasource/schedule.go:205-206) is modelled as a store error. The same holds for GetSchedule (line 87) and DeleteSchedule (line 170).
- Concurrency is not modelled: concurrent access to the database file and the timer that drives the scheduler.
- Not part of this model:
  - backend/pkg/scheduler.go: mail sending over SMTP, comment-only pipeline stubs, and the timer callback;
  - the React components under src/ and frontend/: UI state and HTTP calls.

## Findings

| source | as written | input that shows it | evidently intended | confidence | as-written member | corrected member |
|---|---|---|---|---|---|---|
| pkg/datasource/schedule.go:95-100 | `defer rows.Close()` is registered before the `db.Query` error is checked (the same happens with `defer db.Close()` at line 87). | `db.Query` fails, for example when the `Schedule` table is missing. `rows` is then nil, and the deferred `Close` dereferences it, so the function panics. | log the error and return it | not executed; high (a nil `*sql.Rows` panics in `Close`) | Datasource.GetScheduleQueryErrorPanics | Datasource.EresDatasource.GetSchedule |
| pkg/datasource/schedule.go:176-181 | `defer stmt.Close()` is registered before the first `db.Prepare` error is checked (the same happens with `defer db.Close()` at line 170). | The first `Prepare` fails. `stmt` is then nil, so DeleteSchedule panics instead of returning the error. | log the error and return it, with nothing deleted | not executed; high (a nil `*sql.Stmt` panics in `Close`) | Datasource.DeleteSchedulePrepareErrorPanics | Datasource.EresDatasource.DeleteSchedule |
