/**
 The values of pkg/datasource/schedule.go: a Schedule as the datasource hands it
 out, a row of the Schedule table, a row of the ReportContent table, and the
 table transformations that the UPDATE and DELETE statements perform.
 */
module Schedules {
  import opened Sql

  /**
   A row of the ReportContent table. Only its `scheduleID` column is fixed by
   the code modelled; `panel` stands for the row's other columns.
   */
  datatype ReportContent = ReportContent(scheduleID: string, panel: string)

  /** A report schedule as the datasource returns it, with its panel details. */
  datatype Schedule = Schedule(
    id: string,
    interval: int,
    nextReportTime: int,
    name: string,
    description: string,
    lookback: string,
    reportGroupID: string,
    time: string,
    day: int,
    panelDetails: seq<ReportContent>,
    dateFormat: string,
    datePosition: string)

  /** The ten columns of a Schedule row after `id`, in the table's column order. */
  datatype Columns = Columns(
    interval: int,
    nextReportTime: int,
    name: string,
    description: string,
    lookback: string,
    reportGroupID: string,
    time: string,
    day: int,
    dateFormat: string,
    datePosition: string)

  /**
   A row of the Schedule table. SQLite keeps any value in any column, so a row
   may hold a value (a NULL, a text in an integer column) that `rows.Scan`
   cannot convert to the Go field type; `scannable` says that it holds none.
   */
  datatype ScheduleRow = ScheduleRow(id: string, cols: Columns, scannable: bool)

  /** NewSchedule: every argument goes to the field of the same name, and the panel details start empty. */
  function NewSchedule(
    id: string, interval: int, nextReportTime: int, name: string, description: string,
    lookback: string, reportGroupID: string, time: string, day: int,
    dateFormat: string, datePosition: string): (s: Schedule)
    ensures s.id == id && s.interval == interval && s.nextReportTime == nextReportTime
    ensures s.name == name && s.description == description && s.lookback == lookback
    ensures s.reportGroupID == reportGroupID && s.time == time && s.day == day
    ensures s.dateFormat == dateFormat && s.datePosition == datePosition
    ensures s.panelDetails == []
  {
    Schedule(id, interval, nextReportTime, name, description, lookback, reportGroupID,
             time, day, [], dateFormat, datePosition)
  }

  /** The values the UPDATE statement writes from a schedule: every column but `id`. */
  function ColumnsOf(s: Schedule): Columns
  {
    Columns(s.interval, s.nextReportTime, s.name, s.description, s.lookback,
            s.reportGroupID, s.time, s.day, s.dateFormat, s.datePosition)
  }

  /** The schedule that scanning a row and attaching its panel details builds. */
  function Load(row: ScheduleRow, panels: seq<ReportContent>): (s: Schedule)
    ensures s.id == row.id && ColumnsOf(s) == row.cols && s.panelDetails == panels
  {
    var c := row.cols;
    Schedule(row.id, c.interval, c.nextReportTime, c.name, c.description, c.lookback,
             c.reportGroupID, c.time, c.day, panels, c.dateFormat, c.datePosition)
  }

  /** The schedule OverdueSchedules builds from a row, through NewSchedule. */
  function Unpanelled(row: ScheduleRow): (s: Schedule)
    ensures s == Load(row, [])
  {
    var c := row.cols;
    NewSchedule(row.id, c.interval, c.nextReportTime, c.name, c.description, c.lookback,
                c.reportGroupID, c.time, c.day, c.dateFormat, c.datePosition)
  }

  /**
   A row after the UPDATE statement wrote `s` into it: the identifier stays, the
   other columns hold well-typed values, and reading the row back gives `s`
   under the row's identifier.
   */
  function Overwrite(row: ScheduleRow, s: Schedule): (r: ScheduleRow)
    ensures r.id == row.id && r.scannable
    ensures Load(r, s.panelDetails) == s.(id := row.id)
  {
    row.(cols := ColumnsOf(s), scannable := true)
  }

  /** `UPDATE Schedule SET <every column but id> WHERE id = ?`, one row at a time. */
  function UpdateRows(rows: seq<ScheduleRow>, id: string, s: Schedule): seq<ScheduleRow>
  {
    if rows == [] then []
    else [if rows[0].id == id then Overwrite(rows[0], s) else rows[0]] + UpdateRows(rows[1..], id, s)
  }

  /** The conditions of the WHERE clauses of schedule.go. */
  function IdIs(id: string): ScheduleRow -> bool
  {
    (row: ScheduleRow) => row.id == id
  }

  function IdIsNot(id: string): ScheduleRow -> bool
  {
    (row: ScheduleRow) => row.id != id
  }

  function ContentNotFor(id: string): ReportContent -> bool
  {
    (c: ReportContent) => c.scheduleID != id
  }

  /** `strftime("%s", "now") > nextReportTime`, with the current epoch second `now`. */
  function DueBefore(now: int): ScheduleRow -> bool
  {
    (row: ScheduleRow) => now > row.cols.nextReportTime
  }

  /** A row scans, and the report-content lookup for its identifier succeeds. */
  predicate Loadable(row: ScheduleRow, panelsOf: string -> Result<seq<ReportContent>>)
  {
    row.scannable && panelsOf(row.id).Ok?
  }

  /** The error reading a row that is not Loadable reports: the scan is tried first. */
  function LoadError(row: ScheduleRow): Error
  {
    if row.scannable then PanelDetailsFailed else ScanFailed
  }

  /**
   An update touches only the rows with the given identifier: it keeps the
   number and order of rows and every identifier, writes the columns of `s`
   into each row with `id`, and leaves every other row as it was.
   */
  lemma {:induction false} UpdateRowsAt(rows: seq<ScheduleRow>, id: string, s: Schedule)
    ensures |UpdateRows(rows, id, s)| == |rows|
    ensures forall k :: 0 <= k < |rows| ==> UpdateRows(rows, id, s)[k].id == rows[k].id
    ensures forall k :: 0 <= k < |rows| && rows[k].id != id ==> UpdateRows(rows, id, s)[k] == rows[k]
    ensures forall k :: 0 <= k < |rows| && rows[k].id == id ==>
              UpdateRows(rows, id, s)[k] == Overwrite(rows[k], s)
  {
    if rows != [] {
      UpdateRowsAt(rows[1..], id, s);
      var u := UpdateRows(rows, id, s);
      assert forall k :: 1 <= k < |rows| ==> u[k] == UpdateRows(rows[1..], id, s)[k - 1];
    }
  }

  /** An update of an identifier no row has leaves the table as it was. */
  lemma {:induction false} UpdateRowsAbsent(rows: seq<ScheduleRow>, id: string, s: Schedule)
    requires forall k :: 0 <= k < |rows| ==> rows[k].id != id
    ensures UpdateRows(rows, id, s) == rows
  {
    UpdateRowsAt(rows, id, s);
  }

  /** Writing the same schedule twice has the effect of writing it once. */
  lemma {:induction false} UpdateRowsIdempotent(rows: seq<ScheduleRow>, id: string, s: Schedule)
    ensures UpdateRows(UpdateRows(rows, id, s), id, s) == UpdateRows(rows, id, s)
  {
    var once := UpdateRows(rows, id, s);
    UpdateRowsAt(rows, id, s);
    UpdateRowsAt(once, id, s);
  }

  /**
   Deleting by identifier removes every row with that identifier and keeps each
   other row exactly as often as it was there; deleting an absent identifier
   changes nothing.
   */
  lemma {:induction false} DeleteRowsEffect(rows: seq<ScheduleRow>, id: string)
    ensures forall row :: row in Where(rows, IdIsNot(id)) ==> row.id != id
    ensures forall row: ScheduleRow :: row.id != id ==> multiset(Where(rows, IdIsNot(id)))[row] == multiset(rows)[row]
    ensures (forall k :: 0 <= k < |rows| ==> rows[k].id != id) ==> Where(rows, IdIsNot(id)) == rows
  {
    WhereMembers(rows, IdIsNot(id));
    forall row: ScheduleRow | row.id != id
      ensures multiset(Where(rows, IdIsNot(id)))[row] == multiset(rows)[row]
    {
      WhereCount(rows, IdIsNot(id), row);
    }
    WhereAllOrNone(rows, IdIsNot(id));
  }

  /** The cascade removes every panel association of the schedule and keeps all others. */
  lemma {:induction false} DeleteContentEffect(contents: seq<ReportContent>, id: string)
    ensures forall c :: c in Where(contents, ContentNotFor(id)) ==> c.scheduleID != id
    ensures forall c: ReportContent :: c.scheduleID != id ==>
              multiset(Where(contents, ContentNotFor(id)))[c] == multiset(contents)[c]
    ensures (forall k :: 0 <= k < |contents| ==> contents[k].scheduleID != id) ==>
              Where(contents, ContentNotFor(id)) == contents
  {
    WhereMembers(contents, ContentNotFor(id));
    forall c: ReportContent | c.scheduleID != id
      ensures multiset(Where(contents, ContentNotFor(id)))[c] == multiset(contents)[c]
    {
      WhereCount(contents, ContentNotFor(id), c);
    }
    WhereAllOrNone(contents, ContentNotFor(id));
  }

  /**
   The overdue rows are exactly the rows whose next report time is strictly
   before `now`; a row due exactly at `now` is not overdue.
   */
  lemma {:induction false} OverdueRowsExact(rows: seq<ScheduleRow>, now: int)
    ensures forall row :: row in Where(rows, DueBefore(now)) ==> row in rows && row.cols.nextReportTime < now
    ensures forall row :: row in rows && row.cols.nextReportTime < now ==> row in Where(rows, DueBefore(now))
    ensures forall row: ScheduleRow :: row.cols.nextReportTime == now ==> row !in Where(rows, DueBefore(now))
  {
    WhereMembers(rows, DueBefore(now));
  }
}
