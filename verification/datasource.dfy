/**
 The mSupply ERES datasource's store: the Schedule, ReportContent and
 ReportGroupMembership tables of its SQLite database, and the operations of
 pkg/datasource/schedule.go and pkg/datasource/report_group_membership.go that
 read and write them. Each table is a sequence of rows in table order.
 */
module Datasource {
  import opened Sql
  import opened Schedules
  import opened Memberships

  /** How a call leaves the Go function: it returns, or a deferred call panics on the way out. */
  datatype Exit = Returns | Panics

  /**
   GetSchedule as written: `defer db.Close()` and `defer rows.Close()` are
   registered before the errors of sql.Open and db.Query are checked. When
   either call fails it hands back a nil handle, and the deferred Close
   dereferences it as the function returns, so the caller sees a panic in place
   of the error. EresDatasource.GetSchedule models the evident intent instead.
   */
  function GetScheduleExitAsWritten(fault: Fault): Exit
  {
    if fault.StopsQuery() then Panics else Returns
  }

  /**
   DeleteSchedule as written: `defer db.Close()` precedes the check of
   sql.Open's error and `defer stmt.Close()` the check of the first Prepare's
   error; either failure leaves a nil handle for the deferred Close.
   EresDatasource.DeleteSchedule models the evident intent instead.
   */
  function DeleteScheduleExitAsWritten(fault: Fault): Exit
  {
    if fault == OpenFails || fault == PrepareFails(1) then Panics else Returns
  }

  /** A failed query makes GetSchedule panic where it means to return the error; a failure-free call returns. */
  lemma GetScheduleQueryErrorPanics()
    ensures GetScheduleExitAsWritten(QueryFails) == Panics
    ensures GetScheduleExitAsWritten(NoFault) == Returns
  {
  }

  /** A failed first Prepare makes DeleteSchedule panic; a failed cascade Prepare is returned as an error. */
  lemma DeleteSchedulePrepareErrorPanics()
    ensures DeleteScheduleExitAsWritten(PrepareFails(1)) == Panics
    ensures DeleteScheduleExitAsWritten(PrepareFails(2)) == Returns
  {
  }

  class EresDatasource {
    var schedules: seq<ScheduleRow>
    var contents: seq<ReportContent>
    var memberships: seq<MembershipRow>

    constructor (schedules: seq<ScheduleRow>, contents: seq<ReportContent>, memberships: seq<MembershipRow>)
      ensures this.schedules == schedules && this.contents == contents && this.memberships == memberships
    {
      this.schedules := schedules;
      this.contents := contents;
      this.memberships := memberships;
    }

    /**
     GetSchedules: one schedule per row of the Schedule table that the
     `for rows.Next()` loop reaches, in table order, each with the panel details
     `panelsOf` (the report-content lookup) gives for its identifier. The loop
     reaches every row unless stepping to the next row fails; `rows.Err()` is
     never consulted, so such a failure silently shortens the list. The first
     row that does not scan, or whose lookup fails, makes the whole call fail,
     with no partial list.
     */
    method GetSchedules(fault: Fault, panelsOf: string -> Result<seq<ReportContent>>)
      returns (r: Result<seq<Schedule>>)
      ensures r == Err(StoreUnavailable) <==> fault.StopsQuery()
      ensures r.Ok? <==>
                (!fault.StopsQuery()
                && (forall k :: 0 <= k < fault.RowsReached(|schedules|) ==> Loadable(schedules[k], panelsOf)))
      ensures r.Ok? ==> |r.value| == fault.RowsReached(|schedules|)
      ensures r.Ok? ==> forall k :: 0 <= k < |r.value| ==>
                r.value[k] == Load(schedules[k], panelsOf(schedules[k].id).value)
      ensures r.Ok? && !fault.NextFails? ==> |r.value| == |schedules|
      ensures r.Err? && !fault.StopsQuery() ==>
                exists k :: 0 <= k < fault.RowsReached(|schedules|) && !Loadable(schedules[k], panelsOf)
                            && (forall j :: 0 <= j < k ==> Loadable(schedules[j], panelsOf))
                            && r.error == LoadError(schedules[k])
    {
      if fault.StopsQuery() {
        return Err(StoreUnavailable);
      }
      var rows := schedules;
      // rows.Next() reports no further row once stepping fails
      var reached := fault.RowsReached(|rows|);
      var loaded: seq<Schedule> := [];
      var i := 0;
      while i < reached
        invariant 0 <= i <= reached && |loaded| == i
        invariant forall k :: 0 <= k < i ==> Loadable(rows[k], panelsOf)
        invariant forall k :: 0 <= k < i ==> loaded[k] == Load(rows[k], panelsOf(rows[k].id).value)
      {
        var row := rows[i];
        if !row.scannable {
          return Err(ScanFailed);
        }
        var panels := panelsOf(row.id);
        if panels.Err? {
          return Err(PanelDetailsFailed);
        }
        loaded := loaded + [Load(row, panels.value)];
        i := i + 1;
      }
      return Ok(loaded);
    }

    /**
     GetSchedule: the first row with identifier `id`, under that identifier, with
     its panel details. Every matching row the loop reaches is scanned and looked
     up, so any one of them failing fails the call; when the loop reaches no
     matching row the result is "no schedule found". The loop reaches every
     matching row unless stepping to the next row fails, which is not reported.
     */
    method GetSchedule(id: string, fault: Fault, panelsOf: string -> Result<seq<ReportContent>>)
      returns (r: Result<Schedule>)
      ensures r == Err(StoreUnavailable) <==> fault.StopsQuery()
      ensures r == Err(NoScheduleFound) <==>
                !fault.StopsQuery() && fault.RowsReached(|Where(schedules, IdIs(id))|) == 0
      ensures !fault.StopsQuery() && (forall k :: 0 <= k < |schedules| ==> schedules[k].id != id) ==>
                r == Err(NoScheduleFound)
      ensures r == Err(NoScheduleFound) && !fault.NextFails? ==>
                forall k :: 0 <= k < |schedules| ==> schedules[k].id != id
      ensures r.Ok? <==>
                (!fault.StopsQuery()
                && fault.RowsReached(|Where(schedules, IdIs(id))|) > 0
                && (forall k :: 0 <= k < fault.RowsReached(|Where(schedules, IdIs(id))|) ==>
                      Loadable(Where(schedules, IdIs(id))[k], panelsOf)))
      ensures !fault.NextFails? ==>
                (r.Ok? <==>
                  (!fault.StopsQuery()
                  && (exists k :: 0 <= k < |schedules| && schedules[k].id == id)
                  && (forall k :: 0 <= k < |schedules| && schedules[k].id == id ==> Loadable(schedules[k], panelsOf))))
      ensures r.Ok? ==> r.value.id == id && panelsOf(id).Ok?
      ensures r.Ok? ==>
                exists k :: 0 <= k < |schedules| && schedules[k].id == id
                            && (forall j :: 0 <= j < k ==> schedules[j].id != id)
                            && r.value == Load(schedules[k], panelsOf(id).value)
      ensures r.Err? && !fault.StopsQuery() && r.error != NoScheduleFound ==>
                exists k :: 0 <= k < fault.RowsReached(|Where(schedules, IdIs(id))|)
                            && !Loadable(Where(schedules, IdIs(id))[k], panelsOf)
                            && (forall j :: 0 <= j < k ==> Loadable(Where(schedules, IdIs(id))[j], panelsOf))
                            && r.error == LoadError(Where(schedules, IdIs(id))[k])
    {
      if fault.StopsQuery() {
        return Err(StoreUnavailable);
      }
      var rows := Where(schedules, IdIs(id));
      WhereMembers(schedules, IdIs(id));
      var reached := fault.RowsReached(|rows|);
      var found: seq<Schedule> := [];
      var i := 0;
      while i < reached
        invariant 0 <= i <= reached && |found| == i
        invariant forall k :: 0 <= k < i ==> Loadable(rows[k], panelsOf)
        invariant forall k :: 0 <= k < i ==> found[k] == Load(rows[k], panelsOf(rows[k].id).value).(id := id)
      {
        var row := rows[i];
        if !row.scannable {
          assert rows[i] in rows;
          assert !Loadable(rows[i], panelsOf) && (forall j :: 0 <= j < i ==> Loadable(rows[j], panelsOf))
                 && LoadError(rows[i]) == ScanFailed;
          return Err(ScanFailed);
        }
        var panels := panelsOf(row.id);
        if panels.Err? {
          assert rows[i] in rows;
          return Err(PanelDetailsFailed);
        }
        // the identifier is taken from the argument, not from the scanned row
        found := found + [Load(row, panels.value).(id := id)];
        i := i + 1;
      }
      if reached == |rows| {
        forall k | 0 <= k < |schedules| && schedules[k].id == id
          ensures Loadable(schedules[k], panelsOf)
        {
          assert schedules[k] in rows;
        }
      }
      if |rows| == 0 {
        forall k | 0 <= k < |schedules|
          ensures schedules[k].id != id
        {
          assert schedules[k] in schedules;
        }
      }
      if |found| > 0 {
        WhereFirst(schedules, IdIs(id));
        assert rows[0] in rows;
        return Ok(found[0]);
      } else {
        return Err(NoScheduleFound);
      }
    }

    /**
     UpdateSchedule: advances `s` with `advance` (Schedule.UpdateNextReportTime),
     then writes the advanced schedule's ten non-identifier fields into every row
     with identifier `id`; the identifier column is never written. Nothing else
     changes. Success is reported whether or not a row matched.
     */
    method UpdateSchedule(id: string, s: Schedule, fault: Fault, advance: Schedule -> Schedule)
      returns (r: Result<Schedule>)
      modifies this
      ensures r.Ok? <==> !fault.StopsStatement(1)
      ensures r.Err? ==> r.error == StoreUnavailable && schedules == old(schedules)
      ensures r.Ok? ==> r.value == advance(s) && schedules == UpdateRows(old(schedules), id, advance(s))
      ensures |schedules| == |old(schedules)|
      ensures forall k :: 0 <= k < |schedules| ==> schedules[k].id == old(schedules)[k].id
      ensures forall k :: 0 <= k < |schedules| && old(schedules)[k].id != id ==> schedules[k] == old(schedules)[k]
      ensures r.Ok? ==> forall k :: 0 <= k < |schedules| && old(schedules)[k].id == id ==>
                schedules[k].scannable && Load(schedules[k], r.value.panelDetails) == r.value.(id := id)
      ensures contents == old(contents) && memberships == old(memberships)
    {
      if fault == OpenFails || fault == PrepareFails(1) {
        return Err(StoreUnavailable);
      }
      var advanced := advance(s);
      if fault == ExecFails(1) {
        // a failed UPDATE statement leaves the table as it was
        return Err(StoreUnavailable);
      }
      UpdateRowsAt(schedules, id, advanced);
      schedules := UpdateRows(schedules, id, advanced);
      return Ok(advanced);
    }

    /**
     DeleteSchedule: deletes every Schedule row with identifier `id`, then every
     ReportContent row of that schedule. A failure of the first statement is
     reported and changes nothing; a failure to prepare the second is reported
     after the schedule rows are gone; a failure to execute the second is not
     reported at all, and the panel associations stay.
     */
    method DeleteSchedule(id: string, fault: Fault) returns (r: Result<()>)
      modifies this
      ensures r.Err? ==> r.error == StoreUnavailable
      ensures fault.StopsStatement(1) ==>
                r.Err? && schedules == old(schedules) && contents == old(contents)
      ensures !fault.StopsStatement(1) ==> schedules == Where(old(schedules), IdIsNot(id))
      ensures !fault.StopsStatement(1) ==> (r.Ok? <==> fault != PrepareFails(2))
      ensures !fault.StopsStatement(1) ==>
                contents == if fault == PrepareFails(2) || fault == ExecFails(2) then old(contents)
                            else Where(old(contents), ContentNotFor(id))
      ensures forall row :: row in schedules ==> row in old(schedules)
      ensures r.Ok? ==> forall row :: row in schedules ==> row.id != id
      ensures forall row :: row in old(schedules) && row.id != id ==> row in schedules
      ensures memberships == old(memberships)
    {
      if fault.StopsStatement(1) {
        return Err(StoreUnavailable);
      }
      WhereMembers(old(schedules), IdIsNot(id));
      schedules := Where(schedules, IdIsNot(id));
      if fault == PrepareFails(2) {
        return Err(StoreUnavailable);
      }
      if fault != ExecFails(2) {
        contents := Where(contents, ContentNotFor(id));
      }
      // the result of the second Exec is discarded
      return Ok(());
    }

    /**
     OverdueSchedules: the rows whose next report time is strictly before `now`,
     in table order, each built by NewSchedule and so without panel details.
     A row that does not scan fails the call. The loop reaches every overdue
     row unless stepping to the next row fails, which is not reported.
     */
    method OverdueSchedules(now: int, fault: Fault) returns (r: Result<seq<Schedule>>)
      ensures r == Err(StoreUnavailable) <==> fault.StopsQuery()
      ensures r.Ok? <==>
                (!fault.StopsQuery()
                && (forall k :: 0 <= k < fault.RowsReached(|Where(schedules, DueBefore(now))|) ==>
                      Where(schedules, DueBefore(now))[k].scannable))
      ensures !fault.NextFails? ==>
                (r.Ok? <==>
                  (!fault.StopsQuery()
                  && (forall k :: 0 <= k < |schedules| && schedules[k].cols.nextReportTime < now ==> schedules[k].scannable)))
      ensures r.Err? && !fault.StopsQuery() ==> r.error == ScanFailed
      ensures r.Ok? ==> |r.value| == fault.RowsReached(|Where(schedules, DueBefore(now))|)
      ensures r.Ok? ==> forall k :: 0 <= k < |r.value| ==> r.value[k] == Unpanelled(Where(schedules, DueBefore(now))[k])
      ensures r.Ok? ==> forall s :: s in r.value ==> s.nextReportTime < now && s.panelDetails == []
      ensures r.Ok? && !fault.NextFails? ==>
                forall row :: row in schedules && row.cols.nextReportTime < now ==> Unpanelled(row) in r.value
    {
      if fault.StopsQuery() {
        return Err(StoreUnavailable);
      }
      var rows := Where(schedules, DueBefore(now));
      WhereMembers(schedules, DueBefore(now));
      var reached := fault.RowsReached(|rows|);
      var due: seq<Schedule> := [];
      var i := 0;
      while i < reached
        invariant 0 <= i <= reached && |due| == i
        invariant forall k :: 0 <= k < i ==> rows[k].scannable && due[k] == Unpanelled(rows[k])
      {
        var row := rows[i];
        if !row.scannable {
          assert rows[i] in rows;
          assert exists k :: 0 <= k < fault.RowsReached(|Where(schedules, DueBefore(now))|)
                             && !Where(schedules, DueBefore(now))[k].scannable;
          return Err(ScanFailed);
        }
        var c := row.cols;
        due := due + [NewSchedule(row.id, c.interval, c.nextReportTime, c.name, c.description, c.lookback,
                                  c.reportGroupID, c.time, c.day, c.dateFormat, c.datePosition)];
        i := i + 1;
      }
      forall s | s in due
        ensures s.nextReportTime < now && s.panelDetails == []
      {
        var j :| 0 <= j < |due| && due[j] == s;
        assert rows[j] in rows;
      }
      if reached == |rows| {
        forall k | 0 <= k < |schedules| && schedules[k].cols.nextReportTime < now
          ensures schedules[k].scannable
        {
          assert schedules[k] in rows;
          var j :| 0 <= j < |rows| && rows[j] == schedules[k];
        }
        forall row | row in schedules && row.cols.nextReportTime < now
          ensures Unpanelled(row) in due
        {
          var j :| 0 <= j < |rows| && rows[j] == row;
          assert due[j] == Unpanelled(row);
        }
      }
      return Ok(due);
    }

    /**
     GroupMemberUserIDs: the `userID` of each membership row of the group, in
     table order and with duplicates, read in two passes (rows to memberships,
     memberships to user identifiers). A row that does not scan fails the call
     with no identifiers. The first pass reaches every row of the group unless
     stepping to the next row fails, which is not reported. The table is only
     read.
     */
    method GroupMemberUserIDs(group: ReportGroup, fault: Fault) returns (r: Result<seq<string>>)
      ensures r == Err(StoreUnavailable) <==> fault.StopsQuery()
      ensures r.Ok? <==>
                (!fault.StopsQuery()
                && (forall k :: 0 <= k < fault.RowsReached(|Where(memberships, InGroup(group.id))|) ==>
                      Where(memberships, InGroup(group.id))[k].scannable))
      ensures !fault.NextFails? ==>
                (r.Ok? <==>
                  (!fault.StopsQuery()
                  && (forall k :: 0 <= k < |memberships| && memberships[k].reportGroupID == group.id ==>
                        memberships[k].scannable)))
      ensures r.Err? && !fault.StopsQuery() ==> r.error == ScanFailed
      ensures r.Ok? ==> |r.value| == fault.RowsReached(|Where(memberships, InGroup(group.id))|)
      ensures r.Ok? ==> forall k :: 0 <= k < |r.value| ==> r.value[k] == Where(memberships, InGroup(group.id))[k].userID
      ensures r.Ok? && !fault.NextFails? ==> r.value == MemberUserIDs(memberships, group.id)
    {
      if fault.StopsQuery() {
        return Err(StoreUnavailable);
      }
      var rows := Where(memberships, InGroup(group.id));
      WhereMembers(memberships, InGroup(group.id));
      var reached := fault.RowsReached(|rows|);
      var members: seq<ReportGroupMembership> := [];
      var i := 0;
      while i < reached
        invariant 0 <= i <= reached && |members| == i
        invariant forall k :: 0 <= k < i ==> rows[k].scannable && members[k] == Scan(rows[k])
      {
        var row := rows[i];
        if !row.scannable {
          assert rows[i] in rows;
          assert exists k :: 0 <= k < fault.RowsReached(|Where(memberships, InGroup(group.id))|)
                             && !Where(memberships, InGroup(group.id))[k].scannable;
          return Err(ScanFailed);
        }
        members := members + [ReportGroupMembership(row.id, row.userID, row.reportGroupID)];
        i := i + 1;
      }
      var userIDs: seq<string> := [];
      var j := 0;
      while j < |members|
        invariant 0 <= j <= |members| && |userIDs| == j
        invariant forall k :: 0 <= k < j ==> userIDs[k] == members[k].userID
      {
        userIDs := userIDs + [members[j].userID];
        j := j + 1;
      }
      if reached == |rows| {
        forall k | 0 <= k < |memberships| && memberships[k].reportGroupID == group.id
          ensures memberships[k].scannable
        {
          assert memberships[k] in rows;
          var m :| 0 <= m < |rows| && rows[m] == memberships[k];
        }
      }
      MemberUserIDsAt(memberships, group.id);
      return Ok(userIDs);
    }
  }
}
