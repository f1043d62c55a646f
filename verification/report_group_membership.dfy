/**
 The values of pkg/datasource/report_group_membership.go: a membership of a user
 in a report group, a row of the ReportGroupMembership table, and the user
 identifiers a group's membership rows expand to.
 */
module Memberships {
  import opened Sql

  /** A user's membership in a report group. */
  datatype ReportGroupMembership = ReportGroupMembership(id: string, userID: string, reportGroupID: string)

  /** A report group; only its identifier takes part in the membership lookup. */
  datatype ReportGroup = ReportGroup(id: string)

  /**
   A row of the ReportGroupMembership table; `scannable` says that its stored
   values convert to the Go string fields (none of them is NULL).
   */
  datatype MembershipRow = MembershipRow(id: string, userID: string, reportGroupID: string, scannable: bool)

  /** NewReportGroupMembership: the three arguments become the three fields of the same name. */
  function NewReportGroupMembership(id: string, userID: string, reportGroupID: string): (m: ReportGroupMembership)
    ensures m.id == id && m.userID == userID && m.reportGroupID == reportGroupID
  {
    ReportGroupMembership(id, userID, reportGroupID)
  }

  /** The membership a scannable row reads as. */
  function Scan(row: MembershipRow): ReportGroupMembership
  {
    ReportGroupMembership(row.id, row.userID, row.reportGroupID)
  }

  /** `WHERE reportGroupID = ?` */
  function InGroup(groupID: string): MembershipRow -> bool
  {
    (row: MembershipRow) => row.reportGroupID == groupID
  }

  /** The rows that make `userID` a member of the group `groupID`. */
  function MembershipOf(groupID: string, userID: string): MembershipRow -> bool
  {
    (row: MembershipRow) => row.reportGroupID == groupID && row.userID == userID
  }

  /** The user identifiers of the group's membership rows, in table order. */
  function MemberUserIDs(rows: seq<MembershipRow>, groupID: string): seq<string>
  {
    if rows == [] then []
    else (if rows[0].reportGroupID == groupID then [rows[0].userID] else [])
         + MemberUserIDs(rows[1..], groupID)
  }

  /**
   The group's user identifiers are the `userID` column of the rows that
   `SELECT ... WHERE reportGroupID = ?` returns, one per row, in the same order.
   */
  lemma {:induction false} MemberUserIDsAt(rows: seq<MembershipRow>, groupID: string)
    ensures |MemberUserIDs(rows, groupID)| == |Where(rows, InGroup(groupID))|
    ensures forall k :: 0 <= k < |MemberUserIDs(rows, groupID)| ==>
              MemberUserIDs(rows, groupID)[k] == Where(rows, InGroup(groupID))[k].userID
  {
    if rows != [] {
      MemberUserIDsAt(rows[1..], groupID);
    }
  }

  /** Expansion keeps table order: the members of two consecutive parts are listed part by part. */
  lemma {:induction false} MemberUserIDsConcat(a: seq<MembershipRow>, b: seq<MembershipRow>, groupID: string)
    ensures MemberUserIDs(a + b, groupID) == MemberUserIDs(a, groupID) + MemberUserIDs(b, groupID)
  {
    if a == [] {
      assert a + b == b;
    } else {
      assert (a + b)[0] == a[0];
      assert (a + b)[1..] == a[1..] + b;
      MemberUserIDsConcat(a[1..], b, groupID);
    }
  }

  /**
   No deduplication: a user is listed once for every membership row that puts
   them in the group.
   */
  lemma {:induction false} MemberUserIDsMultiplicity(rows: seq<MembershipRow>, groupID: string, userID: string)
    ensures multiset(MemberUserIDs(rows, groupID))[userID] == |Where(rows, MembershipOf(groupID, userID))|
  {
    if rows != [] {
      MemberUserIDsMultiplicity(rows[1..], groupID, userID);
    }
  }

  /** A user is listed exactly when some membership row puts them in the group. */
  lemma {:induction false} MemberUserIDsContains(rows: seq<MembershipRow>, groupID: string, userID: string)
    ensures userID in MemberUserIDs(rows, groupID) <==>
              exists k :: 0 <= k < |rows| && rows[k].reportGroupID == groupID && rows[k].userID == userID
  {
    if rows != [] {
      MemberUserIDsContains(rows[1..], groupID, userID);
      if exists k :: 0 <= k < |rows[1..]| && rows[1..][k].reportGroupID == groupID && rows[1..][k].userID == userID {
        var k :| 0 <= k < |rows[1..]| && rows[1..][k].reportGroupID == groupID && rows[1..][k].userID == userID;
        assert rows[k + 1] == rows[1..][k];
      }
      if exists k :: 0 <= k < |rows| && rows[k].reportGroupID == groupID && rows[k].userID == userID {
        var k :| 0 <= k < |rows| && rows[k].reportGroupID == groupID && rows[k].userID == userID;
        if k > 0 { assert rows[1..][k - 1] == rows[k]; }
      }
    }
  }

  /** A group no membership row names has no members, and that is not an error. */
  lemma {:induction false} MemberUserIDsEmpty(rows: seq<MembershipRow>, groupID: string)
    requires forall k :: 0 <= k < |rows| ==> rows[k].reportGroupID != groupID
    ensures MemberUserIDs(rows, groupID) == []
  {
    if rows != [] {
      assert forall k :: 0 <= k < |rows[1..]| ==> rows[1..][k] == rows[k + 1];
      MemberUserIDsEmpty(rows[1..], groupID);
    }
  }
}
