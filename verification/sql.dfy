/**
 The pieces of the SQLite database that the datasource relies on: the outcome of
 a call, the database call at which the environment makes an operation fail, and
 `SELECT ... WHERE`, which keeps the rows that satisfy a condition in table order.
 */
module Sql {

  /** The outcome of a datasource operation: a value, or the error it returns. */
  datatype Result<T> = Ok(value: T) | Err(error: Error)

  /**
   The errors the datasource reports. Wrapping, status codes and log lines are
   collapsed: every failure of the database itself is `StoreUnavailable`.
   */
  datatype Error =
    | StoreUnavailable    // opening the database, running a query, preparing or executing a statement failed
    | ScanFailed          // a row's stored values do not convert to the Go field types
    | PanelDetailsFailed  // the report-content lookup for a schedule failed
    | NoScheduleFound     // GetSchedule found no row with the identifier

  /**
   The database call at which the environment makes an operation fail, if any.
   Statements are numbered in the order an operation prepares them, from 1.
   A fault at a call the operation never makes has no effect.
   `NextFails(read)` makes `rows.Next()` fail when it steps past the first
   `read` rows of a query's result: it then reports that there are no more
   rows, exactly as at the real end of the result.
   */
  datatype Fault =
    | NoFault
    | OpenFails
    | QueryFails
    | PrepareFails(stmt: nat)
    | ExecFails(stmt: nat)
    | NextFails(read: nat)
  {
    /** A SELECT cannot run: opening the database or running the query fails. */
    predicate StopsQuery() {
      OpenFails? || QueryFails?
    }

    /** Statement `n` of a write does not take effect: opening, preparing it or executing it fails. */
    predicate StopsStatement(n: nat) {
      OpenFails? || this == PrepareFails(n) || this == ExecFails(n)
    }

    /**
     How many of a query's `n` result rows a `for rows.Next()` loop reaches:
     all of them, unless stepping further fails first.
     */
    function RowsReached(n: nat): (m: nat)
      ensures m <= n
      ensures m < n <==> NextFails? && read < n
    {
      if NextFails? && read < n then read else n
    }
  }

  /** The rows of `rows` that satisfy `p`, in table order, duplicates kept. */
  function Where<R>(rows: seq<R>, p: R -> bool): seq<R>
  {
    if rows == [] then []
    else if p(rows[0]) then [rows[0]] + Where(rows[1..], p)
    else Where(rows[1..], p)
  }

  /** A row is selected exactly when it is in the table and satisfies the condition. */
  lemma {:induction false} WhereMembers<R>(rows: seq<R>, p: R -> bool)
    ensures forall x :: x in Where(rows, p) ==> x in rows && p(x)
    ensures forall x :: x in rows && p(x) ==> x in Where(rows, p)
  {
    if rows != [] {
      WhereMembers(rows[1..], p);
      assert rows == [rows[0]] + rows[1..];
    }
  }

  /** Selection keeps every selected row as often as the table holds it, and no other. */
  lemma {:induction false} WhereCount<R>(rows: seq<R>, p: R -> bool, x: R)
    ensures multiset(Where(rows, p))[x] == if p(x) then multiset(rows)[x] else 0
  {
    if rows != [] {
      WhereCount(rows[1..], p, x);
      assert rows == [rows[0]] + rows[1..];
    }
  }

  /** Selection keeps table order: selecting from two consecutive parts selects from each in turn. */
  lemma {:induction false} WhereConcat<R>(a: seq<R>, b: seq<R>, p: R -> bool)
    ensures Where(a + b, p) == Where(a, p) + Where(b, p)
  {
    if a == [] {
      assert a + b == b;
    } else {
      assert (a + b)[0] == a[0];
      assert (a + b)[1..] == a[1..] + b;
      WhereConcat(a[1..], b, p);
    }
  }

  /** When every row satisfies the condition the whole table is selected; when none does, nothing is. */
  lemma {:induction false} WhereAllOrNone<R>(rows: seq<R>, p: R -> bool)
    ensures |Where(rows, p)| <= |rows|
    ensures (forall k :: 0 <= k < |rows| ==> p(rows[k])) ==> Where(rows, p) == rows
    ensures (forall k :: 0 <= k < |rows| ==> !p(rows[k])) ==> Where(rows, p) == []
  {
    if rows != [] {
      WhereAllOrNone(rows[1..], p);
      assert forall k :: 0 <= k < |rows[1..]| ==> rows[1..][k] == rows[k + 1];
    }
  }

  /** Selecting twice with the same condition selects nothing more. */
  lemma {:induction false} WhereIdempotent<R>(rows: seq<R>, p: R -> bool)
    ensures Where(Where(rows, p), p) == Where(rows, p)
  {
    var w := Where(rows, p);
    WhereMembers(rows, p);
    assert forall k :: 0 <= k < |w| ==> p(w[k]) by {
      forall k | 0 <= k < |w| ensures p(w[k]) { assert w[k] in w; }
    }
    WhereAllOrNone(w, p);
  }

  /** The first selected row is the first row of the table that satisfies the condition. */
  lemma {:induction false} WhereFirst<R>(rows: seq<R>, p: R -> bool)
    requires Where(rows, p) != []
    ensures exists k :: 0 <= k < |rows| && p(rows[k]) && Where(rows, p)[0] == rows[k]
                        && forall j :: 0 <= j < k ==> !p(rows[j])
  {
    if p(rows[0]) {
      assert Where(rows, p)[0] == rows[0];
    } else {
      WhereFirst(rows[1..], p);
      var k :| 0 <= k < |rows[1..]| && p(rows[1..][k]) && Where(rows[1..], p)[0] == rows[1..][k]
               && forall j :: 0 <= j < k ==> !p(rows[1..][j]);
      assert forall j :: 0 <= j < k + 1 ==> !p(rows[j]) by {
        forall j | 0 <= j < k + 1 ensures !p(rows[j]) {
          if j > 0 { assert rows[j] == rows[1..][j - 1]; }
        }
      }
      assert p(rows[k + 1]) && Where(rows, p)[0] == rows[k + 1];
    }
  }
}
