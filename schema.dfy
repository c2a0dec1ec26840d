/**
 * `schemaVersion` and `updateSchema` of the data store: read the stored
 * version, scan the migration script, run the statements of newer blocks
 * and write the block count back as the new version.
 *
 * `checkErr` ends the process through `log.Fatalf` on any error; here that
 * is the outcome `Fatal` with the message `checkErr` would print, and no
 * further request is issued.
 */
module Schema {
  import opened Text
  import opened Migration
  import opened Store

  /** How a call ends: it returns, or `checkErr` halts the process with a message. */
  datatype Outcome = Done | Fatal(message: string)

  /** A value, or the message the process halts with. */
  datatype Result<T> = Value(value: T) | Halt(message: string)

  const OPEN_FAILED: string := "Failed to open schema file"

  /** The message `checkErr` prints when the engine rejects `req`. */
  function FailureMessage(req: Request): string
  {
    match req
    case CreateSchemaTable => "Failed to create schema table"
    case SelectVersion => "Failed to read schema version"
    case Sql(_) => "Failed to apply schema"
    case DeleteVersions => "Unable to remove current schema version"
    case InsertVersion(_) => "Failed to insert updated schema version"
  }

  /** The version held in the first row, or 0 when there is no row. */
  function StoredVersion(rows: seq<int>): int
  {
    if |rows| > 0 then rows[0] else 0
  }

  /**
   * `schemaVersion`: make sure the `schema` table exists, then return the
   * version in the first row it yields, or 0 when it yields none.
   */
  method SchemaVersion(db: Database) returns (r: Result<int>)
    modifies db
    ensures var created := Apply(CreateSchemaTable, old(db.table));
      if CreateSchemaTable in db.failing then
        && r == Halt(FailureMessage(CreateSchemaTable))
        && db.log == old(db.log) + [CreateSchemaTable] && db.table == old(db.table)
      else if SelectVersion in db.failing then
        && r == Halt(FailureMessage(SelectVersion))
        && db.log == old(db.log) + [CreateSchemaTable, SelectVersion] && db.table == created
      else
        && created.Some?
        && r == Value(StoredVersion(created.value))
        && db.log == old(db.log) + [CreateSchemaTable, SelectVersion] && db.table == created
  {
    var ok := db.Exec(CreateSchemaTable);
    if !ok {
      return Halt(FailureMessage(CreateSchemaTable));
    }
    var rows := db.QueryVersions();
    if rows.None? {
      return Halt(FailureMessage(SelectVersion));
    }
    if |rows.value| > 0 {
      return Value(rows.value[0]);
    }
    return Value(0);
  }

  // ---------------------------------------------------------------------
  // What one call of `updateSchema` does, as a function of the engine's
  // state and the script

  /** The requests issued, the `schema` table afterwards, and how the call ended. */
  datatype Run = Run(requests: seq<Request>, table: Option<seq<int>>, outcome: Outcome)

  function SqlRequests(stmts: seq<string>): seq<Request>
  {
    seq(|stmts|, k requires 0 <= k < |stmts| => Sql(stmts[k]))
  }

  /**
   * The requests `updateSchema` means to issue once it has read the stored
   * version, as the scanner produces them: the statements of newer blocks,
   * then the version rewrite. `PlanMeaning` below states it in terms of
   * `Migrate`.
   */
  function Plan(lines: seq<string>, current: int): seq<Request>
  {
    var s := ScanLines(lines, current, |lines|);
    SqlRequests(s.issued) + [DeleteVersions, InsertVersion(s.block)]
  }

  /** Issue `plan` in order, stopping at the first request the engine rejects. */
  function RunPlan(plan: seq<Request>, failing: set<Request>, table: Option<seq<int>>): Run
    decreases |plan|
  {
    if plan == [] then Run([], table, Done)
    else if Fails(plan[0], failing, table) then Run([plan[0]], table, Fatal(FailureMessage(plan[0])))
    else
      var rest := RunPlan(plan[1..], failing, Apply(plan[0], table));
      Run([plan[0]] + rest.requests, rest.table, rest.outcome)
  }

  /** The whole of `updateSchema` on an engine with `schema` table `table`; `script` is None when the file cannot be opened. */
  function UpdateSchemaRun(table: Option<seq<int>>, failing: set<Request>, script: Option<seq<string>>): Run
  {
    if CreateSchemaTable in failing then
      Run([CreateSchemaTable], table, Fatal(FailureMessage(CreateSchemaTable)))
    else
      var created := Apply(CreateSchemaTable, table);
      if SelectVersion in failing then
        Run([CreateSchemaTable, SelectVersion], created, Fatal(FailureMessage(SelectVersion)))
      else if script.None? then
        Run([CreateSchemaTable, SelectVersion], created, Fatal(OPEN_FAILED))
      else
        var run := RunPlan(Plan(script.value, StoredVersion(created.value)), failing, created);
        Run([CreateSchemaTable, SelectVersion] + run.requests, run.table, run.outcome)
  }

  // ---------------------------------------------------------------------
  // The method

  /**
   * `updateSchema`: scan the script line by line, counting marker lines as
   * blocks and joining lines into a statement until one ends with the
   * terminator; run that statement if its block is newer than the stored
   * version; finally replace the stored version with the block count.
   */
  method UpdateSchema(db: Database, script: Option<seq<string>>) returns (r: Outcome)
    modifies db
    ensures var run := UpdateSchemaRun(old(db.table), db.failing, script);
      db.log == old(db.log) + run.requests && db.table == run.table && r == run.outcome
  {
    ghost var log0 := db.log;
    ghost var created := Apply(CreateSchemaTable, db.table);
    var currentSchema := SchemaVersion(db);
    if currentSchema.Halt? {
      return Fatal(currentSchema.message);
    }
    if script.None? {
      return Fatal(OPEN_FAILED);
    }
    var lines := script.value;
    var current := currentSchema.value;
    ghost var log1 := db.log;
    ghost var plan := Plan(lines, current);

    assert UpdateSchemaRun(old(db.table), db.failing, script) ==
      var run := RunPlan(plan, db.failing, created);
      Run([CreateSchemaTable, SelectVersion] + run.requests, run.table, run.outcome);
    assert log1 == log0 + [CreateSchemaTable, SelectVersion];

    var stmt := "";
    var stmtSchemaVersion := 0;
    ghost var issued: seq<string> := [];
    var i := 0;
    while i < |lines|
      invariant 0 <= i <= |lines|
      invariant ScanLines(lines, current, i) == ScanState(stmtSchemaVersion, stmt, issued)
      invariant db.table == created && created.Some?
      invariant db.log == log1 + SqlRequests(issued)
      invariant forall k :: 0 <= k < |issued| ==> Sql(issued[k]) !in db.failing
    {
      var line := lines[i];
      if HasPrefix(line, BLOCK_MARKER) {
        stmtSchemaVersion := stmtSchemaVersion + 1;
      }
      stmt := stmt + line;
      if HasSuffix(line, TERMINATOR) {
        if stmtSchemaVersion > current {
          var ok := db.Exec(Sql(stmt));
          if !ok {
            PlanStopsAtStatement(lines, current, i, db.failing, created);
            RegroupRequests(log0, [CreateSchemaTable, SelectVersion], SqlRequests(issued), [Sql(stmt)]);
            return Fatal(FailureMessage(Sql(stmt)));
          }
          SqlRequestsPush(issued, stmt);
          issued := issued + [stmt];
        }
        stmt := "";
      }
      i := i + 1;
    }
    ghost var tail := [DeleteVersions, InsertVersion(stmtSchemaVersion)];
    ghost var rewrite := RunPlan(tail, db.failing, created);
    assert plan == SqlRequests(issued) + tail;
    RunPlanPassesSql(issued, tail, db.failing, created);
    r := ReplaceVersion(db, stmtSchemaVersion);
    RegroupRequests(log0, [CreateSchemaTable, SelectVersion], SqlRequests(issued), rewrite.requests);
  }

  /**
   * The version rewrite at the end of `updateSchema`: delete every row of
   * the `schema` table, then insert the one row holding `version`.
   */
  method ReplaceVersion(db: Database, version: int) returns (r: Outcome)
    requires db.table.Some?
    modifies db
    ensures var run := RunPlan([DeleteVersions, InsertVersion(version)], db.failing, old(db.table));
      db.log == old(db.log) + run.requests && db.table == run.table && r == run.outcome
  {
    RunVersionRewrite(version, db.failing, db.table);
    var ok := db.Exec(DeleteVersions);
    if !ok {
      return Fatal(FailureMessage(DeleteVersions));
    }
    ok := db.Exec(InsertVersion(version));
    assert db.log == old(db.log) + [DeleteVersions, InsertVersion(version)];
    if !ok {
      return Fatal(FailureMessage(InsertVersion(version)));
    }
    assert db.table == Some([version]) by {
      assert [] + [version] == [version];
    }
    return Done;
  }

  // ---------------------------------------------------------------------
  // Lemmas the method relies on

  lemma SqlRequestsPush(stmts: seq<string>, s: string)
    ensures SqlRequests(stmts + [s]) == SqlRequests(stmts) + [Sql(s)]
  {
  }

  lemma SqlRequestsAppend(a: seq<string>, b: seq<string>)
    ensures SqlRequests(a + b) == SqlRequests(a) + SqlRequests(b)
  {
  }

  /** Statements the engine accepts are issued one after another and leave the `schema` table alone. */
  lemma {:induction false} RunPlanPassesSql(stmts: seq<string>, rest: seq<Request>, failing: set<Request>, table: Option<seq<int>>)
    requires forall k :: 0 <= k < |stmts| ==> Sql(stmts[k]) !in failing
    ensures var run := RunPlan(rest, failing, table);
      RunPlan(SqlRequests(stmts) + rest, failing, table) == Run(SqlRequests(stmts) + run.requests, run.table, run.outcome)
    decreases |stmts|
  {
    if stmts != [] {
      var plan := SqlRequests(stmts) + rest;
      assert plan[0] == Sql(stmts[0]);
      assert plan[1..] == SqlRequests(stmts[1..]) + rest;
      RunPlanPassesSql(stmts[1..], rest, failing, table);
      assert SqlRequests(stmts) == [Sql(stmts[0])] + SqlRequests(stmts[1..]);
    } else {
      assert SqlRequests(stmts) + rest == rest;
    }
  }

  /**
   * When the engine rejects the statement completed at line `i`, the run
   * has issued exactly the newer statements up to and including it.
   */
  lemma PlanStopsAtStatement(lines: seq<string>, current: int, i: nat, failing: set<Request>, table: Option<seq<int>>)
    requires i < |lines|
    requires IsTerminated(lines[i]) && ScanLines(lines, current, i + 1).block > current
    requires Sql(ScanLines(lines, current, i).pending + lines[i]) in failing
    requires var issued := ScanLines(lines, current, i).issued;
      forall k :: 0 <= k < |issued| ==> Sql(issued[k]) !in failing
    ensures var s := ScanLines(lines, current, i);
      RunPlan(Plan(lines, current), failing, table) ==
        Run(SqlRequests(s.issued) + [Sql(s.pending + lines[i])], table, Fatal(FailureMessage(Sql(""))))
  {
    var s := ScanLines(lines, current, i);
    var stmt := s.pending + lines[i];
    var final := ScanLines(lines, current, |lines|);
    var later := ScanIssuedGrows(lines, current, i + 1, |lines|);
    assert ScanLines(lines, current, i + 1).issued == s.issued + [stmt];
    var tail := [DeleteVersions, InsertVersion(final.block)];
    assert Plan(lines, current) == SqlRequests(s.issued + [stmt] + later) + tail;
    assert SqlRequests(s.issued + [stmt] + later) == SqlRequests(s.issued) + [Sql(stmt)] + SqlRequests(later) by {
      SqlRequestsAppend(s.issued + [stmt], later);
      SqlRequestsPush(s.issued, stmt);
    }
    RegroupRequests(SqlRequests(s.issued), [Sql(stmt)], SqlRequests(later), tail);
    RunPlanStopsAtSql(s.issued, stmt, SqlRequests(later) + tail, failing, table);
  }

  lemma RegroupRequests(a: seq<Request>, b: seq<Request>, c: seq<Request>, d: seq<Request>)
    ensures a + b + c + d == a + (b + (c + d))
  {
  }

  /** The first statement the engine rejects is the last request issued. */
  lemma RunPlanStopsAtSql(before: seq<string>, stmt: string, more: seq<Request>, failing: set<Request>, table: Option<seq<int>>)
    requires forall k :: 0 <= k < |before| ==> Sql(before[k]) !in failing
    requires Sql(stmt) in failing
    ensures RunPlan(SqlRequests(before) + ([Sql(stmt)] + more), failing, table) ==
      Run(SqlRequests(before) + [Sql(stmt)], table, Fatal(FailureMessage(Sql(stmt))))
  {
    RunPlanPassesSql(before, [Sql(stmt)] + more, failing, table);
  }

  /** The plan in terms of the whole-script description: the statements `Migrate` executes, then the version rewrite. */
  lemma PlanMeaning(lines: seq<string>, current: int)
    ensures var m := Migrate(lines, current);
      Plan(lines, current) == SqlRequests(m.executed) + [DeleteVersions, InsertVersion(m.version)]
  {
    MigrateByScan(lines, current);
  }

  /** Once every newer statement has been accepted, the run goes on to rewrite the version. */
  lemma PlanAfterStatements(lines: seq<string>, current: int, failing: set<Request>, table: Option<seq<int>>)
    requires table.Some?
    requires var executed := Migrate(lines, current).executed;
      forall k :: 0 <= k < |executed| ==> Sql(executed[k]) !in failing
    ensures var executed := SqlRequests(Migrate(lines, current).executed);
      RunPlan(Plan(lines, current), failing, table) ==
        if DeleteVersions in failing then
          Run(executed + [DeleteVersions], table, Fatal(FailureMessage(DeleteVersions)))
        else if InsertVersion(Markers(lines)) in failing then
          Run(executed + [DeleteVersions, InsertVersion(Markers(lines))], Some([]),
              Fatal(FailureMessage(InsertVersion(0))))
        else
          Run(executed + [DeleteVersions, InsertVersion(Markers(lines))], Some([Markers(lines)]), Done)
  {
    var executed := Migrate(lines, current).executed;
    var tail := [DeleteVersions, InsertVersion(Markers(lines))];
    PlanMeaning(lines, current);
    RunPlanPassesSql(executed, tail, failing, table);
    RunVersionRewrite(Markers(lines), failing, table);
  }

  /** The version rewrite: clear the `schema` table, then insert the one new row. */
  lemma RunVersionRewrite(version: int, failing: set<Request>, table: Option<seq<int>>)
    requires table.Some?
    ensures RunPlan([DeleteVersions, InsertVersion(version)], failing, table) ==
      if DeleteVersions in failing then
        Run([DeleteVersions], table, Fatal(FailureMessage(DeleteVersions)))
      else if InsertVersion(version) in failing then
        Run([DeleteVersions, InsertVersion(version)], Some([]), Fatal(FailureMessage(InsertVersion(0))))
      else
        Run([DeleteVersions, InsertVersion(version)], Some([version]), Done)
  {
    var tail := [DeleteVersions, InsertVersion(version)];
    assert tail[1..] == [InsertVersion(version)];
    assert tail[1..][1..] == [];
    if DeleteVersions !in failing {
      var cleared: Option<seq<int>> := Some([]);
      assert Apply(DeleteVersions, table) == cleared;
      var inserted := RunPlan(tail[1..], failing, cleared);
      if InsertVersion(version) !in failing {
        assert Apply(InsertVersion(version), cleared) == Some(cleared.value + [version]);
        assert cleared.value + [version] == [version];
        var one := tail[1..];
        assert one[1..] == [];
        assert RunPlan(one[1..], failing, Some([version])) == Run([], Some([version]), Done);
        assert one + [] == one;
      }
    }
  }

  // ---------------------------------------------------------------------
  // What a call promises

  /** None of `reqs` is one the engine is set to reject. */
  ghost predicate Accepted(reqs: seq<Request>, failing: set<Request>)
  {
    forall k :: 0 <= k < |reqs| ==> reqs[k] !in failing
  }

  lemma AcceptedConcat(a: seq<Request>, b: seq<Request>, failing: set<Request>)
    ensures Accepted(a + b, failing) <==> Accepted(a, failing) && Accepted(b, failing)
  {
    if Accepted(a, failing) && Accepted(b, failing) {
      forall k | 0 <= k < |a + b|
        ensures (a + b)[k] !in failing
      {
        if k >= |a| {
          assert (a + b)[k] == b[k - |a|];
        }
      }
    }
    if Accepted(a + b, failing) {
      forall k | 0 <= k < |a|
        ensures a[k] !in failing
      {
        assert (a + b)[k] == a[k];
      }
      forall k | 0 <= k < |b|
        ensures b[k] !in failing
      {
        assert (a + b)[|a| + k] == b[k];
      }
    }
  }

  /**
   * `run` issued a prefix of `plan` and stopped at the first request the
   * engine rejects, halting with that request's message; it got to the end
   * iff the engine rejects none of them.
   */
  ghost predicate StopsAtFirstRejection(plan: seq<Request>, run: Run, failing: set<Request>)
  {
    && |run.requests| <= |plan| && run.requests == plan[..|run.requests|]
    && (run.outcome.Done? <==> Accepted(plan, failing))
    && (run.outcome.Done? ==> run.requests == plan)
    && (run.outcome.Fatal? ==>
          && |run.requests| > 0
          && run.requests[|run.requests| - 1] in failing
          && run.outcome.message == FailureMessage(run.requests[|run.requests| - 1])
          && forall k :: 0 <= k < |run.requests| - 1 ==> run.requests[k] !in failing)
  }

  /** Accepted requests issued first do not change where the run stops. */
  lemma AcceptedFirst(read: seq<Request>, plan: seq<Request>, run: Run, failing: set<Request>)
    requires Accepted(read, failing)
    requires StopsAtFirstRejection(plan, run, failing)
    ensures StopsAtFirstRejection(read + plan, Run(read + run.requests, run.table, run.outcome), failing)
  {
    var m, n := |read|, |run.requests|;
    var all := read + run.requests;
    AcceptedConcat(read, plan, failing);
    assert all == (read + plan)[..m + n] by {
      assert read + plan[..n] == (read + plan)[..m + n];
    }
    if run.outcome.Fatal? {
      assert all[|all| - 1] == run.requests[n - 1];
      forall k | 0 <= k < |all| - 1
        ensures all[k] !in failing
      {
        if k >= m {
          assert all[k] == run.requests[k - m];
        }
      }
    }
  }

  /**
   * While the `schema` table exists, issuing a plan stops at the first
   * request the engine rejects.
   */
  lemma {:induction false} RunPlanOutcome(plan: seq<Request>, failing: set<Request>, table: Option<seq<int>>)
    requires table.Some?
    ensures StopsAtFirstRejection(plan, RunPlan(plan, failing, table), failing)
    decreases |plan|
  {
    if plan != [] {
      var first, later := plan[0], plan[1..];
      if first in failing {
        assert plan[..1] == [first];
      } else {
        var after := Apply(first, table);
        assert after.Some?;
        var rest := RunPlan(later, failing, after);
        RunPlanOutcome(later, failing, after);
        assert [first] == [first][..1];
        AcceptedFirst([first], later, rest, failing);
        assert [first] + later == plan;
      }
    }
  }

  /** Every request `updateSchema` means to issue against an engine whose `schema` table is `table`, in order. */
  function IntendedRequests(table: Option<seq<int>>, lines: seq<string>): seq<Request>
  {
    var created := Apply(CreateSchemaTable, table);
    [CreateSchemaTable, SelectVersion] + Plan(lines, StoredVersion(created.value))
  }

  /**
   * With the script at hand, `updateSchema` issues its intended requests in
   * order and stops at the first one the engine rejects, halting with that
   * request's message; it returns iff the engine rejects none of them.
   */
  lemma UpdateSchemaStopsAtFirstRejection(table: Option<seq<int>>, failing: set<Request>, lines: seq<string>)
    ensures StopsAtFirstRejection(IntendedRequests(table, lines), UpdateSchemaRun(table, failing, Some(lines)), failing)
  {
    var created := Apply(CreateSchemaTable, table);
    var plan := Plan(lines, StoredVersion(created.value));
    var intended := IntendedRequests(table, lines);
    var read := [CreateSchemaTable, SelectVersion];
    assert intended == read + plan;
    if CreateSchemaTable in failing {
      assert intended[0] == CreateSchemaTable && intended[..1] == [CreateSchemaTable];
    } else if SelectVersion in failing {
      assert intended[1] == SelectVersion && intended[..2] == read;
    } else {
      var r := RunPlan(plan, failing, created);
      RunPlanOutcome(plan, failing, created);
      assert StopsAtFirstRejection(plan, r, failing);
      AcceptedFirst(read, plan, r, failing);
      assert UpdateSchemaRun(table, failing, Some(lines)) == Run(read + r.requests, r.table, r.outcome);
    }
  }

  /**
   * A call that returns has run every statement of a newer block, in
   * order, then replaced the stored version with the script's block count,
   * whatever the version was before; `schemaVersion` then reads that count.
   */
  lemma UpdateSchemaSucceeds(table: Option<seq<int>>, failing: set<Request>, lines: seq<string>)
    requires UpdateSchemaRun(table, failing, Some(lines)).outcome.Done?
    ensures var run := UpdateSchemaRun(table, failing, Some(lines));
      var executed := Migrate(lines, StoredVersion(Apply(CreateSchemaTable, table).value)).executed;
      && run.requests == [CreateSchemaTable, SelectVersion] + SqlRequests(executed) + [DeleteVersions, InsertVersion(Markers(lines))]
      && run.table == Some([Markers(lines)])
      && StoredVersion(Apply(CreateSchemaTable, run.table).value) == Markers(lines)
  {
    var created := Apply(CreateSchemaTable, table);
    var current := StoredVersion(created.value);
    var executed := Migrate(lines, current).executed;
    var plan := Plan(lines, current);
    UpdateSchemaStopsAtFirstRejection(table, failing, lines);
    PlanMeaning(lines, current);
    var read := [CreateSchemaTable, SelectVersion];
    assert Accepted(read + plan, failing);
    AcceptedConcat(read, plan, failing);
    assert plan == SqlRequests(executed) + [DeleteVersions, InsertVersion(Markers(lines))];
    AcceptedConcat(SqlRequests(executed), [DeleteVersions, InsertVersion(Markers(lines))], failing);
    forall k | 0 <= k < |executed|
      ensures Sql(executed[k]) !in failing
    {
      assert SqlRequests(executed)[k] == Sql(executed[k]);
    }
    PlanAfterStatements(lines, current, failing, created);
    assert [DeleteVersions, InsertVersion(Markers(lines))][0] !in failing;
    assert [DeleteVersions, InsertVersion(Markers(lines))][1] !in failing;
  }

  /**
   * Running `updateSchema` again with the same script after it returned
   * runs no migration statement: it only rewrites the same version and
   * leaves the `schema` table as it was.
   */
  lemma UpdateSchemaIdempotent(table: Option<seq<int>>, failing: set<Request>, lines: seq<string>)
    requires UpdateSchemaRun(table, failing, Some(lines)).outcome.Done?
    ensures var first := UpdateSchemaRun(table, failing, Some(lines));
      UpdateSchemaRun(first.table, failing, Some(lines)) ==
        Run([CreateSchemaTable, SelectVersion, DeleteVersions, InsertVersion(Markers(lines))], first.table, Done)
  {
    var version := Markers(lines);
    UpdateSchemaSucceeds(table, failing, lines);
    assert && CreateSchemaTable !in failing && SelectVersion !in failing
           && DeleteVersions !in failing && InsertVersion(version) !in failing
    by {
      UpdateSchemaStopsAtFirstRejection(table, failing, lines);
      var current := StoredVersion(Apply(CreateSchemaTable, table).value);
      var intended := IntendedRequests(table, lines);
      var n := |intended|;
      assert intended[n - 2] == DeleteVersions && intended[n - 1] == InsertVersion(version) by {
        PlanMeaning(lines, current);
      }
      assert intended[0] == CreateSchemaTable && intended[1] == SelectVersion;
    }
    RerunAtSameVersion(failing, lines);
  }

  /** Starting from the version a script writes, `updateSchema` with that script only rewrites it. */
  lemma RerunAtSameVersion(failing: set<Request>, lines: seq<string>)
    requires CreateSchemaTable !in failing && SelectVersion !in failing
    requires DeleteVersions !in failing && InsertVersion(Markers(lines)) !in failing
    ensures var stored := Some([Markers(lines)]);
      UpdateSchemaRun(stored, failing, Some(lines)) ==
        Run([CreateSchemaTable, SelectVersion, DeleteVersions, InsertVersion(Markers(lines))], stored, Done)
  {
    var version := Markers(lines);
    var stored: Option<seq<int>> := Some([version]);
    assert Apply(CreateSchemaTable, stored) == stored;
    assert StoredVersion(stored.value) == version;
    assert Plan(lines, version) == [DeleteVersions, InsertVersion(version)] by {
      PlanMeaning(lines, version);
      MigrateTwice(lines, 0);
      assert SqlRequests([]) == [];
    }
    RunVersionRewrite(version, failing, stored);
  }

  /**
   * No transaction encloses the statements: a statement the engine rejects
   * halts the call with the `schema` table as it was, so the version still
   * names the old block although earlier statements have been applied.
   */
  lemma UpdateSchemaPartialMigration(table: Option<seq<int>>, failing: set<Request>, lines: seq<string>)
    ensures var run := UpdateSchemaRun(table, failing, Some(lines));
      run.outcome == Fatal(FailureMessage(Sql(""))) ==> run.table == Apply(CreateSchemaTable, table)
  {
    var created := Apply(CreateSchemaTable, table);
    if CreateSchemaTable !in failing && SelectVersion !in failing {
      var current := StoredVersion(created.value);
      var s := ScanLines(lines, current, |lines|);
      HaltOnStatementKeepsTable(s.issued, s.block, failing, created);
    }
  }

  lemma {:induction false} HaltOnStatementKeepsTable(stmts: seq<string>, version: int, failing: set<Request>, table: Option<seq<int>>)
    requires table.Some?
    ensures var run := RunPlan(SqlRequests(stmts) + [DeleteVersions, InsertVersion(version)], failing, table);
      run.outcome == Fatal(FailureMessage(Sql(""))) ==> run.table == table
    decreases |stmts|
  {
    var tail := [DeleteVersions, InsertVersion(version)];
    if stmts == [] {
      assert SqlRequests(stmts) + tail == tail;
      RunVersionRewrite(version, failing, table);
    } else {
      var plan := SqlRequests(stmts) + tail;
      assert plan[0] == Sql(stmts[0]);
      assert plan[1..] == SqlRequests(stmts[1..]) + tail;
      HaltOnStatementKeepsTable(stmts[1..], version, failing, table);
    }
  }
}
