# eveirc schema migrator, modelled in Dafny

The data store of eveirc keeps its SQLite schema up to date with a small
migration scanner, `updateSchema` in `db/db.go`. It first asks
`schemaVersion` for the stored version: that function makes sure the
one-column `schema` table exists and returns the version in its first row,
or 0 when the table has no rows. Then it reads the migration script line by
line:

- a line starting with `/**` opens a new block, and the block counter goes up by one;
- every line is appended, with no separator, to the pending statement;
- a line ending in `;` completes the pending statement; the statement runs only
  when the block counter is greater than the stored version, and then the
  pending text is reset.

Finally the stored version is replaced, by a `DELETE` and then an `INSERT`,
with the final block count. An error returned by `Exec` or `Query` halts the
process through `checkErr`. Errors that come up while iterating over the rows
of the version query (`rows.Next`, `rows.Err`, `rows.Scan`) are never checked.

The project has four modules:

- `Text` (`text.dfy`): the string operations `HasPrefix`, `HasSuffix`, and
  `Concat`, the line joining that repeated `stmt += line` performs.
- `Migration` (`migration.dfy`): what one scan computes, as functions of the
  lines and the stored version:
  - `Markers`: the block count;
  - `Ends`: the terminated lines;
  - `Pending`: the unterminated tail;
  - `Statements`: each completed statement with its text, its block and its last line;
  - `Newer` and `Migrate`: the statements that run and the version written back.

  It also holds `ScanLines`, the same computation done one line at a time,
  and lemmas that tie the two together and state the migrator's properties.
- `Store` (`store.dfy`): the `*sql.DB` handle as a class. It holds a log of the
  requests issued to the engine, the rows of the `schema` table, and the set
  of requests the engine rejects.
- `Schema` (`schema.dfy`): the methods `SchemaVersion` and `UpdateSchema`.
  - `UpdateSchema` mirrors the Go scanning loop statement by statement. It is
    proved equal to a functional description (`UpdateSchemaRun`, `RunPlan`,
    `Plan`).
  - `SchemaVersion` issues the same two requests as the Go code. Its contract
    gives the result directly: the first row, or 0 when there is none.
    Because the Go `for rows.Next()` loop returns on its first turn, it is an
    `if` here.

  Lemmas then state what a call promises: where it stops on an error, what a
  successful call leaves behind, and that a second call runs no migration
  statement.

Three behaviours of the code are easy to get wrong, and the model keeps them
as written:

- **The version is overwritten, not maxed.** The code always deletes the
  stored version and inserts the final block count, even when the stored
  version is higher. So a script with fewer blocks lowers the version, and the
  version is monotonic only when the script has at least as many blocks.
  `Migration.VersionCanDecrease` gives a concrete case.
- **The unterminated tail is dropped.** Text after the last line that ends in
  `;` is never executed, and no error is raised. Marker lines inside it still
  count towards the version written back (`Migration.UnterminatedTailDropped`).
- **There is no transaction.** A statement the engine rejects halts the process
  with the earlier statements applied and the old version still stored
  (`Schema.UpdateSchemaPartialMigration`).

## Model

| member | source | states |
|---|---|---|
| Schema.SchemaVersion | db/db.go:51-65 | Issues CREATE TABLE IF NOT EXISTS and then SELECT. It halts with "Failed to create schema table" or "Failed to read schema version" when the engine rejects the corresponding request. Otherwise it returns the version in the first row of the now-existing table, or 0 when there is no row. |
| Store.Database.Exec | db/db.go:52-53 | Logs the request. It succeeds iff the engine does not reject it, where a request that needs the `schema` table fails while the table is missing. Only on success does the `schema` table change, as the request prescribes. |
| Store.Database.QueryVersions | db/db.go:55-56 | Logs the SELECT and returns the table's rows, or none when the engine rejects the query. The table is unchanged. |
| Schema.UpdateSchema | db/db.go:67-98 | The requests issued, the `schema` table afterwards and the outcome are exactly those of `UpdateSchemaRun`. That is: read the version, halt if the script cannot be opened, scan lines issuing each newer completed statement, halt at the first rejected one, then rewrite the version. |
| Schema.ReplaceVersion | db/db.go:93-97 | Issues DELETE and then INSERT of the version, halting with the matching `checkErr` message at the first request the engine rejects. |
| Schema.RunVersionRewrite | db/db.go:93-97 | If DELETE is rejected, the run halts with the table untouched. If INSERT is rejected, it halts with the table empty. Otherwise the table holds exactly the one new version. |
| Schema.PlanAfterStatements | db/db.go:81-97 | Once every statement `Migrate` executes has been accepted, the run consists of those statements and then the version rewrite to the marker count, with the three possible endings of the rewrite. |
| Schema.PlanStopsAtStatement | db/db.go:81-85 | When the engine rejects the statement completed at line `i`, the run has issued exactly the newer statements before it plus that statement. It halts with "Failed to apply schema" and the table unchanged. |
| Schema.RunPlanStopsAtSql | db/db.go:83-84 | A rejected statement is the last request issued and halts the run with the statement's message. |
| Schema.RunPlanPassesSql | db/db.go:81-86 | Statements the engine accepts are issued in order and leave the `schema` table alone; the run continues with the rest of the plan. |
| Schema.PlanMeaning | db/db.go:75-97 | The requests the line-by-line scan plans are the statements `Migrate` executes, followed by DELETE and INSERT of the version `Migrate` writes. |
| Schema.RunPlanOutcome | db/db.go:45-49 | A plan run against an existing table issues a prefix of the plan. It reaches the end iff no request is rejected. When it halts, the last request issued is the first rejected one, and the message is that request's `checkErr` message. |
| Schema.AcceptedFirst | db/db.go:45-49 | Accepted requests issued before a plan do not change where the plan's run stops, or with what message. |
| Schema.UpdateSchemaStopsAtFirstRejection | db/db.go:67-98 | With the script at hand, a call issues a prefix of CREATE, SELECT and the plan. It stops at the first request the engine rejects, with that request's message, and returns iff none is rejected. |
| Schema.UpdateSchemaSucceeds | db/db.go:67-98 | A call that returns has issued CREATE, SELECT, the statements `Migrate` executes and the rewrite to the marker count. The `schema` table then holds just that count, which `schemaVersion` reads back. |
| Schema.UpdateSchemaIdempotent | db/db.go:81-97 | After a call that returns, a second call with the same script runs no statement. It only rewrites the same version and leaves the table as it was. |
| Schema.RerunAtSameVersion | db/db.go:81-97 | Starting from the version a script writes, a call with that script issues CREATE, SELECT, DELETE and INSERT only, and returns with the table unchanged. |
| Schema.UpdateSchemaPartialMigration | db/db.go:81-86 | A call that halts on a rejected statement leaves the `schema` table as the version read at the start left it, so the old version stays stored. |
| Schema.HaltOnStatementKeepsTable | db/db.go:83-84 | In a run of statements followed by the rewrite, halting on a statement leaves the table as it was. |
| Migration.EndsSpec | db/db.go:81 | Every line `Ends` lists is below `n` and terminated, and the list is strictly increasing. |
| Migration.EndsComplete | db/db.go:81 | Every terminated line below `n` is listed in `Ends`, so no statement end is missed. |
| Migration.MarkersAppend | db/db.go:77-79 | The block count of two runs of lines is the sum of their counts. |
| Migration.MarkersMonotone | db/db.go:77-79 | Reading more lines never lowers the block counter. |
| Migration.MarkersBound | db/db.go:77-79 | The block count never exceeds the number of lines. |
| Migration.StatementsSnoc | db/db.go:80-87 | Reading one more line keeps every completed statement. If the line is terminated, it adds one statement: the pending text plus the line, tagged with the block count including that line. |
| Migration.PendingSnoc | db/db.go:80-86 | After a terminated line the pending text is empty; otherwise it is the previous pending text with the line appended. |
| Migration.Reassemble | db/db.go:80-86 | No text is lost or duplicated: the completed statements joined, followed by the pending text, are exactly the lines read, joined. |
| Migration.StatementsGrow | db/db.go:75-88 | The statements completed within the first `i` lines are a prefix of those completed later: no statement is revised. |
| Migration.ScanStep | db/db.go:75-88 | One iteration: the block count rises iff the line is a marker. A terminated line finishes the pending text plus the line, which runs iff its block is newer than the stored version, and resets the pending text. Any other line is appended to it. |
| Migration.ScanLinesMeaning | db/db.go:75-88 | After `n` lines, the loop's state (counter, `stmt`, statements issued) is the marker count of those lines, their unterminated tail, and the newer completed statements in order. |
| Migration.ScanIssuedGrows | db/db.go:81-85 | Scanning further only appends to the statements already issued. |
| Migration.MigrateByScan | db/db.go:75-96 | `Migrate`'s executed statements and version are the loop's issued statements and final counter. |
| Migration.StatementsSorted | db/db.go:77-85 | Completed statements come in non-decreasing block order, and none has a block above the count so far. |
| Migration.NewerIsSuffix | db/db.go:82-85 | For block-sorted statements there is a split point. Those before it have blocks at or below the stored version and are skipped. Those from it on are newer, and all of them run, in order. |
| Migration.MigrateExecutesNewerSuffix | db/db.go:75-88 | The statements executed are exactly the completed statements whose block is greater than the stored version, in script order; they form a suffix of all completed statements. |
| Migration.ScanFinalBlock | db/db.go:74-79 | The loop's final block counter, the version written back, is the number of marker lines, and it is the same whatever the stored version was. |
| Migration.MigrateUpToDate | db/db.go:82 | When the stored version is at least the marker count, nothing runs, and the version written back is the marker count. |
| Migration.MigrateTwice | db/db.go:82-96 | Migrating again from the version a scan writes runs nothing and writes the same version. |
| Migration.UnterminatedTailDropped | db/db.go:75-88 | Appending lines with no terminator changes nothing that runs, and raises no error. Their markers still add to the version. |
| Migration.StatementsPrefix | db/db.go:75-88 | The statements completed within the first `n` lines do not depend on later lines. |
| Migration.EndsUnterminated | db/db.go:81 | Lines without a terminator complete no statement. |
| Migration.VersionCanDecrease | db/db.go:93-97 | A one-block script run against stored version 2 runs nothing and writes version 1: the version is overwritten, not maxed. |
| Text.ConcatAppend | db/db.go:80 | Joining two runs of lines is joining each, then the two results. |

## Left out

- `Init` (db/db.go:100-124) is not modelled. It does only filesystem and driver work: the home directory, `MkdirAll`, opening SQLite, the pragmas and the gorp mapping.
- The CRUD methods (db/db.go:126-164) are not modelled. Each is a one-line delegation to gorp, whose behaviour is not part of this model.
- `main.go` is not modelled. It is the process entry point and only calls into the data store.
- The SQL meaning of migration statements is not modelled. A statement is an opaque request that the engine accepts or rejects. The model tracks only the `schema` table's rows.
- Which requests the engine rejects is not modelled either. It is a parameter, the set `failing` on the handle, plus "no such table" for requests on a missing `schema` table.
- Opening `db/schema.sql` is a parameter: the script is given as its lines, or as None when the file cannot be opened.
- Line splitting is not modelled: `bufio.Scanner`'s splitting into lines, its stripping of `\r`, its 64 KiB line limit and its read errors. The source never checks those errors.
- The `log.Printf` at db/db.go:89-91 is logging only and is left out.
- The `INSERT` text built by `fmt.Sprintf` at db/db.go:96 is modelled as the request `InsertVersion(n)`.
- Schema.SchemaVersion: errors while iterating over the query's rows are not modelled. `rows.Next` returning false because of an error, and `rows.Scan` failing to convert, are both unchecked at db/db.go:58-61. The first makes `schemaVersion` return 0 (db/db.go:64), so every block's statements would run again. The model's query yields either all the rows or a rejection. That `rows` is never closed is not modelled either.
- Migration statements are assumed never to create, drop or write the `schema` table: `Apply` leaves the table unchanged for every `Sql` request. `Schema.UpdateSchemaPartialMigration`, `Schema.HaltOnStatementKeepsTable`, `Schema.UpdateSchemaSucceeds` and the `schema` table that `Schema.ReplaceVersion` relies on hold under that assumption. In the code, a script that runs `DROP TABLE schema;` would make the DELETE at db/db.go:93 halt. A script that inserts into `schema` would leave extra rows behind.
- Whether the engine rejects a request depends only on the request here. It is membership in `failing`, plus a missing `schema` table. Rejections that depend on earlier statements are not modelled, such as re-creating a table an earlier run already made after a lost version reset the count to 0.
- Schema.UpdateSchema: a halt is the outcome `Fatal`, which carries the message prefix `checkErr` prints but not the engine's error text after it. Ending the process is modelled as returning that outcome, with no further request issued.
- Go's `int` is 64 bits wide. The model uses unbounded integers, because neither the block counter nor a stored version comes near that width.
