/**
 * The storage engine handle (`*sql.DB`) as far as the migrator uses it.
 *
 * The engine's interpretation of SQL is not modelled: a migration statement
 * is an opaque request the handle records. What the model does track is the
 * one-column `schema` table holding the stored version, because
 * `schemaVersion` reads it and `updateSchema` rewrites it, and which
 * requests the engine rejects, because every rejection halts the process.
 */
module Store {

  datatype Option<T> = None | Some(value: T)

  /** A request sent to the engine through the handle, in the order issued. */
  datatype Request =
    | Sql(text: string)            // a migration statement, passed to Exec verbatim
    | CreateSchemaTable            // CREATE TABLE IF NOT EXISTS schema (version INT NOT NULL)
    | SelectVersion                // SELECT version FROM schema
    | DeleteVersions               // DELETE FROM schema
    | InsertVersion(version: int)  // INSERT INTO schema VALUES (version)

  /** The requests that the engine rejects when the `schema` table does not exist. */
  predicate NeedsTable(req: Request)
  {
    req.SelectVersion? || req.DeleteVersions? || req.InsertVersion?
  }

  /**
   * Whether the engine rejects `req`: it is one the engine is set to reject
   * (invalid SQL, an I/O fault), or it reads or writes a `schema` table that
   * does not exist.
   */
  predicate Fails(req: Request, failing: set<Request>, table: Option<seq<int>>)
  {
    req in failing || (table.None? && NeedsTable(req))
  }

  /** The rows of the `schema` table after `req` has succeeded. */
  function Apply(req: Request, table: Option<seq<int>>): Option<seq<int>>
  {
    match req
    case CreateSchemaTable => if table.None? then Some([]) else table
    case DeleteVersions => Some([])
    case InsertVersion(v) => Some((if table.Some? then table.value else []) + [v])
    case _ => table
  }

  class Database {
    /** Every request issued so far, in order. */
    var log: seq<Request>
    /** The rows of the `schema` table in the engine's result order, or None if it does not exist. */
    var table: Option<seq<int>>
    /** The requests this engine rejects. */
    const failing: set<Request>

    constructor (table: Option<seq<int>>, failing: set<Request>)
      ensures this.log == [] && this.table == table && this.failing == failing
    {
      this.log := [];
      this.table := table;
      this.failing := failing;
    }

    /** `db.Exec`: issue a request that returns no rows; `ok` is false when the engine returns an error. */
    method Exec(req: Request) returns (ok: bool)
      requires !req.SelectVersion?
      modifies this
      ensures ok == !Fails(req, failing, old(table))
      ensures log == old(log) + [req]
      ensures table == if ok then Apply(req, old(table)) else old(table)
    {
      log := log + [req];
      ok := !Fails(req, failing, table);
      if ok {
        table := Apply(req, table);
      }
    }

    /** `db.Query("SELECT version FROM schema")`: the rows, or None when the engine returns an error. */
    method QueryVersions() returns (rows: Option<seq<int>>)
      modifies this
      ensures log == old(log) + [SelectVersion]
      ensures table == old(table)
      ensures rows == if Fails(SelectVersion, failing, table) then None else table
    {
      log := log + [SelectVersion];
      rows := if Fails(SelectVersion, failing, table) then None else table;
    }
  }
}
