/**
 * The values the migration engine works with: one migration record, the
 * outcomes that the database and the migration bodies are given to have,
 * and the errors the engine reports.
 */
module Records {

  /**
   * One migration record of the "up" or the "down" set. The body is opaque
   * to the engine; whether it succeeds when run inside its transaction is
   * given by `runOk`.
   */
  datatype Migration = Migration(version: string, name: string, dbType: string, runOk: bool)

  /**
   * Outcomes of the calls into the database connection, which the engine
   * cannot see: each is fixed for the whole model.
   *  - openFails: `Connection.Open` returns an error
   *  - createFails: building or executing the DDL of the migration table fails
   *  - countFails: counting the rows of the migration table fails
   *  - lookupFails: the versions whose existence query returns an error
   *  - writeFails: the versions whose row insert or row delete returns an error
   *  - dumpFails: writing the schema dump file fails
   */
  datatype Faults = Faults(
    openFails: bool,
    createFails: bool,
    countFails: bool,
    lookupFails: set<string>,
    writeFails: set<string>,
    dumpFails: bool)

  /** The faults of a database on which nothing goes wrong. */
  const NoFaults := Faults(false, false, false, {}, {}, false)

  /** The errors the engine returns; wrapping with a message or a stack leaves the kind as it is. */
  datatype Error =
    | TooManyVersions
    | OpenFailed
    | CreateTableFailed
    | SchemaSetupFailed(cause: Error)
    | CountFailed
    | LookupFailed(version: string)
    | RunFailed(version: string)
    | InsertFailed(version: string)
    | DeleteFailed(version: string)
    | NotFound(requested: string)
    | DumpFailed

  /** A Go `error` result: nil or an error. */
  datatype Outcome = Ok | Fail(error: Error)

  datatype Option<T> = None | Some(value: T)

  datatype Result<T> = Success(value: T) | Failure(error: Error)

  /** The set of versions of a sequence of records. */
  function Versions(ms: seq<Migration>): set<string>
  {
    set m | m in ms :: m.version
  }

  lemma VersionsAppend(a: seq<Migration>, b: seq<Migration>)
    ensures Versions(a + b) == Versions(a) + Versions(b)
  {
    assert forall m :: m in a + b <==> m in a || m in b;
  }

  /** No two records of the sequence share a version. */
  predicate DistinctVersions(ms: seq<Migration>)
  {
    forall i, j | 0 <= i < j < |ms| :: ms[i].version != ms[j].version
  }
}
