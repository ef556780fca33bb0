/**
 * The Migrator of migrator.go as a class. The database behind the
 * connection is reduced to the migration table: whether it exists and the
 * versions it records. Each operation is proved to have exactly the effect
 * that module Engine gives it, and to leave the migration sets sorted the
 * way `sort.Sort` leaves them.
 */
module Migrators {
  import opened Records
  import opened Ordering
  import opened Engine

  /** The connection, reduced to its dialect, the given faults and the migration table. */
  class Connection {
    const dialect: string
    const faults: Faults
    var tableExists: bool
    var ledger: set<string>

    /** No version is recorded while the migration table does not exist. */
    ghost predicate Valid()
      reads this
    {
      !tableExists ==> ledger == {}
    }

    function State(): DbState
      reads this
    {
      DbState(tableExists, ledger)
    }

    constructor (dialect: string, faults: Faults, tableExists: bool, ledger: set<string>)
      requires !tableExists ==> ledger == {}
      ensures Valid()
      ensures this.dialect == dialect && this.faults == faults
      ensures this.tableExists == tableExists && this.ledger == ledger
    {
      this.dialect := dialect;
      this.faults := faults;
      this.tableExists := tableExists;
      this.ledger := ledger;
    }
  }

  /** The closure given to `exec`. */
  datatype Job = UpJob(versions: seq<string>) | DownJob(step: int)

  class Migrator {
    const conn: Connection
    /** Where the schema dump goes; empty for no dump. */
    var schemaPath: string
    var up: seq<Migration>
    var down: seq<Migration>

    ghost predicate Valid()
      reads this, conn
    {
      conn.Valid()
    }

    /** `NewMigrator`: a blank migrator with empty up and down sets. */
    constructor (c: Connection)
      requires c.Valid()
      ensures Valid()
      ensures conn == c && schemaPath == "" && up == [] && down == []
    {
      conn := c;
      schemaPath := "";
      up := [];
      down := [];
    }

    /** Creates the migration table unless a select on it works. */
    method CreateSchemaMigrations() returns (res: Outcome)
      requires Valid()
      modifies conn
      ensures Valid()
      ensures Effect(res, conn.State()) == Setup(old(conn.State()), conn.faults)
    {
      // opening the connection
      if conn.faults.openFails {
        return Fail(OpenFailed);
      }
      // the probe query on the table succeeds exactly when the table exists
      if conn.tableExists {
        return Ok;
      }
      // otherwise the table is created in a transaction
      if conn.faults.createFails {
        return Fail(CreateTableFailed);
      }
      conn.tableExists := true;
      return Ok;
    }

    /** The closure `m` of `Up`, applied to one record. */
    method ApplyRecord(mi: Migration) returns (res: Outcome)
      requires Valid() && conn.tableExists
      modifies conn
      ensures Valid() && conn.tableExists
      ensures res == UpStep(mi, conn.dialect, conn.faults, old(conn.ledger)).outcome
      ensures conn.ledger == UpStep(mi, conn.dialect, conn.faults, old(conn.ledger)).ledger
    {
      if mi.dbType != "all" && mi.dbType != conn.dialect {
        // a record of another dialect is skipped
        return Ok;
      }
      // is the version already recorded?
      if mi.version in conn.faults.lookupFails {
        return Fail(LookupFailed(mi.version));
      }
      if mi.version in conn.ledger {
        return Ok;
      }
      // one transaction: the body runs first and the row is inserted only after
      // it succeeded; a failed insert writes nothing, so either both take
      // effect or neither does
      if !mi.runOk {
        return Fail(RunFailed(mi.version));
      }
      if mi.version in conn.faults.writeFails {
        return Fail(InsertFailed(mi.version));
      }
      conn.ledger := conn.ledger + {mi.version};
      return Ok;
    }

    /** The closure of `Up`: sort the up set in place, then apply one record or all. */
    method RunUp(versions: seq<string>) returns (res: Outcome)
      requires Valid() && conn.tableExists && |versions| <= 1
      modifies this, conn
      ensures schemaPath == old(schemaPath)
      ensures Valid() && conn.tableExists && down == old(down)
      ensures Sorted(up, false) && multiset(up) == multiset(old(up))
      ensures res == UpBody(versions, up, conn.dialect, conn.faults, old(conn.ledger)).outcome
      ensures conn.ledger == UpBody(versions, up, conn.dialect, conn.faults, old(conn.ledger)).ledger
    {
      up := SortMigrations(up, false);
      if |versions| > 0 {
        res := ApplyPicked(up, versions[0]);
      } else {
        res := ApplyAll(up);
      }
    }

    /** Apply the first record whose name matches `v`, if there is one. */
    method ApplyPicked(mfs: seq<Migration>, v: string) returns (res: Outcome)
      requires Valid() && conn.tableExists
      modifies conn
      ensures Valid() && conn.tableExists
      ensures res == UpOne(mfs, v, conn.dialect, conn.faults, old(conn.ledger)).outcome
      ensures conn.ledger == UpOne(mfs, v, conn.dialect, conn.faults, old(conn.ledger)).ledger
    {
      var i := 0;
      while i < |mfs|
        invariant 0 <= i <= |mfs|
        invariant forall j | 0 <= j < i :: !NameMatches(mfs[j].name, v)
        invariant conn.ledger == old(conn.ledger)
      {
        if NameMatches(mfs[i].name, v) {
          assert FirstMatch(mfs, v) == Some(i);
          res := ApplyRecord(mfs[i]);
          return;
        }
        i := i + 1;
      }
      return Fail(NotFound(v));
    }

    /** Apply all remaining migrations, in order, stopping at the first error. */
    method ApplyAll(mfs: seq<Migration>) returns (res: Outcome)
      requires Valid() && conn.tableExists
      modifies conn
      ensures Valid() && conn.tableExists
      ensures res == UpRun(mfs, conn.dialect, conn.faults, old(conn.ledger)).outcome
      ensures conn.ledger == UpRun(mfs, conn.dialect, conn.faults, old(conn.ledger)).ledger
    {
      var i := 0;
      while i < |mfs|
        invariant 0 <= i <= |mfs|
        invariant Valid() && conn.tableExists
        invariant UpRun(mfs[i..], conn.dialect, conn.faults, conn.ledger).ledger
          == UpRun(mfs, conn.dialect, conn.faults, old(conn.ledger)).ledger
        invariant UpRun(mfs[i..], conn.dialect, conn.faults, conn.ledger).outcome
          == UpRun(mfs, conn.dialect, conn.faults, old(conn.ledger)).outcome
      {
        var r := ApplyRecord(mfs[i]);
        assert mfs[i..][0] == mfs[i] && mfs[i..][1..] == mfs[i + 1..];
        if r.Fail? {
          return r;
        }
        i := i + 1;
      }
      return Ok;
    }

    /** The closure of `Down`: count, sort the down set in place, trim, roll back. */
    method RunDown(step: int) returns (res: Outcome)
      requires Valid() && conn.tableExists
      modifies this, conn
      ensures schemaPath == old(schemaPath)
      ensures Valid() && conn.tableExists && up == old(up)
      ensures if conn.faults.countFails then down == old(down)
              else Sorted(down, true) && multiset(down) == multiset(old(down))
      ensures res == DownBody(step, down, conn.faults, old(conn.ledger)).outcome
      ensures conn.ledger == DownBody(step, down, conn.faults, old(conn.ledger)).ledger
    {
      // counting the recorded versions
      if conn.faults.countFails {
        return Fail(CountFailed);
      }
      var count := |conn.ledger|;
      down := SortMigrations(down, true);
      res := RollBackEach(DownCandidates(down, count, step));
    }

    /** Roll back each candidate in order, stopping at the first error or absent version. */
    method RollBackEach(mfs: seq<Migration>) returns (res: Outcome)
      requires Valid() && conn.tableExists
      modifies conn
      ensures Valid() && conn.tableExists
      ensures res == DownRun(mfs, conn.faults, old(conn.ledger)).outcome
      ensures conn.ledger == DownRun(mfs, conn.faults, old(conn.ledger)).ledger
    {
      var i := 0;
      while i < |mfs|
        invariant 0 <= i <= |mfs|
        invariant Valid() && conn.tableExists
        invariant DownRun(mfs[i..], conn.faults, conn.ledger).ledger
          == DownRun(mfs, conn.faults, old(conn.ledger)).ledger
        invariant DownRun(mfs[i..], conn.faults, conn.ledger).outcome
          == DownRun(mfs, conn.faults, old(conn.ledger)).outcome
      {
        var mi := mfs[i];
        assert mfs[i..][0] == mi && mfs[i..][1..] == mfs[i + 1..];
        // is the version recorded?
        if mi.version in conn.faults.lookupFails {
          return Fail(LookupFailed(mi.version));
        }
        if mi.version !in conn.ledger {
          // the error wrapped here is nil, so the result is nil too
          return Ok;
        }
        // one transaction: the body, then the delete; nothing is written unless both succeed
        if !mi.runOk {
          return Fail(RunFailed(mi.version));
        }
        if mi.version in conn.faults.writeFails {
          return Fail(DeleteFailed(mi.version));
        }
        conn.ledger := conn.ledger - {mi.version};
        i := i + 1;
      }
      return Ok;
    }

    /** Writes the schema dump when a schema path is configured. */
    method DumpMigrationSchema() returns (res: Outcome)
      ensures schemaPath == "" ==> res == Ok
      ensures schemaPath != "" ==> res == (if conn.faults.dumpFails then Fail(DumpFailed) else Ok)
    {
      if schemaPath == "" {
        return Ok;
      }
      // creating the dump file and writing the schema into it
      if conn.faults.dumpFails {
        return Fail(DumpFailed);
      }
      return Ok;
    }

    /** `exec`: set up the migration table, then run the job; the deferred dump's error is dropped. */
    method Exec(job: Job) returns (res: Outcome)
      requires Valid()
      requires job.UpJob? ==> |job.versions| <= 1
      modifies this, conn
      ensures schemaPath == old(schemaPath)
      ensures Valid()
      ensures job.UpJob? ==>
        Effect(res, conn.State())
          == WithSetup(old(conn.State()), conn.faults,
                       UpBody(job.versions, up, conn.dialect, conn.faults, old(conn.ledger)))
        && down == old(down)
        && if Setup(old(conn.State()), conn.faults).outcome.Ok?
           then Sorted(up, false) && multiset(up) == multiset(old(up))
           else up == old(up)
      ensures job.DownJob? ==>
        Effect(res, conn.State())
          == WithSetup(old(conn.State()), conn.faults,
                       DownBody(job.step, down, conn.faults, old(conn.ledger)))
        && up == old(up)
        && if DownSorts(old(conn.State()), conn.faults)
           then Sorted(down, true) && multiset(down) == multiset(old(down))
           else down == old(down)
    {
      var setup := CreateSchemaMigrations();
      if setup.Fail? {
        res := Fail(SchemaSetupFailed(setup.error));
      } else {
        match job
        case UpJob(versions) =>
          res := RunUp(versions);
        case DownJob(step) =>
          res := RunDown(step);
      }
      var dumped := DumpMigrationSchema();
    }

    /** `Up(version...)`: run the pending up migrations, or only the one picked. */
    method Up(versions: seq<string>) returns (res: Outcome)
      requires Valid()
      modifies this, conn
      ensures schemaPath == old(schemaPath)
      ensures Valid() && down == old(down)
      ensures Effect(res, conn.State()) == UpOp(old(conn.State()), conn.faults, conn.dialect, versions, up)
      ensures if UpSorts(old(conn.State()), conn.faults, versions)
              then Sorted(up, false) && multiset(up) == multiset(old(up))
              else up == old(up)
    {
      if |versions| > 1 {
        return Fail(TooManyVersions);
      }
      res := Exec(UpJob(versions));
    }

    /** `Down(step)`: roll back `step` migrations, or all of them when `step <= 0`. */
    method Down(step: int) returns (res: Outcome)
      requires Valid()
      modifies this, conn
      ensures schemaPath == old(schemaPath)
      ensures Valid() && up == old(up)
      ensures Effect(res, conn.State()) == DownOp(old(conn.State()), conn.faults, step, down)
      ensures if DownSorts(old(conn.State()), conn.faults)
              then Sorted(down, true) && multiset(down) == multiset(old(down))
              else down == old(down)
    {
      res := Exec(DownJob(step));
    }

    /** `Reset`: `Down(-1)`, then `Up()` when that returned nil. */
    method Reset() returns (res: Outcome)
      requires Valid()
      modifies this, conn
      ensures schemaPath == old(schemaPath)
      ensures Valid()
      ensures Effect(res, conn.State()) == ResetOp(old(conn.State()), conn.faults, conn.dialect, up, down)
      ensures if DownSorts(old(conn.State()), conn.faults)
              then Sorted(down, true) && multiset(down) == multiset(old(down))
              else down == old(down)
      ensures if DownOp(old(conn.State()), conn.faults, -1, down).outcome.Ok?
              then Sorted(up, false) && multiset(up) == multiset(old(up))
              else up == old(up)
    {
      res := Down(-1);
      if res.Fail? {
        return res;
      }
      ghost var afterDown := conn.State();
      res := Up([]);
      assert UpSorts(afterDown, conn.faults, []);
    }

    /** `Status`: one row per up record, in its stored order. */
    method Status() returns (res: Outcome, report: seq<StatusRow>)
      requires Valid()
      modifies conn
      ensures Valid()
      ensures conn.State() == Setup(old(conn.State()), conn.faults).db
      ensures Setup(old(conn.State()), conn.faults).outcome.Fail? ==>
        res == Setup(old(conn.State()), conn.faults).outcome && report == []
      ensures Setup(old(conn.State()), conn.faults).outcome.Ok? ==>
        match StatusRows(up, conn.faults, conn.ledger)
        case Success(rows) => res == Ok && report == rows
        case Failure(e) => res == Fail(e) && report == []
      // a migration table that did not exist recorded nothing, so every row is pending
      ensures !old(conn.tableExists) ==> forall i | 0 <= i < |report| :: !report[i].applied
    {
      var setup := CreateSchemaMigrations();
      if setup.Fail? {
        return setup, [];
      }
      var rows: seq<StatusRow> := [];
      var i := 0;
      while i < |up|
        invariant 0 <= i <= |up|
        invariant |rows| == i
        invariant forall j | 0 <= j < i :: up[j].version !in conn.faults.lookupFails
        invariant forall j | 0 <= j < i ::
          rows[j] == StatusRow(up[j].version, up[j].name, up[j].version in conn.ledger)
      {
        var mf := up[i];
        // is the version recorded?
        if mf.version in conn.faults.lookupFails {
          return Fail(LookupFailed(mf.version)), [];
        }
        rows := rows + [StatusRow(mf.version, mf.name, mf.version in conn.ledger)];
        i := i + 1;
      }
      return Ok, rows;
    }
  }
}
