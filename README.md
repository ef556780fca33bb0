# Migration engine of pop, in Dafny

This project models the migration engine of the `pop` database toolkit (`migrator.go`). It covers the `Migrator` methods:

- `Up`, which applies pending up migrations, or the single one picked by name;
- `Down`, which rolls back a number of migrations;
- `Reset`, which is `Down(-1)` followed by `Up()`;
- `Status`, which reports each up migration as applied or pending;
- `CreateSchemaMigrations`, which creates the migration table;
- the `exec` wrapper shared by `Up` and `Down`;
- `NewMigrator`.

The database is reduced to the migration table: whether it exists, and the set of versions it records (the ledger). Set semantics is valid because the version column is unique.

Every call into the connection can fail:

- `Open`;
- the table DDL;
- `Count`;
- the `Exists` lookup;
- the row insert or delete.

The model takes the outcome of each of these calls as a fixed given value (`Records.Faults`). Each migration body's outcome is a given `runOk` flag on its record.

The project has two layers.

- **Specification.** Module `Engine` holds one pure function per step a method takes:
  - `UpStep` is the closure `m` of `Up`;
  - `UpRun` is the bulk loop;
  - `UpOne` is the picked-version loop;
  - `DownCandidates` is Down's reslicing;
  - `DownRun` is Down's loop;
  - `UpOp`, `DownOp` and `ResetOp` are the whole operations;
  - `StatusRows` is the status loop.
- **Implementation.** Module `Migrators` holds classes `Connection` and `Migrator`. Their methods have the source's loops and early returns. Each method is proved to have exactly the effect its `Engine` function gives, on the result and on the new table state. `sort.Sort` reorders the stored up and down sets in place, and the methods do the same to the `up` and `down` fields. So a later `Status` reports in sorted order.

The properties are proved in module `Properties`:

- fail-fast;
- ordering;
- idempotence of a second `Up`;
- Down's trimming;
- Reset's round trip.

Module `Scenarios` is a client that drives a concrete migrator with two migrations through `Up`, `Up` again and `Status`, using only the contracts.

Versions are ordered as strings, character by character (`Ordering.VersionLess`): this is how Go's `<` compares strings. The sort is specified by its result: sorted and a permutation of its input.

### Down and an absent version

The guard at migrator.go:126, `err != nil || !exists`, treats a candidate with no matching ledger row like a failed lookup. It wraps the result with "problem checking for migration version", which shows an error was meant. But when the lookup itself succeeded, `err` is nil there (migrator.go:125-127), so the call is `errors.Wrapf(nil, ...)`. `Wrapf` of nil is nil, so `Down` stops and returns nil. The model follows the code (`Engine.DownHalt`). `Properties.GapInLedgerRollsBackNothing` shows the consequence: a ledger {1, 3} with down set [3, 2, 1] and `Down(-1)` trims to the candidates [2, 1]. It then stops at 2 and returns nil with nothing rolled back.

## Model

| member | source | states |
|---|---|---|
| Migrators.Migrator.constructor | migrator.go:21-29 | A new migrator has empty up and down sets and no schema path, on the given connection. The schema path is a public field that a caller may set afterwards, as in the source. |
| Migrators.Migrator.CreateSchemaMigrations | migrator.go:158-182 | The outcome and the new table state are those of `Engine.Setup`. |
| Engine.Setup | migrator.go:158-182 | Never changes the ledger. Succeeds iff the open works and either the table exists or creating it works. Afterwards the table exists iff it existed before or setup succeeded. Its errors are only the open or create errors. |
| Properties.SetupIdempotent | migrator.go:156-168 | After a successful setup, a second setup succeeds and changes nothing. |
| Engine.WithSetup | migrator.go:225-235 | Defines `exec` on values: a setup error is returned wrapped, with the table as setup left it and the closure not run. Otherwise the closure's outcome and ledger are returned, with the table existing. |
| Migrators.Migrator.Exec | migrator.go:225-235 | Setup runs first. A setup error is wrapped and the job never runs. Otherwise the job's outcome and ledger are returned, and the set the job sorts is sorted in place. The deferred dump's result is dropped. The schema path is unchanged. |
| Migrators.Migrator.DumpMigrationSchema | migrator.go:208-223 | With an empty schema path it returns nil. Otherwise it returns the dump's given outcome. |
| Migrators.Migrator.Up | migrator.go:43-102 | More than one version fails with nothing changed and the set unsorted. Otherwise it has the effect of `Engine.UpOp`, and leaves the up set sorted and permuted once setup works. The schema path is unchanged. |
| Engine.UpOp | migrator.go:43-102 | More than one version gives `TooManyVersions` with the table untouched. The ledger only grows. Every added version is the version of an up record of the active dialect. |
| Engine.UpBody | migrator.go:80-100 | Defines the closure of `Up` on a sorted set: `UpOne` when a version is picked, `UpRun` otherwise. |
| Migrators.Migrator.RunUp | migrator.go:48-101 | Sorts the up set ascending, keeping it a permutation. Then its effect is `UpOne` for a picked version or `UpRun` otherwise. The schema path is unchanged. |
| Migrators.Migrator.ApplyRecord | migrator.go:53-78 | Outcome and ledger are those of `Engine.UpStep`. |
| Engine.Eligible | migrator.go:54 | Defines the dialect filter: a record runs when its database type is "all" or the active dialect's name. |
| Engine.UpStep | migrator.go:53-78 | Adds exactly the versions it reports as applied: none, or this record's version. It applies only an eligible record whose version is not yet applied. A failure applies nothing. |
| Properties.UpStepCases | migrator.go:53-75 | A record of another dialect, or an already applied one, is skipped with nil. The version is applied iff it is eligible, not yet applied, and the lookup, the body and the insert all succeed. It fails iff it is eligible and the lookup fails, or the record is unapplied and the body or the insert fails. The error is the lookup, run or insert error of this version. |
| Migrators.Migrator.ApplyAll | migrator.go:94-100 | The loop's outcome and ledger are those of `Engine.UpRun` on its sequence. |
| Engine.UpRun | migrator.go:94-100 | The new ledger is the old one plus exactly the versions of the records it applied. |
| Engine.UpRunDone | migrator.go:94-100 | Each applied record belongs to the set, is of the active dialect and was pending. Its lookup, its body and its insert all succeeded, so a record whose step fails is never applied. The ledger grows by one row per applied record. |
| Properties.UpRunFailFast | migrator.go:95-99 | A failing bulk Up has a first failing record `k`. The records before `k` ran without error. The run ended at `k` with that record's error, and the ledger and applied list of the records before `k`. |
| Properties.UpRunOk | migrator.go:95-100 | A bulk Up without error leaves exactly the old ledger plus the pending versions of the active dialect. |
| Properties.UpRunOkCovers | migrator.go:95-100 | After a bulk Up without error, every record of the active dialect reads without a lookup error and its version is in the ledger. |
| Properties.UpRunNothingPending | migrator.go:54-64 | When every record of the dialect is applied and readable, a bulk Up succeeds and changes nothing. |
| Properties.UpRunIdempotent | migrator.go:94-100 | A second bulk Up over any permutation of the same set, from the ledger the first left, succeeds and adds nothing. |
| Properties.UpTwiceAddsNothing | migrator.go:43-101 | When a first `Up()` succeeded, a second `Up()` over the same up set, in any order, returns what the first returned and leaves the same table state. |
| Properties.UpRunInOrder | migrator.go:51 | Over an ascending set, the applied records are in strictly ascending version order. |
| Properties.UpRunSucceeds | migrator.go:95-100 | When no record of the dialect meets a lookup, body or insert error, a bulk Up returns nil. |
| Migrators.Migrator.ApplyPicked | migrator.go:80-93 | Outcome and ledger are those of `Engine.UpOne`. |
| Engine.NameMatches | migrator.go:83-85 | Defines the picked-version pattern as a suffix test: the name ends in the version, then `.up` or `.down`, then `.sql` or `.fizz`. |
| Engine.FirstMatch | migrator.go:83-91 | Finds the first record whose name matches; none iff no record's name matches. |
| Engine.UpOne | migrator.go:80-93 | When some name matches, the result is exactly the single-record step (`UpStep`) of the first matching record. With no match it fails `NotFound` and leaves the ledger unchanged. It never applies more than that one record. |
| Properties.UpOneAppliesFirstMatch | migrator.go:80-90 | With nothing failing, `Up(v)` applies exactly the first record whose name matches, when that record is of the active dialect, its body succeeds and it is pending. |
| Migrators.Migrator.Down | migrator.go:106-145 | Has the effect of `Engine.DownOp`. The down set is sorted descending and permuted exactly when setup and count succeed. The schema path is unchanged. |
| Migrators.Migrator.RunDown | migrator.go:108-144 | A count failure is returned with nothing changed. Otherwise it sorts descending, trims, and rolls back as `DownRun` on the trimmed candidates. The schema path is unchanged. |
| Engine.DownBody | migrator.go:110-143 | Defines the closure of `Down` on a sorted set: a count failure changes nothing; otherwise `DownRun` over the trimmed candidates, with the ledger size as the count. |
| Engine.DownOp | migrator.go:106-145 | The ledger only shrinks. It loses at most min(down set size, ledger size) versions, and at most `step` when `step > 0`. Every removed version is a version of the down set. |
| Engine.DownBodyShrinks | migrator.go:110-143 | The closure of `Down` only removes versions. It removes at most min(down set size, ledger size) of them, and at most `step` when `step > 0`. Each removed version belongs to a record of the down set. |
| Engine.DownCandidates | migrator.go:114-123 | The candidates number at most `count`, and at most `step` when `step > 0`. There are exactly min(step, min(size, count)) of them when `step > 0`, else min(size, count). They are a contiguous run starting at the last min(size, count) records. |
| Migrators.Migrator.RollBackEach | migrator.go:124-143 | The loop's outcome and ledger are those of `Engine.DownRun`. |
| Engine.RollsBack | migrator.go:125-136 | Defines when a candidate rolls back: its lookup succeeds, its version is recorded, its body succeeds and its delete succeeds. |
| Engine.DownHalt | migrator.go:125-139 | Defines what `Down` returns at a candidate that does not roll back: the lookup error, nil for an absent version, the body's error, or the delete error, in that order. |
| Engine.DownRun | migrator.go:124-143 | Rolls back a prefix of the candidates, removing exactly their versions, which were all present. A full run returns nil. Otherwise it stops at the first candidate that does not roll back and returns that candidate's error, or nil when its version is absent. That every candidate before it did roll back is `Engine.DownRunRolledBack`. |
| Engine.DownRunRolledBack | migrator.go:124-136 | Every rolled back candidate rolled back: it was found in the ledger as the loop left it, and its lookup, its body and its delete succeeded. A failing candidate is never removed. |
| Engine.DownRunCount | migrator.go:124-143 | Each rolled back candidate removes exactly one ledger row. |
| Properties.DownRunAllPresent | migrator.go:124-143 | Distinct candidates that can all be rolled back are all rolled back, removing exactly their versions, with nil. |
| Properties.DownStepsRollsBackNewest | migrator.go:106-145 | Take a descending down set with pairwise distinct versions, and a ledger that holds exactly those versions. Every body succeeds and nothing else fails. Then `Down(step)` with 0 < step <= size returns nil. It removes the first `step` versions of the descending set, so `step` rows go. Every version left is lower than every version removed. |
| Properties.DownRollsBackAppliedSuffix | migrator.go:104-145 | Take a down set with pairwise distinct versions whose `c` lowest versions are exactly the ledger, the newer ones pending. Every body succeeds and nothing else fails. Then `Down(step)` returns nil and removes exactly the first min(step, c) applied versions in descending order, or all `c` of them when `step <= 0`. |
| Properties.GapInLedgerRollsBackNothing | migrator.go:117-127 | Ledger {1, 3} with down set [3, 2, 1]: `Down(-1)` stops at the absent version 2 and returns nil with the ledger unchanged. |
| Engine.ResetOp | migrator.go:148-154 | Defines `Reset` on values: `Down(-1)`, and when that fails its result; otherwise `Up()` from the state `Down` left. |
| Migrators.Migrator.Reset | migrator.go:148-154 | Has the effect of `Engine.ResetOp`: `Down(-1)`, then `Up()` only when `Down` returned nil. Each set is sorted exactly when its operation got that far. The schema path is unchanged. |
| Properties.ResetReappliesEverything | migrator.go:148-154 | Take a down set with pairwise distinct versions, and a ledger that holds exactly those versions. Every body succeeds and nothing else fails. Then `Reset` returns nil and leaves exactly the versions of the up records of the active dialect. |
| Migrators.Migrator.Status | migrator.go:185-204 | A setup error is returned with an empty report. Otherwise it returns `Engine.StatusRows` of the stored up set: the rows, or the first lookup error with an empty report. When the migration table did not exist before the call, every row is pending. |
| Engine.StatusRows | migrator.go:192-202 | Succeeds iff no record's lookup fails. There is one row per record, in stored order, and a row is applied iff its version is in the ledger. A failure carries the lookup error of the first faulty record. |
| Properties.StatusAfterUp | migrator.go:185-204 | After a bulk Up without error, Status reports a record as applied iff its version was applied before or by that Up. |
| Ordering.SortMigrations | migrator.go:51 | `sort.Sort`: the result is sorted, ascending or descending, and a permutation of the input. |
| Ordering.InsertSorted | migrator.go:115 | Inserting into a sorted sequence keeps it sorted and adds exactly one occurrence of the record. |
| Ordering.VersionLessTotal | migrator.go:51 | Any two distinct versions are ordered one way or the other. |
| Ordering.VersionLessTransitive | migrator.go:51 | The version order is transitive. |
| Ordering.VersionLessIrreflexive | migrator.go:51 | No version is below itself. |
| Scenarios.FreshUpOfPair | migrator.go:43-102 | On a database without the table, `Up()` over versions 1 and 2 of every dialect creates the table and applies both. |

## Left out

- Console output is not modelled: the `fmt.Printf` progress lines and the tabwriter of `Status`. `Status` returns its rows instead of printing them. An error from `Flush` is not modelled.
- `printTimer` and `time.Now` are not modelled; they are wall-clock time and floating-point formatting.
- The schema dump is modelled as a given outcome, with nil when the schema path is empty. File creation and the dialect's `DumpSchema` are I/O.
- SQL text and the Fizz translator are not modelled. The table probe reads `tableExists`; creating the table sets it.
- `Connection` internals (`Open`, `Where`/`Exists`, `Count`, `Transaction`) are foreign code. Each is reduced to its effect on the table and ledger, with its failure given by `Faults`. A failing transaction begin or commit is not modelled separately; its effect is the same as a failed insert or delete. The given outcomes are fixed per version, so a lookup of the same version always gives the same answer.
- Migration bodies are opaque: each has a given success or failure. A body's effect on the rest of the schema is not modelled.
- The file-name regex `mrx` is not modelled; it belongs to migration discovery. `Up(v)`'s pattern is modelled as a plain suffix test (`Engine.NameMatches`).
- `Migrations.Less` is not part of this model. Versions are compared as strings. The sort need not be stable.
- Concurrency is not modelled. First-time table creation by several processes at once is out of scope.
- Error messages and stacks are not modelled. Wrapping keeps the error's kind; only `exec`'s wrapping of a setup error is visible (`SchemaSetupFailed`).
