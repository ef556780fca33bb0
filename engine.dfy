/**
 * What the migration engine does to the migration table, as functions of
 * the table's state, the given faults and the (already sorted) migration
 * sets. The Migrator class in module Migrators is proved to do exactly this.
 */
module Engine {
  import opened Records
  import opened Ordering

  /** The state of the migration table: whether it exists, and the versions it records. */
  datatype DbState = DbState(tableExists: bool, ledger: set<string>)

  /** The error returned by an operation together with the table state it leaves. */
  datatype Effect = Effect(outcome: Outcome, db: DbState)

  /**
   * The result of running from a ledger: the new ledger, the outcome, and the
   * records that committed, in order (the records `Up` prints with "> " and
   * `Down` with "< ").
   */
  datatype Step = Step(ledger: set<string>, outcome: Outcome, done: seq<Migration>)

  /** The dialect filter of `Up`: a record runs for its own dialect or for "all". */
  predicate Eligible(m: Migration, dialect: string)
  {
    m.dbType == "all" || m.dbType == dialect
  }

  /** The versions that a bulk `Up` from ledger `L` has still to apply. */
  function PendingVersions(ms: seq<Migration>, dialect: string, L: set<string>): set<string>
  {
    set m | m in ms && Eligible(m, dialect) && m.version !in L :: m.version
  }

  // ----- CreateSchemaMigrations -----

  /**
   * Opens the connection, probes the table with a select and creates it in a
   * transaction when the probe fails.
   */
  function Setup(db: DbState, f: Faults): (e: Effect)
    ensures e.db.ledger == db.ledger
    ensures e.outcome.Ok? <==> !f.openFails && (db.tableExists || !f.createFails)
    ensures e.db.tableExists <==> db.tableExists || e.outcome.Ok?
    ensures e.outcome.Fail? ==> e.outcome.error in {OpenFailed, CreateTableFailed}
  {
    if f.openFails then Effect(Fail(OpenFailed), db)
    else if db.tableExists then Effect(Ok, db)
    else if f.createFails then Effect(Fail(CreateTableFailed), db)
    else Effect(Ok, DbState(true, db.ledger))
  }

  /** `exec`: the body runs only when setting up the table worked; its error is wrapped. */
  function WithSetup(db: DbState, f: Faults, body: Step): Effect
  {
    var s := Setup(db, f);
    if s.outcome.Fail? then Effect(Fail(SchemaSetupFailed(s.outcome.error)), s.db)
    else Effect(body.outcome, DbState(true, body.ledger))
  }

  // ----- Up -----

  /**
   * The closure `m` of `Up`: skip a record of another dialect, skip an
   * applied version, otherwise run the body and insert the version in one
   * transaction.
   */
  function UpStep(m: Migration, dialect: string, f: Faults, L: set<string>): (r: Step)
    // all or nothing: exactly the version is added, or nothing is
    ensures r.ledger == L + Versions(r.done)
    ensures |r.ledger| == |L| + |r.done|
    ensures r.done == [] || (r.done == [m] && Eligible(m, dialect) && m.version !in L)
    ensures r.outcome.Fail? ==> r.done == []
  {
    if !Eligible(m, dialect) then Step(L, Ok, [])
    else if m.version in f.lookupFails then Step(L, Fail(LookupFailed(m.version)), [])
    else if m.version in L then Step(L, Ok, [])
    else if !m.runOk then Step(L, Fail(RunFailed(m.version)), [])
    else if m.version in f.writeFails then Step(L, Fail(InsertFailed(m.version)), [])
    else Step(L + {m.version}, Ok, [m])
  }

  /** `Up()`: every record in order, stopping at the first error. */
  function UpRun(ms: seq<Migration>, dialect: string, f: Faults, L: set<string>): (r: Step)
    ensures r.ledger == L + Versions(r.done)
    decreases |ms|
  {
    if ms == [] then Step(L, Ok, [])
    else
      var s := UpStep(ms[0], dialect, f, L);
      if s.outcome.Fail? then s
      else
        var rest := UpRun(ms[1..], dialect, f, s.ledger);
        VersionsAppend(s.done, rest.done);
        Step(rest.ledger, rest.outcome, s.done + rest.done)
  }

  /**
   * The records a bulk Up applied are pending records of its set and of its
   * dialect whose lookup, body and insert all succeeded, each inserted once:
   * the ledger grows by one row per record.
   */
  lemma {:induction false} UpRunDone(ms: seq<Migration>, dialect: string, f: Faults, L: set<string>)
    ensures |UpRun(ms, dialect, f, L).ledger| == |L| + |UpRun(ms, dialect, f, L).done|
    ensures forall m | m in UpRun(ms, dialect, f, L).done :: m in ms && Eligible(m, dialect) && m.version !in L
    ensures forall m | m in UpRun(ms, dialect, f, L).done ::
      m.version !in f.lookupFails && m.runOk && m.version !in f.writeFails
    decreases |ms|
  {
    if ms != [] {
      var s := UpStep(ms[0], dialect, f, L);
      if s.outcome.Ok? {
        var rest := UpRun(ms[1..], dialect, f, s.ledger);
        UpRunDone(ms[1..], dialect, f, s.ledger);
        assert UpRun(ms, dialect, f, L) == Step(rest.ledger, rest.outcome, s.done + rest.done);
        assert forall m | m in ms[1..] :: m in ms;
      }
    }
  }

  /** `HasSuffix(s, t)`: `s` ends with `t`. */
  predicate HasSuffix(s: string, t: string)
  {
    |t| <= |s| && s[|s| - |t|..] == t
  }

  /**
   * The pattern `QuoteMeta(v) + "\.(up|down)\.(sql|fizz)$"` of `Up(v)`:
   * the name ends with `v`, a direction and an extension.
   */
  predicate NameMatches(name: string, v: string)
  {
    HasSuffix(name, v + ".up.sql") || HasSuffix(name, v + ".up.fizz")
    || HasSuffix(name, v + ".down.sql") || HasSuffix(name, v + ".down.fizz")
  }

  /** The index of the first record whose name matches `v`. */
  function FirstMatch(ms: seq<Migration>, v: string): (r: Option<nat>)
    ensures r.Some? ==> r.value < |ms| && NameMatches(ms[r.value].name, v)
    ensures r.Some? ==> forall j | 0 <= j < r.value :: !NameMatches(ms[j].name, v)
    ensures r.None? <==> forall j | 0 <= j < |ms| :: !NameMatches(ms[j].name, v)
  {
    if ms == [] then None
    else if NameMatches(ms[0].name, v) then Some(0)
    else match FirstMatch(ms[1..], v)
      case None => None
      case Some(k) => Some(k + 1)
  }

  /** `Up(v)`: only the first record whose name matches `v` is considered. */
  function UpOne(ms: seq<Migration>, v: string, dialect: string, f: Faults, L: set<string>): (r: Step)
    ensures r.ledger == L + Versions(r.done)
    ensures |r.done| <= 1
    ensures r.done != [] ==> exists i | 0 <= i < |ms| ::
      (r.done[0] == ms[i] && NameMatches(ms[i].name, v) && (forall j | 0 <= j < i :: !NameMatches(ms[j].name, v)))
    ensures (forall j | 0 <= j < |ms| :: !NameMatches(ms[j].name, v)) <==> r == Step(L, Fail(NotFound(v)), [])
    ensures FirstMatch(ms, v).Some? ==> r == UpStep(ms[FirstMatch(ms, v).value], dialect, f, L)
  {
    match FirstMatch(ms, v)
    case None => Step(L, Fail(NotFound(v)), [])
    case Some(i) => UpStep(ms[i], dialect, f, L)
  }

  /** The closure of `Up`, once the table is set up and the set sorted. */
  function UpBody(versions: seq<string>, sortedUp: seq<Migration>, dialect: string, f: Faults, L: set<string>): Step
    requires |versions| <= 1
  {
    if |versions| == 0 then UpRun(sortedUp, dialect, f, L)
    else UpOne(sortedUp, versions[0], dialect, f, L)
  }

  /** `Up(versions...)` on the table state `db`, given the up set as sorted. */
  function UpOp(db: DbState, f: Faults, dialect: string, versions: seq<string>, sortedUp: seq<Migration>): (e: Effect)
    ensures |versions| > 1 ==> e == Effect(Fail(TooManyVersions), db)
    ensures db.ledger <= e.db.ledger
    ensures forall v | v in e.db.ledger - db.ledger ::
      exists i | 0 <= i < |sortedUp| :: sortedUp[i].version == v && Eligible(sortedUp[i], dialect)
  {
    if |versions| > 1 then Effect(Fail(TooManyVersions), db)
    else
      var body := UpBody(versions, sortedUp, dialect, f, db.ledger);
      UpRunDone(sortedUp, dialect, f, db.ledger);
      assert forall m | m in body.done :: m in sortedUp && Eligible(m, dialect);
      WithSetup(db, f, body)
  }

  /** Whether `Up(versions...)` gets as far as sorting the up set. */
  predicate UpSorts(db: DbState, f: Faults, versions: seq<string>)
  {
    |versions| <= 1 && Setup(db, f).outcome.Ok?
  }

  // ----- Down -----

  function Min(a: int, b: int): int
  {
    if a <= b then a else b
  }

  /**
   * The reslicing of `Down`: keep the last `count` records of the descending
   * set (the lowest versions), then, when `step > 0` and enough remain, the
   * first `step` of those.
   */
  function DownCandidates(ms: seq<Migration>, count: nat, step: int): (r: seq<Migration>)
    ensures |r| <= count
    ensures step > 0 ==> |r| <= step
    ensures |r| == if step > 0 then Min(step, Min(|ms|, count)) else Min(|ms|, count)
    ensures r == ms[|ms| - Min(|ms|, count)..|ms| - Min(|ms|, count) + |r|]
  {
    var trimmed := if |ms| > count then ms[|ms| - count..] else ms;
    if step > 0 && |trimmed| >= step then trimmed[..step] else trimmed
  }

  /** The candidate is present, its body succeeds and its row can be deleted. */
  predicate RollsBack(m: Migration, f: Faults, L: set<string>)
  {
    m.version !in f.lookupFails && m.version in L && m.runOk && m.version !in f.writeFails
  }

  /**
   * What `Down` returns for the candidate at which it stops. An absent version
   * (with no lookup error) ends `Down` with nil: `errors.Wrapf` of a nil error is nil.
   */
  function DownHalt(m: Migration, f: Faults, L: set<string>): Outcome
  {
    if m.version in f.lookupFails then Fail(LookupFailed(m.version))
    else if m.version !in L then Ok
    else if !m.runOk then Fail(RunFailed(m.version))
    else Fail(DeleteFailed(m.version))
  }

  /** The loop of `Down` over the candidates. */
  function DownRun(ms: seq<Migration>, f: Faults, L: set<string>): (r: Step)
    // the rolled back records are the candidates' prefix, each one removing its own row
    ensures |r.done| <= |ms|
    ensures r.done == ms[..|r.done|]
    ensures Versions(r.done) <= L
    ensures r.ledger == L - Versions(r.done)
    // the loop stops only at a candidate that does not roll back, and returns what that one gives
    ensures |r.done| == |ms| ==> r.outcome == Ok
    ensures |r.done| < |ms| ==>
      !RollsBack(ms[|r.done|], f, r.ledger) && r.outcome == DownHalt(ms[|r.done|], f, r.ledger)
    decreases |ms|
  {
    if ms == [] then Step(L, Ok, [])
    else
      var m := ms[0];
      if !RollsBack(m, f, L) then Step(L, DownHalt(m, f, L), [])
      else
        var rest := DownRun(ms[1..], f, L - {m.version});
        assert [m] + rest.done == ms[..|rest.done| + 1] by {
          assert rest.done == ms[1..][..|rest.done|];
        }
        assert |rest.done| < |ms| - 1 ==> ms[1..][|rest.done|] == ms[|rest.done| + 1];
        VersionsAppend([m], rest.done);
        assert Versions([m]) == {m.version};
        assert rest.ledger == L - Versions([m] + rest.done);
        Step(rest.ledger, rest.outcome, [m] + rest.done)
  }

  /**
   * Each rolled back candidate was found in the ledger as it stood when the
   * loop reached it, and its body and its delete succeeded.
   */
  lemma {:induction false} DownRunRolledBack(ms: seq<Migration>, f: Faults, L: set<string>)
    ensures forall k | 0 <= k < |DownRun(ms, f, L).done| :: RollsBack(ms[k], f, L - Versions(ms[..k]))
    decreases |ms|
  {
    if ms != [] && RollsBack(ms[0], f, L) {
      var m := ms[0];
      var rest := DownRun(ms[1..], f, L - {m.version});
      DownRunRolledBack(ms[1..], f, L - {m.version});
      assert |DownRun(ms, f, L).done| == 1 + |rest.done|;
      forall k | 0 <= k < 1 + |rest.done|
        ensures RollsBack(ms[k], f, L - Versions(ms[..k]))
      {
        if k == 0 {
          assert ms[..0] == [];
        } else {
          assert ms[k] == ms[1..][k - 1];
          assert ms[..k] == [m] + ms[1..][..k - 1];
          VersionsAppend([m], ms[1..][..k - 1]);
          assert Versions([m]) == {m.version};
          assert L - Versions(ms[..k]) == L - {m.version} - Versions(ms[1..][..k - 1]);
        }
      }
    }
  }

  /** Each rolled back candidate removes exactly one row. */
  lemma {:induction false} DownRunCount(ms: seq<Migration>, f: Faults, L: set<string>)
    ensures |DownRun(ms, f, L).ledger| + |DownRun(ms, f, L).done| == |L|
    decreases |ms|
  {
    if ms != [] && RollsBack(ms[0], f, L) {
      DownRunCount(ms[1..], f, L - {ms[0].version});
      assert |L - {ms[0].version}| == |L| - 1;
    }
  }

  /** The closure of `Down`, once the table is set up, given the down set as sorted. */
  function DownBody(step: int, sortedDown: seq<Migration>, f: Faults, L: set<string>): Step
  {
    if f.countFails then Step(L, Fail(CountFailed), [])
    else DownRun(DownCandidates(sortedDown, |L|, step), f, L)
  }

  /** `Down(step)` on the table state `db`, given the down set as sorted. */
  function DownOp(db: DbState, f: Faults, step: int, sortedDown: seq<Migration>): (e: Effect)
    ensures e.db.ledger <= db.ledger
    ensures |db.ledger| - |e.db.ledger| <= Min(|sortedDown|, |db.ledger|)
    ensures step > 0 ==> |db.ledger| - |e.db.ledger| <= step
    ensures forall v | v in db.ledger - e.db.ledger ::
      exists i | 0 <= i < |sortedDown| :: sortedDown[i].version == v
  {
    DownBodyShrinks(step, sortedDown, f, db.ledger);
    WithSetup(db, f, DownBody(step, sortedDown, f, db.ledger))
  }

  /** The closure of `Down` only removes versions, within the trimming's bounds. */
  lemma DownBodyShrinks(step: int, sortedDown: seq<Migration>, f: Faults, L: set<string>)
    ensures DownBody(step, sortedDown, f, L).ledger <= L
    ensures |L| - |DownBody(step, sortedDown, f, L).ledger| <= Min(|sortedDown|, |L|)
    ensures step > 0 ==> |L| - |DownBody(step, sortedDown, f, L).ledger| <= step
    ensures forall v | v in L - DownBody(step, sortedDown, f, L).ledger ::
      exists i | 0 <= i < |sortedDown| :: sortedDown[i].version == v
  {
    if !f.countFails {
      var cands := DownCandidates(sortedDown, |L|, step);
      DownRunCount(cands, f, L);
      DownBodyFromDownSet(step, sortedDown, f, L);
    }
  }

  /** Every version the closure of `Down` removes is the version of a record of the down set. */
  lemma DownBodyFromDownSet(step: int, sortedDown: seq<Migration>, f: Faults, L: set<string>)
    requires !f.countFails
    ensures forall v | v in L - DownBody(step, sortedDown, f, L).ledger ::
      exists i | 0 <= i < |sortedDown| :: sortedDown[i].version == v
  {
    var run := DownRun(DownCandidates(sortedDown, |L|, step), f, L);
    forall v | v in L - run.ledger
      ensures exists i | 0 <= i < |sortedDown| :: sortedDown[i].version == v
    {
      assert v in Versions(run.done);
      var k :| 0 <= k < |run.done| && run.done[k].version == v;
      CandidateIndex(sortedDown, |L|, step, run.done, k);
    }
  }

  /** The `k`-th of the candidates rolled back is the `k`-th record after the trimmed-off ones. */
  lemma CandidateIndex(s: seq<Migration>, count: nat, step: int, done: seq<Migration>, k: nat)
    requires |done| <= |DownCandidates(s, count, step)|
    requires done == DownCandidates(s, count, step)[..|done|] && k < |done|
    ensures |s| - Min(|s|, count) + k < |s| && done[k] == s[|s| - Min(|s|, count) + k]
  {
  }

  /** Whether `Down` gets as far as sorting the down set. */
  predicate DownSorts(db: DbState, f: Faults)
  {
    Setup(db, f).outcome.Ok? && !f.countFails
  }

  // ----- Reset -----

  /** `Reset`: `Down(-1)`, then `Up()` only when that returned nil. */
  function ResetOp(db: DbState, f: Faults, dialect: string, sortedUp: seq<Migration>, sortedDown: seq<Migration>): Effect
  {
    var d := DownOp(db, f, -1, sortedDown);
    if d.outcome.Fail? then d else UpOp(d.db, f, dialect, [], sortedUp)
  }

  // ----- Status -----

  /** One line of the status report. */
  datatype StatusRow = StatusRow(version: string, name: string, applied: bool)

  /** The loop of `Status`: one row per record, in the stored order, or the first lookup error. */
  function StatusRows(ms: seq<Migration>, f: Faults, L: set<string>): (r: Result<seq<StatusRow>>)
    ensures r.Success? <==> forall i | 0 <= i < |ms| :: ms[i].version !in f.lookupFails
    ensures r.Success? ==> |r.value| == |ms|
    ensures r.Success? ==> forall i | 0 <= i < |ms| ::
      r.value[i] == StatusRow(ms[i].version, ms[i].name, ms[i].version in L)
    ensures r.Failure? ==> exists i | 0 <= i < |ms| ::
      (r.error == LookupFailed(ms[i].version) && ms[i].version in f.lookupFails
       && (forall j | 0 <= j < i :: ms[j].version !in f.lookupFails))
  {
    if ms == [] then Success([])
    else if ms[0].version in f.lookupFails then Failure(LookupFailed(ms[0].version))
    else match StatusRows(ms[1..], f, L)
      case Failure(e) => Failure(e)
      case Success(rows) => Success([StatusRow(ms[0].version, ms[0].name, ms[0].version in L)] + rows)
  }
}
