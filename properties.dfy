/**
 * Properties of the engine: fail-fast and ordering of a bulk Up, its
 * idempotence, Down's trimming on a consistent ledger, and Reset as a round
 * trip through an empty ledger.
 */
module Properties {
  import opened Records
  import opened Ordering
  import opened Engine

  lemma {:induction false} DistinctVersionsCard(ms: seq<Migration>)
    requires DistinctVersions(ms)
    ensures |Versions(ms)| == |ms|
    decreases |ms|
  {
    if ms != [] {
      var t := ms[1..];
      DistinctTail(ms);
      DistinctVersionsCard(t);
      assert ms == [ms[0]] + t;
      VersionsAppend([ms[0]], t);
      assert Versions([ms[0]]) == {ms[0].version};
    }
  }

  /** Without its first record, a sequence of distinct versions stays distinct and lacks that version. */
  lemma DistinctTail(ms: seq<Migration>)
    requires DistinctVersions(ms) && ms != []
    ensures DistinctVersions(ms[1..]) && ms[0].version !in Versions(ms[1..])
  {
    var t := ms[1..];
    forall i, j | 0 <= i < j < |t|
      ensures t[i].version != t[j].version
    {
      assert t[i] == ms[i + 1] && t[j] == ms[j + 1];
    }
    forall m | m in t
      ensures m.version != ms[0].version
    {
      var i :| 0 <= i < |t| && t[i] == m;
      assert t[i] == ms[i + 1];
    }
  }

  // ----- CreateSchemaMigrations -----

  /** Setting up the table a second time changes nothing. */
  lemma SetupIdempotent(db: DbState, f: Faults)
    requires Setup(db, f).outcome.Ok?
    ensures Setup(Setup(db, f).db, f) == Effect(Ok, Setup(db, f).db)
  {
  }

  // ----- Up -----

  /**
   * One record of `Up`: a record of another dialect or an applied version is
   * skipped with nil; otherwise the version is inserted exactly when the
   * lookup, the body and the insert all succeed, and the error of the first
   * that fails is returned.
   */
  lemma UpStepCases(m: Migration, dialect: string, f: Faults, L: set<string>)
    ensures !Eligible(m, dialect) ==> UpStep(m, dialect, f, L) == Step(L, Ok, [])
    ensures Eligible(m, dialect) && m.version !in f.lookupFails && m.version in L ==>
      UpStep(m, dialect, f, L) == Step(L, Ok, [])
    ensures UpStep(m, dialect, f, L).done == [m] <==>
      Eligible(m, dialect) && m.version !in L && m.version !in f.lookupFails && m.runOk && m.version !in f.writeFails
    ensures UpStep(m, dialect, f, L).outcome.Fail? <==>
      Eligible(m, dialect) && (m.version in f.lookupFails || (m.version !in L && (!m.runOk || m.version in f.writeFails)))
    ensures UpStep(m, dialect, f, L).outcome.Fail? ==>
      UpStep(m, dialect, f, L).outcome.error in {LookupFailed(m.version), RunFailed(m.version), InsertFailed(m.version)}
  {
  }

  /**
   * The bulk run failed at record `k`: everything before it ran without
   * error, record `k` failed, and the run ended there with the prefix's ledger.
   */
  predicate UpFailsAt(ms: seq<Migration>, k: nat, dialect: string, f: Faults, L: set<string>)
    requires k < |ms|
  {
    var p := UpRun(ms[..k], dialect, f, L);
    var failed := UpStep(ms[k], dialect, f, p.ledger);
    p.outcome.Ok? && failed.outcome.Fail?
    && UpRun(ms, dialect, f, L) == Step(p.ledger, failed.outcome, p.done)
  }

  lemma PrefixTail(ms: seq<Migration>, k: nat)
    requires k < |ms|
    ensures ms[..k + 1] != [] && ms[..k + 1][0] == ms[0] && ms[..k + 1][1..] == ms[1..][..k]
  {
  }

  /** A failing bulk Up stops at its first failing record, and nothing after it runs. */
  lemma {:induction false} UpRunFailFast(ms: seq<Migration>, dialect: string, f: Faults, L: set<string>)
    requires UpRun(ms, dialect, f, L).outcome.Fail?
    ensures exists k | 0 <= k < |ms| :: UpFailsAt(ms, k, dialect, f, L)
    decreases |ms|
  {
    var s := UpStep(ms[0], dialect, f, L);
    if s.outcome.Fail? {
      assert ms[..0] == [];
      assert UpFailsAt(ms, 0, dialect, f, L);
    } else {
      var rest := UpRun(ms[1..], dialect, f, s.ledger);
      assert UpRun(ms, dialect, f, L) == Step(rest.ledger, rest.outcome, s.done + rest.done);
      UpRunFailFast(ms[1..], dialect, f, s.ledger);
      var k :| 0 <= k < |ms| - 1 && UpFailsAt(ms[1..], k, dialect, f, s.ledger);
      var p' := UpRun(ms[1..][..k], dialect, f, s.ledger);
      var failed := UpStep(ms[1..][k], dialect, f, p'.ledger);
      assert rest == Step(p'.ledger, failed.outcome, p'.done);
      PrefixTail(ms, k);
      assert UpRun(ms[..k + 1], dialect, f, L) == Step(p'.ledger, p'.outcome, s.done + p'.done);
      assert ms[1..][k] == ms[k + 1];
      assert UpFailsAt(ms, k + 1, dialect, f, L);
    }
  }

  /** A bulk Up without error applies exactly the pending versions of its dialect. */
  lemma {:induction false} UpRunOk(ms: seq<Migration>, dialect: string, f: Faults, L: set<string>)
    requires UpRun(ms, dialect, f, L).outcome.Ok?
    ensures UpRun(ms, dialect, f, L).ledger == L + PendingVersions(ms, dialect, L)
    decreases |ms|
  {
    if ms != [] {
      var m := ms[0];
      var s := UpStep(m, dialect, f, L);
      UpRunOk(ms[1..], dialect, f, s.ledger);
      PendingUnfold(ms, dialect, L, s.ledger);
    }
  }

  /** The pending versions after the first record has been applied or skipped. */
  lemma PendingUnfold(ms: seq<Migration>, dialect: string, L: set<string>, L': set<string>)
    requires ms != []
    requires L' == L + (if Eligible(ms[0], dialect) && ms[0].version !in L then {ms[0].version} else {})
    ensures L + PendingVersions(ms, dialect, L) == L' + PendingVersions(ms[1..], dialect, L')
  {
    var m := ms[0];
    forall v
      ensures v in L + PendingVersions(ms, dialect, L) <==> v in L' + PendingVersions(ms[1..], dialect, L')
    {
      if v in PendingVersions(ms, dialect, L) {
        var w :| w in ms && Eligible(w, dialect) && w.version !in L && w.version == v;
        if w != m {
          assert w in ms[1..];
        }
      }
      if v in PendingVersions(ms[1..], dialect, L') {
        var w :| w in ms[1..] && Eligible(w, dialect) && w.version !in L' && w.version == v;
        assert w in ms;
      }
    }
  }

  /** A bulk Up without error met no lookup error on a record of its dialect, and applied all of them. */
  lemma {:induction false} UpRunOkCovers(ms: seq<Migration>, dialect: string, f: Faults, L: set<string>)
    requires UpRun(ms, dialect, f, L).outcome.Ok?
    ensures forall m | m in ms && Eligible(m, dialect) ::
      m.version !in f.lookupFails && m.version in UpRun(ms, dialect, f, L).ledger
    decreases |ms|
  {
    if ms != [] {
      var s := UpStep(ms[0], dialect, f, L);
      UpRunOkHead(ms, dialect, f, L);
      UpRunOkCovers(ms[1..], dialect, f, s.ledger);
      assert forall m | m in ms :: m == ms[0] || m in ms[1..];
    }
  }

  /** The first record of a bulk Up without error: applied or skipped, and the rest runs on from it. */
  lemma UpRunOkHead(ms: seq<Migration>, dialect: string, f: Faults, L: set<string>)
    requires ms != [] && UpRun(ms, dialect, f, L).outcome.Ok?
    ensures UpStep(ms[0], dialect, f, L).outcome.Ok?
    ensures UpRun(ms[1..], dialect, f, UpStep(ms[0], dialect, f, L).ledger).outcome.Ok?
    ensures UpRun(ms, dialect, f, L).ledger == UpRun(ms[1..], dialect, f, UpStep(ms[0], dialect, f, L).ledger).ledger
    ensures Eligible(ms[0], dialect) ==>
      ms[0].version !in f.lookupFails && ms[0].version in UpRun(ms, dialect, f, L).ledger
  {
    var s := UpStep(ms[0], dialect, f, L);
    var rest := UpRun(ms[1..], dialect, f, s.ledger);
    assert s.ledger <= rest.ledger;
  }

  /** When every record of the dialect is applied and readable, a bulk Up does nothing. */
  lemma {:induction false} UpRunNothingPending(ms: seq<Migration>, dialect: string, f: Faults, L: set<string>)
    requires forall m | m in ms && Eligible(m, dialect) :: m.version !in f.lookupFails && m.version in L
    ensures UpRun(ms, dialect, f, L) == Step(L, Ok, [])
    decreases |ms|
  {
    if ms != [] {
      assert forall m | m in ms[1..] :: m in ms;
      UpRunNothingPending(ms[1..], dialect, f, L);
    }
  }

  /**
   * `Up(v)` with nothing failing applies the first record whose name matches
   * `v`, when it is of the active dialect, its body succeeds and it is pending.
   */
  lemma UpOneAppliesFirstMatch(ms: seq<Migration>, v: string, dialect: string, L: set<string>, i: nat)
    requires i < |ms| && NameMatches(ms[i].name, v)
    requires forall j | 0 <= j < i :: !NameMatches(ms[j].name, v)
    requires Eligible(ms[i], dialect) && ms[i].runOk && ms[i].version !in L
    ensures UpOne(ms, v, dialect, NoFaults, L) == Step(L + {ms[i].version}, Ok, [ms[i]])
  {
    assert FirstMatch(ms, v) != None;
    assert FirstMatch(ms, v).value == i by {
      var k := FirstMatch(ms, v).value;
      assert !(k < i) && !(i < k);
    }
  }

  /** Running a bulk Up again over the same set, in any sorted order, applies nothing. */
  lemma UpRunIdempotent(ms: seq<Migration>, again: seq<Migration>, dialect: string, f: Faults, L: set<string>)
    requires UpRun(ms, dialect, f, L).outcome.Ok?
    requires multiset(again) == multiset(ms)
    ensures UpRun(again, dialect, f, UpRun(ms, dialect, f, L).ledger) == Step(UpRun(ms, dialect, f, L).ledger, Ok, [])
  {
    var L' := UpRun(ms, dialect, f, L).ledger;
    UpRunOkCovers(ms, dialect, f, L);
    assert forall m | m in again :: m in multiset(ms);
    UpRunNothingPending(again, dialect, f, L');
  }

  /** `Up()` twice with unchanged sets: the second call succeeds and changes nothing. */
  lemma UpTwiceAddsNothing(db: DbState, f: Faults, dialect: string, up1: seq<Migration>, up2: seq<Migration>)
    requires UpOp(db, f, dialect, [], up1).outcome.Ok?
    requires multiset(up2) == multiset(up1)
    ensures UpOp(UpOp(db, f, dialect, [], up1).db, f, dialect, [], up2) == UpOp(db, f, dialect, [], up1)
  {
    var e := UpOp(db, f, dialect, [], up1);
    assert Setup(db, f).outcome.Ok?;
    UpRunIdempotent(up1, up2, dialect, f, db.ledger);
  }

  /** The versions of `ms` strictly ascend. */
  predicate StrictlyAscending(ms: seq<Migration>)
  {
    forall i, j | 0 <= i < j < |ms| :: VersionLess(ms[i].version, ms[j].version)
  }

  lemma ConsAscending(x: Migration, ms: seq<Migration>)
    requires StrictlyAscending(ms)
    requires forall k | 0 <= k < |ms| :: VersionLess(x.version, ms[k].version)
    ensures StrictlyAscending([x] + ms)
  {
    var r := [x] + ms;
    forall i, j | 0 <= i < j < |r|
      ensures VersionLess(r[i].version, r[j].version)
    {
      if i > 0 {
        assert r[i] == ms[i - 1] && r[j] == ms[j - 1];
      } else {
        assert r[j] == ms[j - 1];
      }
    }
  }

  /** In an ascending set, a later record of another version has a higher version. */
  lemma SortedHeadLess(ms: seq<Migration>, e: Migration)
    requires Sorted(ms, false) && ms != []
    requires e in ms[1..] && e.version != ms[0].version
    ensures VersionLess(ms[0].version, e.version)
  {
    var t :| 0 <= t < |ms| - 1 && ms[1..][t] == e;
    assert ms[t + 1] == e;
    assert !Before(ms[t + 1], ms[0], false);
    VersionLessTotal(ms[0].version, e.version);
  }

  /** Over a sorted set, a bulk Up applies records in strictly ascending version order. */
  lemma {:induction false} UpRunInOrder(ms: seq<Migration>, dialect: string, f: Faults, L: set<string>)
    requires Sorted(ms, false)
    ensures StrictlyAscending(UpRun(ms, dialect, f, L).done)
    decreases |ms|
  {
    if ms != [] {
      var s := UpStep(ms[0], dialect, f, L);
      if s.outcome.Ok? {
        var rest := UpRun(ms[1..], dialect, f, s.ledger);
        assert UpRun(ms, dialect, f, L).done == s.done + rest.done;
        UpRunInOrder(ms[1..], dialect, f, s.ledger);
        if s.done == [] {
          assert s.done + rest.done == rest.done;
        } else {
          assert s.done == [ms[0]];
          UpRunDone(ms[1..], dialect, f, s.ledger);
          assert ms[0].version in s.ledger;
          forall k | 0 <= k < |rest.done|
            ensures VersionLess(ms[0].version, rest.done[k].version)
          {
            assert rest.done[k] in rest.done;
            SortedHeadLess(ms, rest.done[k]);
          }
          ConsAscending(ms[0], rest.done);
        }
      }
    }
  }

  /** When no record of the dialect meets an error, a bulk Up succeeds. */
  lemma {:induction false} UpRunSucceeds(ms: seq<Migration>, dialect: string, f: Faults, L: set<string>)
    requires forall i | 0 <= i < |ms| && Eligible(ms[i], dialect) ::
      ms[i].version !in f.lookupFails && ms[i].runOk && ms[i].version !in f.writeFails
    ensures UpRun(ms, dialect, f, L).outcome == Ok
    decreases |ms|
  {
    if ms != [] {
      var s := UpStep(ms[0], dialect, f, L);
      forall i | 0 <= i < |ms| - 1 && Eligible(ms[1..][i], dialect)
        ensures ms[1..][i].version !in f.lookupFails && ms[1..][i].runOk && ms[1..][i].version !in f.writeFails
      {
        assert ms[1..][i] == ms[i + 1];
      }
      UpRunSucceeds(ms[1..], dialect, f, s.ledger);
    }
  }

  // ----- Status -----

  /**
   * Status right after a successful bulk Up reports a record as Applied
   * exactly when its version was applied before or by that Up.
   */
  lemma StatusAfterUp(ms: seq<Migration>, dialect: string, f: Faults, L: set<string>)
    requires UpRun(ms, dialect, f, L).outcome.Ok?
    requires forall i | 0 <= i < |ms| :: ms[i].version !in f.lookupFails
    ensures StatusRows(ms, f, UpRun(ms, dialect, f, L).ledger).Success?
    ensures forall i | 0 <= i < |ms| ::
      StatusRows(ms, f, UpRun(ms, dialect, f, L).ledger).value[i].applied
      <==> ms[i].version in L + PendingVersions(ms, dialect, L)
  {
    UpRunOk(ms, dialect, f, L);
  }

  // ----- Down -----

  /** Candidates with distinct versions that can all be rolled back are all rolled back. */
  lemma {:induction false} DownRunAllPresent(ms: seq<Migration>, f: Faults, L: set<string>)
    requires DistinctVersions(ms)
    requires forall i | 0 <= i < |ms| :: RollsBack(ms[i], f, L)
    ensures DownRun(ms, f, L) == Step(L - Versions(ms), Ok, ms)
    decreases |ms|
  {
    if ms != [] {
      var v := ms[0].version;
      forall i | 0 <= i < |ms| - 1
        ensures RollsBack(ms[1..][i], f, L - {v})
      {
        assert ms[1..][i] == ms[i + 1];
      }
      DownRunAllPresent(ms[1..], f, L - {v});
      assert ms == [ms[0]] + ms[1..];
      VersionsAppend([ms[0]], ms[1..]);
      assert Versions([ms[0]]) == {v};
    }
  }

  /**
   * On a ledger that holds exactly the versions of the down set, with nothing
   * failing, `Down(step)` for `0 < step <= count` rolls back the `step` highest
   * versions, and every version left is lower than every version removed.
   */
  lemma DownStepsRollsBackNewest(db: DbState, step: int, down: seq<Migration>)
    requires Sorted(down, true) && DistinctVersions(down) && Versions(down) == db.ledger
    requires forall i | 0 <= i < |down| :: down[i].runOk
    requires 0 < step <= |down|
    ensures DownOp(db, NoFaults, step, down).outcome == Ok
    ensures DownOp(db, NoFaults, step, down).db.ledger == db.ledger - Versions(down[..step])
    ensures |DownOp(db, NoFaults, step, down).db.ledger| == |db.ledger| - step
    ensures forall v, w | v in Versions(down[..step]) && w in DownOp(db, NoFaults, step, down).db.ledger ::
      VersionLess(w, v)
  {
    var L := db.ledger;
    DistinctVersionsCard(down);
    var cands := DownCandidates(down, |L|, step);
    assert cands == down[..step];
    forall i | 0 <= i < step
      ensures RollsBack(cands[i], NoFaults, L)
    {
      assert cands[i] == down[i];
    }
    DownRunAllPresent(cands, NoFaults, L);
    DownRunCount(cands, NoFaults, L);
    DescendingPrefixNewest(down, step);
  }

  /** In a descending set of distinct versions, the first `k` versions are above all the others. */
  lemma DescendingPrefixNewest(down: seq<Migration>, k: nat)
    requires Sorted(down, true) && DistinctVersions(down) && k <= |down|
    ensures forall v, w | v in Versions(down[..k]) && w in Versions(down) - Versions(down[..k]) ::
      VersionLess(w, v)
  {
    forall v, w | v in Versions(down[..k]) && w in Versions(down) - Versions(down[..k])
      ensures VersionLess(w, v)
    {
      var i :| 0 <= i < k && down[..k][i].version == v;
      var j :| 0 <= j < |down| && down[j].version == w;
      assert down[..k][i] == down[i] && !Before(down[j], down[i], true);
      VersionLessTotal(v, w);
    }
  }

  /**
   * Ledger {1, 3} with the down set [3, 2, 1]: the trimmed candidates are
   * [2, 1], the first of them is not recorded, and `Down(-1)` returns nil
   * without rolling anything back.
   */
  lemma GapInLedgerRollsBackNothing()
    ensures DownOp(DbState(true, {"1", "3"}), NoFaults, -1,
      [Migration("3", "3_c.down.sql", "all", true),
       Migration("2", "2_b.down.sql", "all", true),
       Migration("1", "1_a.down.sql", "all", true)])
      == Effect(Ok, DbState(true, {"1", "3"}))
  {
    var down := [Migration("3", "3_c.down.sql", "all", true),
                 Migration("2", "2_b.down.sql", "all", true),
                 Migration("1", "1_a.down.sql", "all", true)];
    assert |{"1", "3"}| == 2;
    assert DownCandidates(down, 2, -1) == down[1..];
    assert "2" !in {"1", "3"};
  }

  /**
   * The usual state of a database: the `c` lowest versions of the down set
   * are applied and the newer ones are pending. With nothing failing,
   * `Down(step)` trims the pending ones off and rolls back the first `step`
   * of the applied ones (all of them when `step <= 0`, or when fewer than
   * `step` are applied), in descending order.
   */
  lemma DownRollsBackAppliedSuffix(db: DbState, step: int, down: seq<Migration>, c: nat)
    requires DistinctVersions(down) && c <= |down|
    requires db.ledger == Versions(down[|down| - c..])
    requires forall i | 0 <= i < |down| :: down[i].runOk
    ensures DownOp(db, NoFaults, step, down).outcome == Ok
    ensures DownOp(db, NoFaults, step, down).db.ledger
      == db.ledger - Versions(down[|down| - c..][..if step > 0 then Min(step, c) else c])
  {
    var L := db.ledger;
    var applied := down[|down| - c..];
    DistinctSlice(down, |down| - c, |down|);
    DistinctVersionsCard(applied);
    assert |L| == c;
    var n := if step > 0 then Min(step, c) else c;
    var cands := DownCandidates(down, |L|, step);
    assert cands == applied[..n];
    DistinctSlice(applied, 0, n);
    assert applied[0..n] == cands;
    forall i | 0 <= i < |cands|
      ensures RollsBack(cands[i], NoFaults, L)
    {
      assert cands[i] == down[|down| - c + i];
      assert cands[i] in applied;
    }
    DownRunAllPresent(cands, NoFaults, L);
  }

  /** A slice of a sequence of distinct versions has distinct versions. */
  lemma DistinctSlice(ms: seq<Migration>, a: nat, b: nat)
    requires DistinctVersions(ms) && a <= b <= |ms|
    ensures DistinctVersions(ms[a..b])
  {
    var t := ms[a..b];
    forall i, j | 0 <= i < j < |t|
      ensures t[i].version != t[j].version
    {
      assert t[i] == ms[a + i] && t[j] == ms[a + j];
    }
  }

  // ----- Reset -----

  /**
   * On a ledger that holds exactly the versions of the down set, with nothing
   * failing, `Reset` rolls everything back and then leaves exactly the
   * versions of the up records of the active dialect.
   */
  lemma ResetReappliesEverything(db: DbState, dialect: string, up: seq<Migration>, down: seq<Migration>)
    requires DistinctVersions(down) && Versions(down) == db.ledger
    requires forall i | 0 <= i < |down| :: down[i].runOk
    requires forall i | 0 <= i < |up| :: up[i].runOk
    ensures ResetOp(db, NoFaults, dialect, up, down) == Effect(Ok, DbState(true, PendingVersions(up, dialect, {})))
  {
    var f := NoFaults;
    var L := db.ledger;
    DistinctVersionsCard(down);
    var cands := DownCandidates(down, |L|, -1);
    assert cands == down;
    DownRunAllPresent(down, f, L);
    var d := DownOp(db, f, -1, down);
    assert d == Effect(Ok, DbState(true, {}));
    UpRunSucceeds(up, dialect, f, {});
    UpRunOk(up, dialect, f, {});
  }
}
