/**
 * A client of the Migrator class: what a caller can conclude from the
 * contracts alone.
 */
module Scenarios {
  import opened Records
  import opened Ordering
  import opened Engine
  import opened Properties
  import opened Migrators

  /** Two ordered records can only be sorted one way. */
  lemma SortedPair(r: seq<Migration>, a: Migration, b: Migration)
    requires VersionLess(a.version, b.version)
    requires Sorted(r, false) && multiset(r) == multiset([b, a])
    ensures r == [a, b]
  {
    assert |r| == |multiset(r)| == 2;
    assert r[0] in multiset(r) && r[1] in multiset(r);
    assert r == [r[0], r[1]];
  }

  /** On a database without the migration table, `Up()` over two records of every dialect applies both. */
  lemma FreshUpOfPair(v1: Migration, v2: Migration)
    requires v1 == Migration("1", "1_create_users.up.fizz", "all", true)
    requires v2 == Migration("2", "2_add_index.up.fizz", "all", true)
    ensures UpOp(DbState(false, {}), NoFaults, "postgres", [], [v1, v2]) == Effect(Ok, DbState(true, {"1", "2"}))
  {
    var f := NoFaults;
    assert UpStep(v1, "postgres", f, {}) == Step({"1"}, Ok, [v1]);
    assert UpStep(v2, "postgres", f, {"1"}) == Step({"1", "2"}, Ok, [v2]);
    assert [v1, v2][1..] == [v2] && [v2][1..] == [];
    assert UpRun([v2], "postgres", f, {"1"}) == Step({"1", "2"}, Ok, [v2]);
    assert UpRun([v1, v2], "postgres", f, {}) == Step({"1", "2"}, Ok, [v1, v2]);
  }

  /**
   * An empty database and the up set [create_users, add_index] given out of
   * order: `Up()` creates the table and applies both, in version order.
   */
  method UpAppliesBoth()
  {
    var c := new Connection("postgres", NoFaults, false, {});
    var mg := new Migrator(c);
    var v1 := Migration("1", "1_create_users.up.fizz", "all", true);
    var v2 := Migration("2", "2_add_index.up.fizz", "all", true);
    mg.up := [v2, v1];
    var res := mg.Up([]);
    SortedPair(mg.up, v1, v2);
    FreshUpOfPair(v1, v2);
    assert res == Ok && c.tableExists && c.ledger == {"1", "2"};
    UpAgainThenStatus(mg, v1, v2);
  }

  /** A second `Up()` applies nothing, and `Status` reports both records as applied. */
  method UpAgainThenStatus(mg: Migrator, v1: Migration, v2: Migration)
    requires mg.Valid() && mg.conn.faults == NoFaults && mg.conn.tableExists
    requires v1 == Migration("1", "1_create_users.up.fizz", "all", true)
    requires v2 == Migration("2", "2_add_index.up.fizz", "all", true)
    requires mg.up == [v1, v2] && mg.conn.ledger == {"1", "2"}
    modifies mg, mg.conn
  {
    var c := mg.conn;
    var res := mg.Up([]);
    SortedPair(mg.up, v1, v2);
    UpRunNothingPending(mg.up, c.dialect, c.faults, {"1", "2"});
    assert res == Ok && c.ledger == {"1", "2"};

    var status, report := mg.Status();
    ghost var rows := StatusRows(mg.up, c.faults, c.ledger);
    assert rows.Success? && |rows.value| == 2;
    assert rows.value[0] == StatusRow("1", v1.name, true);
    assert rows.value[1] == StatusRow("2", v2.name, true);
    assert status == Ok && report == [StatusRow("1", v1.name, true), StatusRow("2", v2.name, true)];
  }
}
