/**
 * The order of migration records. `Migrations.Less` is not part of this
 * model; versions are compared as strings, character by character, and the
 * sort used by the engine is specified only by its result: sorted and a
 * permutation of its input (it need not be stable).
 */
module Ordering {
  import opened Records

  /** Lexicographic order on version strings: a strict total order. */
  predicate VersionLess(a: string, b: string)
    decreases |a|
  {
    if a == [] then b != []
    else b != [] && (a[0] < b[0] || (a[0] == b[0] && VersionLess(a[1..], b[1..])))
  }

  lemma {:induction false} VersionLessIrreflexive(a: string)
    ensures !VersionLess(a, a)
    decreases |a|
  {
    if a != [] {
      VersionLessIrreflexive(a[1..]);
    }
  }

  lemma {:induction false} VersionLessTransitive(a: string, b: string, c: string)
    requires VersionLess(a, b) && VersionLess(b, c)
    ensures VersionLess(a, c)
    decreases |a|
  {
    if a != [] && a[0] == b[0] && b[0] == c[0] {
      VersionLessTransitive(a[1..], b[1..], c[1..]);
    }
  }

  lemma {:induction false} VersionLessTotal(a: string, b: string)
    requires a != b
    ensures VersionLess(a, b) || VersionLess(b, a)
    decreases |a|
  {
    if a != [] && b != [] && a[0] == b[0] {
      assert a == [a[0]] + a[1..] && b == [b[0]] + b[1..];
      VersionLessTotal(a[1..], b[1..]);
    }
  }

  /**
   * `a` must come before `b`: for `sort.Sort` the version of `a` is smaller,
   * for `sort.Sort(sort.Reverse(...))` it is larger.
   */
  predicate Before(a: Migration, b: Migration, descending: bool)
  {
    if descending then VersionLess(b.version, a.version) else VersionLess(a.version, b.version)
  }

  lemma BeforeTransitive(a: Migration, b: Migration, c: Migration, descending: bool)
    requires Before(a, b, descending) && Before(b, c, descending)
    ensures Before(a, c, descending)
  {
    if descending {
      VersionLessTransitive(c.version, b.version, a.version);
    } else {
      VersionLessTransitive(a.version, b.version, c.version);
    }
  }

  lemma BeforeAsymmetric(a: Migration, b: Migration, descending: bool)
    requires Before(a, b, descending)
    ensures !Before(b, a, descending)
  {
    if Before(b, a, descending) {
      BeforeTransitive(a, b, a, descending);
      VersionLessIrreflexive(a.version);
    }
  }

  /** No record comes before one that precedes it. */
  predicate Sorted(ms: seq<Migration>, descending: bool)
  {
    forall i, j | 0 <= i < j < |ms| :: !Before(ms[j], ms[i], descending)
  }

  /** Inserts `x` into the sorted `r`, after every record that `x` does not come before. */
  method InsertSorted(r: seq<Migration>, x: Migration, descending: bool) returns (r': seq<Migration>)
    requires Sorted(r, descending)
    ensures Sorted(r', descending)
    ensures multiset(r') == multiset(r) + multiset{x}
  {
    var j := 0;
    while j < |r| && !Before(x, r[j], descending)
      invariant 0 <= j <= |r|
      invariant forall k | 0 <= k < j :: !Before(x, r[k], descending)
    {
      j := j + 1;
    }
    r' := r[..j] + [x] + r[j..];
    assert r == r[..j] + r[j..];
    InsertKeepsSorted(r, x, j, descending);
  }

  /** Putting `x` after the records it does not come before, and before the next one, keeps `r` sorted. */
  lemma InsertKeepsSorted(r: seq<Migration>, x: Migration, j: nat, descending: bool)
    requires Sorted(r, descending) && j <= |r|
    requires forall k | 0 <= k < j :: !Before(x, r[k], descending)
    requires j < |r| ==> Before(x, r[j], descending)
    ensures Sorted(r[..j] + [x] + r[j..], descending)
  {
    var r' := r[..j] + [x] + r[j..];
    forall a, b | 0 <= a < b < |r'|
      ensures !Before(r'[b], r'[a], descending)
    {
      if b < j {
        assert r'[a] == r[a] && r'[b] == r[b];
      } else if b == j {
        assert r'[a] == r[a] && r'[b] == x;
      } else if a < j {
        assert r'[a] == r[a] && r'[b] == r[b - 1];
      } else if a == j {
        assert r'[a] == x && r'[b] == r[b - 1];
        if b - 1 == j {
          BeforeAsymmetric(x, r[j], descending);
        } else if Before(r[b - 1], x, descending) {
          BeforeTransitive(r[b - 1], x, r[j], descending);
        }
      } else {
        assert r'[a] == r[a - 1] && r'[b] == r[b - 1];
      }
    }
  }

  /** The ordering step of `sort.Sort`, as an insertion sort. */
  method SortMigrations(s: seq<Migration>, descending: bool) returns (r: seq<Migration>)
    ensures Sorted(r, descending)
    ensures multiset(r) == multiset(s)
  {
    r := [];
    var i := 0;
    while i < |s|
      invariant 0 <= i <= |s|
      invariant Sorted(r, descending)
      invariant multiset(r) == multiset(s[..i])
    {
      r := InsertSorted(r, s[i], descending);
      assert s[..i + 1] == s[..i] + [s[i]];
      i := i + 1;
    }
    assert s[..i] == s;
  }
}
