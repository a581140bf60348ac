/**
 * Orderings used by the store's ORDER BY clauses and MAX aggregates.
 *
 * A relational store returns the rows of a query in the order its ORDER BY
 * clause asks for. The tables of this model are maps, so a query that lists
 * rows picks the keys one by one: first the key that comes before every
 * other one, then the first of the rest, and so on.
 */
module Order {

  /** `before` is a strict total order on the keys in `ks`. */
  ghost predicate StrictTotalOn(ks: set<int>, before: (int, int) -> bool) {
    && (forall a | a in ks :: !before(a, a))
    && (forall a, b, c | a in ks && b in ks && c in ks :: before(a, b) && before(b, c) ==> before(a, c))
    && (forall a, b | a in ks && b in ks && a != b :: before(a, b) || before(b, a))
  }

  /** `k` comes before every other key of `ks`. */
  predicate IsFirst(ks: set<int>, before: (int, int) -> bool, k: int) {
    k in ks && forall j | j in ks && j != k :: before(k, j)
  }

  lemma StrictTotalOnSubset(ks: set<int>, sub: set<int>, before: (int, int) -> bool)
    requires StrictTotalOn(ks, before) && sub <= ks
    ensures StrictTotalOn(sub, before)
  {
  }

  /** A set is empty or has an element. */
  lemma EmptyOrInhabited(ks: set<int>)
    ensures ks == {} || exists y :: y in ks
  {
    if forall y :: y !in ks {
      assert ks == {};
    }
  }

  /** A subset has at most as many elements as its superset. */
  lemma {:induction false} SubsetNoLarger(sub: set<int>, ks: set<int>)
    requires sub <= ks
    ensures |sub| <= |ks|
    decreases |ks|
  {
    if sub != {} {
      EmptyOrInhabited(sub);
      var x :| x in sub;
      SubsetNoLarger(sub - {x}, ks - {x});
    }
  }

  /** Every finite non-empty set has a first key under a strict total order. */
  lemma {:induction false} FirstExists(ks: set<int>, before: (int, int) -> bool)
    requires ks != {} && StrictTotalOn(ks, before)
    ensures exists k :: IsFirst(ks, before, k)
    decreases |ks|
  {
    EmptyOrInhabited(ks);
    var x :| x in ks;
    if ks == {x} {
      assert IsFirst(ks, before, x);
    } else {
      var rest := ks - {x};
      StrictTotalOnSubset(ks, rest, before);
      FirstExists(rest, before);
      var k :| IsFirst(rest, before, k);
      if before(x, k) {
        assert IsFirst(ks, before, x);
      } else {
        assert IsFirst(ks, before, k);
      }
    }
  }

  /** At most one key of `ks` comes before all the others. */
  lemma FirstUnique(ks: set<int>, before: (int, int) -> bool, k1: int, k2: int)
    requires StrictTotalOn(ks, before)
    requires IsFirst(ks, before, k1) && IsFirst(ks, before, k2)
    ensures k1 == k2
  {
  }

  /** The key of `ks` that comes before every other key. */
  function First(ks: set<int>, before: (int, int) -> bool): (k: int)
    requires ks != {} && StrictTotalOn(ks, before)
    ensures IsFirst(ks, before, k)
  {
    FirstExists(ks, before);
    assert forall k1, k2 | IsFirst(ks, before, k1) && IsFirst(ks, before, k2) :: k1 == k2 by {
      forall k1, k2 | IsFirst(ks, before, k1) && IsFirst(ks, before, k2) ensures k1 == k2 {
        FirstUnique(ks, before, k1, k2);
      }
    }
    var k :| IsFirst(ks, before, k);
    k
  }

  /**
   * The keys of `ks` listed in the order `before` prescribes: every key
   * exactly once, each one before all that follow it.
   */
  function SortBy(ks: set<int>, before: (int, int) -> bool): (r: seq<int>)
    requires StrictTotalOn(ks, before)
    ensures |r| == |ks|
    ensures forall i | 0 <= i < |r| :: r[i] in ks
    ensures forall k | k in ks :: k in r
    ensures forall i, j | 0 <= i < j < |r| :: before(r[i], r[j])
    decreases |ks|
  {
    if ks == {} then []
    else
      var k := First(ks, before);
      StrictTotalOnSubset(ks, ks - {k}, before);
      var rest := SortBy(ks - {k}, before);
      assert forall j | 0 <= j < |rest| :: before(k, rest[j]) by {
        forall j | 0 <= j < |rest| ensures before(k, rest[j]) {
          assert rest[j] in ks && rest[j] != k;
        }
      }
      [k] + rest
  }

  /** A sequence sorted strictly by a strict total order holds no key twice. */
  lemma SortedIsDistinct(ks: set<int>, before: (int, int) -> bool, r: seq<int>)
    requires StrictTotalOn(ks, before)
    requires forall i | 0 <= i < |r| :: r[i] in ks
    requires forall i, j | 0 <= i < j < |r| :: before(r[i], r[j])
    ensures forall i, j | 0 <= i < j < |r| :: r[i] != r[j]
  {
  }

  /** Ascending order of ids, the order of `MAX(id)` and of rowid scans. */
  function Ascending(): (int, int) -> bool {
    (a: int, b: int) => a < b
  }

  lemma AscendingIsStrictTotal(ks: set<int>)
    ensures StrictTotalOn(ks, Ascending())
  {
  }

  /** The largest element of a finite non-empty set, as SQL's `MAX` computes it. */
  function MaxOf(s: set<int>): (m: int)
    requires s != {}
    ensures m in s && forall x | x in s :: x <= m
  {
    var desc := (a: int, b: int) => a > b;
    assert StrictTotalOn(s, desc);
    First(s, desc)
  }

  /**
   * Byte-wise (code point) order of strings, the order of SQLite's default
   * BINARY collation: a proper prefix comes first, otherwise the first
   * differing character decides.
   */
  predicate StrLess(a: string, b: string)
    decreases |a|
  {
    if |a| == 0 then |b| > 0
    else if |b| == 0 then false
    else if a[0] != b[0] then a[0] < b[0]
    else StrLess(a[1..], b[1..])
  }

  lemma {:induction false} StrLessIrreflexive(a: string)
    ensures !StrLess(a, a)
    decreases |a|
  {
    if |a| > 0 {
      StrLessIrreflexive(a[1..]);
    }
  }

  lemma {:induction false} StrLessTransitive(a: string, b: string, c: string)
    requires StrLess(a, b) && StrLess(b, c)
    ensures StrLess(a, c)
    decreases |a|
  {
    if |a| > 0 && |b| > 0 && |c| > 0 && a[0] == b[0] && b[0] == c[0] {
      StrLessTransitive(a[1..], b[1..], c[1..]);
    }
  }

  lemma {:induction false} StrLessTotal(a: string, b: string)
    requires a != b
    ensures StrLess(a, b) || StrLess(b, a)
    decreases |a|
  {
    if |a| > 0 && |b| > 0 && a[0] == b[0] {
      assert a == [a[0]] + a[1..] && b == [b[0]] + b[1..];
      StrLessTotal(a[1..], b[1..]);
    }
  }
}
