/**
 * The statistics overview: how many workouts have sets, how long they took
 * in total and on average, how many sets and repetitions were done and how
 * many repetitions a set has on average.
 *
 * The per-workout query joins `exercise_set` with `workout` and groups by
 * workout, so it yields one row per workout that has at least one set: the
 * workout's start and the date of its latest set. The duration of a workout
 * is the difference of the two. Durations are whole seconds.
 */
module Statistics {
  import Order
  import opened Store

  /** One row of the grouped query: start of the workout, date of its latest set. */
  datatype DatesRow = DatesRow(start: int, end: int)

  datatype OverviewEntity = OverviewEntity(
    totalWorkouts: int,
    totalDuration: int,
    avgDuration: int,
    totalReps: int,
    totalSets: int,
    avgRepsPerSet: int)

  const ZeroOverview := OverviewEntity(0, 0, 0, 0, 0, 0)

  /** Outcome of code that may stop with a run-time panic. */
  datatype Outcome = Panicked | Computed(overview: OverviewEntity)

  function Abs(x: int): (r: int)
    ensures 0 <= r && (r == x || r == -x)
  {
    if x < 0 then -x else x
  }

  /**
   * Integer division as Go, Rust and SQLite do it: the quotient is truncated
   * toward zero, so the remainder takes the sign of the dividend.
   */
  function Quot(a: int, b: int): (q: int)
    requires b != 0
    ensures 0 <= a ==> 0 <= a - q * b < Abs(b)
    ensures a < 0 ==> -Abs(b) < a - q * b <= 0
  {
    var m := Abs(a) / Abs(b);
    var q := if (a < 0) == (b < 0) then m else -m;
    QuotRemainder(a, b, m, q);
    q
  }

  /** The remainder left by the truncated quotient, case by case on the signs. */
  lemma QuotRemainder(a: int, b: int, m: int, q: int)
    requires b != 0 && m == Abs(a) / Abs(b)
    requires q == if (a < 0) == (b < 0) then m else -m
    ensures 0 <= a ==> 0 <= a - q * b < Abs(b)
    ensures a < 0 ==> -Abs(b) < a - q * b <= 0
  {
    var bb := Abs(b);
    var r := Abs(a) - m * bb;
    assert 0 <= r < bb;
    assert q * b == (if a < 0 then -(m * bb) else m * bb) by {
      if b < 0 {
        assert b == -bb;
        assert m * b == -(m * bb);
        assert -m * b == m * bb;
      } else {
        assert b == bb;
        assert -m * b == -(m * bb);
      }
    }
  }

  /** `q` is the truncated quotient of `a` by `n`, for non-negative `a` and positive `n`. */
  predicate Brackets(q: int, n: int, a: int) {
    q * n <= a < (q + 1) * n
  }

  /** Dividing a non-negative total by a positive count brackets the total. */
  lemma QuotBrackets(a: int, n: int)
    requires 0 <= a && 0 < n
    ensures Brackets(Quot(a, n), n, a)
  {
    var q := Quot(a, n);
    assert (q + 1) * n == q * n + n;
  }

  /** A non-negative total divided by a positive count is between zero and the total. */
  lemma QuotAtMost(a: int, n: int)
    requires 0 <= a && 0 < n
    ensures 0 <= Quot(a, n) <= a
  {
    var q := Quot(a, n);
    assert 0 <= a - q * n;
    ScaleByCount(q, n);
  }

  /** Multiplying by a positive count moves a number away from zero. */
  lemma {:induction false} ScaleByCount(q: int, n: int)
    requires 0 < n
    ensures 0 <= q ==> q <= q * n
    ensures q < 0 ==> q * n <= q
    decreases n
  {
    if n > 1 {
      ScaleByCount(q, n - 1);
      assert q * n == q * (n - 1) + q;
    }
  }

  /** The date of the latest set of workout `w`, `MAX(es.date)` of its group. */
  function LastSetDate(t: Tables, w: int): (d: int)
    requires SetsOfWorkout(t, w) != {}
    ensures exists s | s in SetsOfWorkout(t, w) :: t.sets[s].date == d
    ensures forall s | s in SetsOfWorkout(t, w) :: t.sets[s].date <= d
  {
    var ks := SetsOfWorkout(t, w);
    Order.EmptyOrInhabited(ks);
    var k :| k in ks;
    var dates := set s | s in ks :: t.sets[s].date;
    assert t.sets[k].date in dates;
    assert forall s | s in ks :: t.sets[s].date in dates;
    Order.MaxOf(dates)
  }

  /** The workouts of the grouped query, each once, by ascending id. */
  function GroupedWorkouts(t: Tables): (ws: seq<int>)
    ensures |ws| == |WorkoutsWithSets(t)|
    ensures forall i | 0 <= i < |ws| :: ws[i] in WorkoutsWithSets(t)
    ensures forall w | w in WorkoutsWithSets(t) :: w in ws
    ensures forall i, j | 0 <= i < j < |ws| :: ws[i] < ws[j]
  {
    Order.AscendingIsStrictTotal(WorkoutsWithSets(t));
    Order.SortBy(WorkoutsWithSets(t), Order.Ascending())
  }

  function RowOf(t: Tables, w: int): DatesRow
    requires w in WorkoutsWithSets(t)
  {
    DatesRow(t.workouts[w], LastSetDate(t, w))
  }

  /** The rows of the grouped query. */
  function DatesRows(t: Tables): (rows: seq<DatesRow>)
    ensures |rows| == |WorkoutsWithSets(t)|
    ensures forall i | 0 <= i < |rows| :: rows[i] == RowOf(t, GroupedWorkouts(t)[i])
  {
    var ws := GroupedWorkouts(t);
    seq(|ws|, i requires 0 <= i < |ws| => RowOf(t, ws[i]))
  }

  function Span(row: DatesRow): int {
    row.end - row.start
  }

  /** The sum of the durations of `rows`, adding the last row last. */
  function SumSpans(rows: seq<DatesRow>): int {
    if rows == [] then 0 else SumSpans(rows[..|rows| - 1]) + Span(rows[|rows| - 1])
  }

  /** Durations that are never negative add up to a total that is not negative. */
  lemma {:induction false} SumSpansNonNegative(rows: seq<DatesRow>)
    requires forall i | 0 <= i < |rows| :: 0 <= Span(rows[i])
    ensures 0 <= SumSpans(rows)
  {
    if rows != [] {
      SumSpansNonNegative(rows[..|rows| - 1]);
    }
  }

  /** `SUM(repetitions)` over the sets `ks`. */
  function SumReps(sets: map<int, SetRow>, ks: set<int>): int
    requires ks <= sets.Keys
    decreases |ks|
  {
    if ks == {} then 0
    else
      var k := Order.MaxOf(ks);
      sets[k].reps + SumReps(sets, ks - {k})
  }

  /** Repetitions that are never negative add up to at least any single set's. */
  lemma {:induction false} SumRepsAtLeastEach(sets: map<int, SetRow>, ks: set<int>, s: int)
    requires ks <= sets.Keys && s in ks
    requires forall k | k in ks :: 0 <= sets[k].reps
    ensures sets[s].reps <= SumReps(sets, ks)
    decreases |ks|
  {
    var k := Order.MaxOf(ks);
    if s != k {
      SumRepsAtLeastEach(sets, ks - {k}, s);
    } else {
      SumRepsNonNegative(sets, ks - {k});
    }
  }

  lemma {:induction false} SumRepsNonNegative(sets: map<int, SetRow>, ks: set<int>)
    requires ks <= sets.Keys
    requires forall k | k in ks :: 0 <= sets[k].reps
    ensures 0 <= SumReps(sets, ks)
    decreases |ks|
  {
    if ks != {} {
      SumRepsNonNegative(sets, ks - {Order.MaxOf(ks)});
    }
  }

  /**
   * What the overview is meant to be, and what the Rust server computes
   * (dal.rs). No workout has a set: all zeros.
   * Otherwise: the number of workouts with sets, the total and the truncated
   * average of their durations, the number of sets, the total and the
   * truncated average of their repetitions.
   */
  function OverviewOf(t: Tables): (o: OverviewEntity)
    ensures o.totalWorkouts == |WorkoutsWithSets(t)|
    ensures o.totalWorkouts == 0 ==> o == ZeroOverview
    ensures o.totalWorkouts > 0 ==>
      && o.totalDuration == SumSpans(DatesRows(t))
      && o.avgDuration == Quot(o.totalDuration, o.totalWorkouts)
      && o.totalSets == |t.sets| > 0
      && o.totalReps == SumReps(t.sets, t.sets.Keys)
      && o.avgRepsPerSet == Quot(o.totalReps, o.totalSets)
  {
    var rows := DatesRows(t);
    if rows == [] then ZeroOverview
    else
      var total := SumSpans(rows);
      SetsExistWhenRowsDo(t);
      var reps := SumReps(t.sets, t.sets.Keys);
      OverviewEntity(|rows|, total, Quot(total, |rows|), reps, |t.sets|, Quot(reps, |t.sets|))
  }

  /** A workout that has a set means the set table is not empty. */
  lemma SetsExistWhenRowsDo(t: Tables)
    requires WorkoutsWithSets(t) != {}
    ensures |t.sets| > 0
  {
    var ws := WorkoutsWithSets(t);
    Order.EmptyOrInhabited(ws);
    var w :| w in ws;
    var ks := SetsOfWorkout(t, w);
    Order.EmptyOrInhabited(ks);
    var s :| s in ks;
    assert s in t.sets.Keys;
  }

  /** With foreign keys intact, the overview is all zeros exactly when there is no set at all. */
  lemma {:induction false} ZeroExactlyWithoutSets(t: Tables)
    requires Consistent(t)
    ensures OverviewOf(t).totalWorkouts == 0 <==> t.sets == map[]
  {
    if t.sets != map[] {
      Order.EmptyOrInhabited(t.sets.Keys);
      var s :| s in t.sets.Keys;
      assert s in SetsOfWorkout(t, t.sets[s].workoutId);
      assert t.sets[s].workoutId in WorkoutsWithSets(t);
    } else {
      assert WorkoutsWithSets(t) == {};
    }
  }

  /** Workouts without sets are not counted: at most as many as there are workouts, or sets. */
  lemma {:induction false} CountedWorkoutsBounded(t: Tables)
    ensures OverviewOf(t).totalWorkouts <= |t.workouts|
  {
    assert WorkoutsWithSets(t) <= t.workouts.Keys;
    Order.SubsetNoLarger(WorkoutsWithSets(t), t.workouts.Keys);
  }

  /** No set predates the workout it belongs to. */
  predicate SetsAfterStart(t: Tables) {
    forall s | s in t.sets && t.sets[s].workoutId in t.workouts :: t.workouts[t.sets[s].workoutId] <= t.sets[s].date
  }

  lemma RowSpanNonNegative(t: Tables, w: int)
    requires SetsAfterStart(t) && w in WorkoutsWithSets(t)
    ensures 0 <= Span(RowOf(t, w))
  {
    var ks := SetsOfWorkout(t, w);
    Order.EmptyOrInhabited(ks);
    var s :| s in ks;
    assert t.workouts[w] <= t.sets[s].date <= LastSetDate(t, w);
  }

  /** When no set predates its workout, no duration and hence no total is negative. */
  lemma TotalDurationNonNegative(t: Tables)
    requires SetsAfterStart(t)
    ensures 0 <= SumSpans(DatesRows(t))
  {
    var rows := DatesRows(t);
    var ws := GroupedWorkouts(t);
    forall i | 0 <= i < |rows| ensures 0 <= Span(rows[i]) {
      RowSpanNonNegative(t, ws[i]);
    }
    SumSpansNonNegative(rows);
  }

  /** When no set predates its workout, the average duration brackets the total. */
  lemma AverageDurationBrackets(t: Tables)
    requires SetsAfterStart(t)
    ensures var o := OverviewOf(t);
      o.totalWorkouts > 0 ==>
        0 <= o.totalDuration &&
        Brackets(o.avgDuration, o.totalWorkouts, o.totalDuration)
  {
    var o := OverviewOf(t);
    if o.totalWorkouts > 0 {
      TotalDurationNonNegative(t);
      QuotBrackets(o.totalDuration, o.totalWorkouts);
    }
  }

  /** The average number of repetitions per set never exceeds the total, for non-negative counts. */
  lemma AverageRepsAtMostTotal(t: Tables)
    requires forall s | s in t.sets :: 0 <= t.sets[s].reps
    ensures var o := OverviewOf(t);
      o.totalWorkouts > 0 ==> 0 <= o.avgRepsPerSet <= o.totalReps
  {
    var o := OverviewOf(t);
    if o.totalWorkouts > 0 {
      SumRepsNonNegative(t.sets, t.sets.Keys);
      QuotAtMost(o.totalReps, o.totalSets);
    }
  }

  /** The freshly created, still empty database yields no row of the grouped query. */
  lemma EmptyDatabaseHasNoRows()
    ensures WorkoutsWithSets(Empty) == {} && DatesRows(Empty) == []
  {
  }

  /** `for _, v := range workouts { total += v.end - v.start }`. */
  method SumDurations(rows: seq<DatesRow>) returns (total: int)
    ensures total == SumSpans(rows)
  {
    total := 0;
    for i := 0 to |rows|
      invariant total == SumSpans(rows[..i])
    {
      assert rows[..i + 1][..i] == rows[..i];
      total := total + (rows[i].end - rows[i].start);
    }
    assert rows[..|rows|] == rows;
  }

  /**
   * The overview as the repository computes it. The query result is a slice,
   * empty when no workout has a set, never "no rows"; so the guard for that
   * case never fires and the average duration divides by zero.
   */
  method OverviewAsWritten(t: Tables) returns (r: Outcome)
    ensures r == Panicked <==> WorkoutsWithSets(t) == {}
    ensures r.Computed? ==> r.overview == OverviewOf(t)
  {
    var rows := DatesRows(t);
    var totalWorkouts := |rows|;
    var totalDuration := SumDurations(rows);
    if totalWorkouts == 0 {
      // integer division by zero: Go panics
      return Panicked;
    }
    var avgDuration := Quot(totalDuration, totalWorkouts);
    SetsExistWhenRowsDo(t);
    var totalSets := |t.sets|;
    var totalReps := SumReps(t.sets, t.sets.Keys);
    r := Computed(OverviewEntity(totalWorkouts, totalDuration, avgDuration, totalReps, totalSets, Quot(totalReps, totalSets)));
  }

  /** The overview with the empty case answered by all zeros, before any division. */
  method Overview(t: Tables) returns (o: OverviewEntity)
    ensures o == OverviewOf(t)
  {
    var rows := DatesRows(t);
    if rows == [] {
      return ZeroOverview;
    }
    var totalWorkouts := |rows|;
    var totalDuration := SumDurations(rows);
    var avgDuration := Quot(totalDuration, totalWorkouts);
    SetsExistWhenRowsDo(t);
    var totalSets := |t.sets|;
    var totalReps := SumReps(t.sets, t.sets.Keys);
    o := OverviewEntity(totalWorkouts, totalDuration, avgDuration, totalReps, totalSets, Quot(totalReps, totalSets));
  }
}
