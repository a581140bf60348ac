/**
 * The relational store behind every iteration of the server, as three tables:
 *
 *   workout       id -> start time (seconds since the Unix epoch)
 *   exercise      id -> name
 *   exercise_set  id -> (workout id, exercise id, date, repetitions, weight, note)
 *
 * The store enforces foreign keys (the connection enables them), so a set
 * always names an existing workout and an existing exercise. Deleting a
 * workout deletes its sets (ON DELETE CASCADE); deleting an exercise that a
 * set still names is refused. Each SQL statement the server issues is a
 * transition function from one snapshot of the tables to the next.
 */
module Store {
  import Order

  datatype Option<T> = None | Some(value: T)

  /** The errors a statement can report that the server tells apart. */
  datatype DbError =
    | ErrNoRows          // the statement matched no row
    | ErrExerciseExists  // the exercise is still used by a set
    | ErrForeignKey      // the statement would break a foreign key
    | ErrIO              // the database itself failed (I/O, a closed connection)

  datatype Result<T> = Ok(value: T) | Err(error: DbError)

  /** One row of `exercise_set`. */
  datatype SetRow = SetRow(
    workoutId: int,
    exerciseId: int,
    date: int,
    reps: int,
    weight: int,
    note: Option<string>)

  datatype Tables = Tables(
    workouts: map<int, int>,
    exercises: map<int, string>,
    sets: map<int, SetRow>)

  /** Every set names an existing workout and an existing exercise. */
  predicate Consistent(t: Tables) {
    forall s | s in t.sets :: t.sets[s].workoutId in t.workouts && t.sets[s].exerciseId in t.exercises
  }

  const Empty := Tables(map[], map[], map[])

  /** The id SQLite gives a new row: one more than the largest id in use, 1 for an empty table. */
  function NextId(ks: set<int>): (id: int)
    ensures id !in ks
    ensures forall k | k in ks :: k < id
  {
    if ks == {} then 1 else Order.MaxOf(ks) + 1
  }

  /** The ids of the sets that belong to workout `w`. */
  function SetsOfWorkout(t: Tables, w: int): (r: set<int>)
    ensures forall s :: s in r <==> s in t.sets && t.sets[s].workoutId == w
  {
    set s | s in t.sets && t.sets[s].workoutId == w
  }

  /** The ids of the sets that name exercise `e`. */
  function SetsOfExercise(t: Tables, e: int): (r: set<int>)
    ensures forall s :: s in r <==> s in t.sets && t.sets[s].exerciseId == e
  {
    set s | s in t.sets && t.sets[s].exerciseId == e
  }

  /** The workouts that the join of `workout` with `exercise_set` yields: those that have a set. */
  function WorkoutsWithSets(t: Tables): (r: set<int>)
    ensures forall w :: w in r <==> w in t.workouts && SetsOfWorkout(t, w) != {}
  {
    var r := set s | s in t.sets && t.sets[s].workoutId in t.workouts :: t.sets[s].workoutId;
    assert forall w | w in t.workouts && SetsOfWorkout(t, w) != {} :: w in r by {
      forall w | w in t.workouts && SetsOfWorkout(t, w) != {} ensures w in r {
        var ks := SetsOfWorkout(t, w);
        Order.EmptyOrInhabited(ks);
        var s :| s in ks;
        assert t.sets[s].workoutId == w;
      }
    }
    r
  }

  // ---------------------------------------------------------------------
  // Statements
  // ---------------------------------------------------------------------

  /** `INSERT INTO workout`: a new workout under the fresh id `id`, nothing else changes. */
  function InsertWorkout(t: Tables, id: int, start: int): (r: Tables)
    requires id !in t.workouts
    ensures id in r.workouts && r.workouts[id] == start
    ensures forall w | w != id :: (w in r.workouts <==> w in t.workouts)
    ensures forall w | w in t.workouts :: r.workouts[w] == t.workouts[w]
    ensures r.exercises == t.exercises && r.sets == t.sets
    ensures Consistent(t) ==> Consistent(r)
  {
    t.(workouts := t.workouts[id := start])
  }

  /**
   * `DELETE FROM workout WHERE id = ?`: the workout goes, and with it (by the
   * cascade) exactly its sets; everything else stays.
   */
  function DeleteWorkout(t: Tables, id: int): (r: Tables)
    ensures id !in r.workouts
    ensures forall w | w != id :: (w in r.workouts <==> w in t.workouts)
    ensures forall w | w in r.workouts :: r.workouts[w] == t.workouts[w]
    ensures forall s :: s in r.sets <==> s in t.sets && t.sets[s].workoutId != id
    ensures forall s | s in r.sets :: r.sets[s] == t.sets[s]
    ensures r.exercises == t.exercises
    ensures Consistent(t) ==> Consistent(r)
  {
    Tables(
      t.workouts - {id},
      t.exercises,
      map s | s in t.sets && t.sets[s].workoutId != id :: t.sets[s])
  }

  /** `INSERT INTO exercise`: a new exercise under the fresh id `id`. */
  function InsertExercise(t: Tables, id: int, name: string): (r: Tables)
    requires id !in t.exercises
    ensures id in r.exercises && r.exercises[id] == name
    ensures forall e | e != id :: (e in r.exercises <==> e in t.exercises)
    ensures forall e | e in t.exercises :: r.exercises[e] == t.exercises[e]
    ensures r.workouts == t.workouts && r.sets == t.sets
    ensures Consistent(t) ==> Consistent(r)
  {
    t.(exercises := t.exercises[id := name])
  }

  /**
   * `UPDATE exercise SET name = ? WHERE id = ?`: renames exercise `id`; when
   * there is no such exercise no row matches and nothing changes.
   */
  function RenameExercise(t: Tables, id: int, name: string): (r: Tables)
    ensures r.exercises.Keys == t.exercises.Keys
    ensures id in t.exercises ==> r.exercises[id] == name
    ensures forall e | e in t.exercises && e != id :: r.exercises[e] == t.exercises[e]
    ensures id !in t.exercises ==> r == t
    ensures r.workouts == t.workouts && r.sets == t.sets
    ensures Consistent(t) ==> Consistent(r)
  {
    if id in t.exercises then t.(exercises := t.exercises[id := name]) else t
  }

  /**
   * `DELETE FROM exercise WHERE id = ?`: refused with a foreign-key error
   * while a set names the exercise (nothing cascades to sets from an
   * exercise); otherwise the exercise, if there is one, goes.
   */
  function DeleteExercise(t: Tables, id: int): (r: Result<Tables>)
    ensures r.Err? <==> SetsOfExercise(t, id) != {}
    ensures r.Err? ==> r.error == ErrForeignKey
    ensures r.Ok? ==> r.value.exercises == t.exercises - {id}
    ensures r.Ok? ==> r.value.workouts == t.workouts && r.value.sets == t.sets
    ensures r.Ok? && Consistent(t) ==> Consistent(r.value)
  {
    if SetsOfExercise(t, id) != {} then Err(ErrForeignKey)
    else Ok(t.(exercises := t.exercises - {id}))
  }

  /**
   * `INSERT INTO exercise_set`: adds `row` under the fresh id `id`, unless the
   * row names a workout or an exercise that does not exist.
   */
  function InsertSet(t: Tables, id: int, row: SetRow): (r: Result<Tables>)
    requires id !in t.sets
    ensures r.Err? <==> row.workoutId !in t.workouts || row.exerciseId !in t.exercises
    ensures r.Err? ==> r.error == ErrForeignKey
    ensures r.Ok? ==> r.value.sets == t.sets[id := row]
    ensures r.Ok? ==> r.value.workouts == t.workouts && r.value.exercises == t.exercises
    ensures r.Ok? && Consistent(t) ==> Consistent(r.value)
  {
    if row.workoutId !in t.workouts || row.exerciseId !in t.exercises then Err(ErrForeignKey)
    else Ok(t.(sets := t.sets[id := row]))
  }

  /**
   * `UPDATE exercise_set SET ... WHERE id = ?` on an existing set: the row
   * becomes `row`, unless `row` names a missing workout or exercise.
   */
  function ReplaceSet(t: Tables, id: int, row: SetRow): (r: Result<Tables>)
    requires id in t.sets
    ensures r.Err? <==> row.workoutId !in t.workouts || row.exerciseId !in t.exercises
    ensures r.Err? ==> r.error == ErrForeignKey
    ensures r.Ok? ==> r.value.sets == t.sets[id := row] && r.value.sets.Keys == t.sets.Keys
    ensures r.Ok? ==> r.value.workouts == t.workouts && r.value.exercises == t.exercises
    ensures r.Ok? && Consistent(t) ==> Consistent(r.value)
  {
    if row.workoutId !in t.workouts || row.exerciseId !in t.exercises then Err(ErrForeignKey)
    else Ok(t.(sets := t.sets[id := row]))
  }

  /** `DELETE FROM exercise_set WHERE id = ?`: the set goes if there is one. */
  function DeleteSet(t: Tables, id: int): (r: Tables)
    ensures r.sets == t.sets - {id}
    ensures r.workouts == t.workouts && r.exercises == t.exercises
    ensures Consistent(t) ==> Consistent(r)
  {
    t.(sets := t.sets - {id})
  }

  // ---------------------------------------------------------------------
  // Orders of the ORDER BY clauses
  // ---------------------------------------------------------------------

  /**
   * Newest set first (`ORDER BY date DESC`). The store leaves the order of
   * sets with equal dates open; this model puts the larger id first.
   */
  function LatestFirst(sets: map<int, SetRow>): (int, int) -> bool {
    (a: int, b: int) =>
      a in sets && b in sets &&
      (sets[a].date > sets[b].date || (sets[a].date == sets[b].date && a > b))
  }

  /** Oldest set first (`ORDER BY date`); equal dates: smaller id first. */
  function EarliestFirst(sets: map<int, SetRow>): (int, int) -> bool {
    (a: int, b: int) =>
      a in sets && b in sets &&
      (sets[a].date < sets[b].date || (sets[a].date == sets[b].date && a < b))
  }

  /** Latest start first (`ORDER BY start DESC`); equal starts: smaller id first. */
  function LatestStartFirst(workouts: map<int, int>): (int, int) -> bool {
    (a: int, b: int) =>
      a in workouts && b in workouts &&
      (workouts[a] > workouts[b] || (workouts[a] == workouts[b] && a < b))
  }

  /** Names in BINARY collation order (`ORDER BY name`); equal names: smaller id first. */
  function ByName(exercises: map<int, string>): (int, int) -> bool {
    (a: int, b: int) =>
      a in exercises && b in exercises &&
      (Order.StrLess(exercises[a], exercises[b]) || (exercises[a] == exercises[b] && a < b))
  }

  lemma LatestFirstIsStrictTotal(sets: map<int, SetRow>, ks: set<int>)
    requires ks <= sets.Keys
    ensures Order.StrictTotalOn(ks, LatestFirst(sets))
  {
  }

  lemma EarliestFirstIsStrictTotal(sets: map<int, SetRow>, ks: set<int>)
    requires ks <= sets.Keys
    ensures Order.StrictTotalOn(ks, EarliestFirst(sets))
  {
  }

  lemma LatestStartFirstIsStrictTotal(workouts: map<int, int>)
    ensures Order.StrictTotalOn(workouts.Keys, LatestStartFirst(workouts))
  {
  }

  lemma ByNameIsStrictTotal(exercises: map<int, string>)
    ensures Order.StrictTotalOn(exercises.Keys, ByName(exercises))
  {
    var before := ByName(exercises);
    forall a | a in exercises.Keys
      ensures !before(a, a)
    {
      Order.StrLessIrreflexive(exercises[a]);
    }
    forall a, b, c | a in exercises.Keys && b in exercises.Keys && c in exercises.Keys && before(a, b) && before(b, c)
      ensures before(a, c)
    {
      if Order.StrLess(exercises[a], exercises[b]) && Order.StrLess(exercises[b], exercises[c]) {
        Order.StrLessTransitive(exercises[a], exercises[b], exercises[c]);
      }
    }
    forall a, b | a in exercises.Keys && b in exercises.Keys && a != b
      ensures before(a, b) || before(b, a)
    {
      if exercises[a] != exercises[b] {
        Order.StrLessTotal(exercises[a], exercises[b]);
      }
    }
  }

  // ---------------------------------------------------------------------
  // The database object
  // ---------------------------------------------------------------------

  /** The open database handle the repositories share; its three tables change in place. */
  class Db {
    var workouts: map<int, int>
    var exercises: map<int, string>
    var sets: map<int, SetRow>

    function Snapshot(): Tables
      reads this
    {
      Tables(workouts, exercises, sets)
    }

    /** The foreign keys hold. */
    ghost predicate Valid()
      reads this
    {
      Consistent(Snapshot())
    }

    /** A freshly migrated database: all tables empty. */
    constructor ()
      ensures Snapshot() == Empty
      ensures Valid()
    {
      workouts := map[];
      exercises := map[];
      sets := map[];
    }
  }
}
