/**
 * The data-access layer of the Rust server. It shares the store and most of
 * the decisions of the Go repositories. It differs in three ways. One call
 * both creates and updates a set, and the update may move the set to another
 * workout. Deletes report whether a row went away instead of failing. The
 * recommendation falls back to exercise 0 rather than -1.
 */
module Dal {
  import Order
  import opened Store
  import Workouts
  import Exercises
  import Sets

  /** A set as the Rust server returns it: with its workout and its exercise's name. */
  datatype ExerciseSetEntity = ExerciseSetEntity(
    id: int,
    exerciseId: int,
    exerciseName: string,
    workoutId: int,
    created: int,
    reps: int,
    weight: int,
    note: Option<string>)

  /** `get_exercise`: the exercise with that id, if any. */
  function GetExercise(t: Tables, id: int): (r: Option<Exercises.ExerciseEntity>)
    ensures r.Some? <==> id in t.exercises
    ensures r.Some? ==> r.value.id == id && r.value.name == t.exercises[id]
  {
    if id in t.exercises then Some(Exercises.ExerciseEntity(id, t.exercises[id])) else None
  }

  /** `get_workout`: the workout with that id, if any. */
  function GetWorkout(t: Tables, id: int): (r: Option<Workouts.WorkoutEntity>)
    ensures r.Some? <==> id in t.workouts
    ensures r.Some? ==> r.value.id == id && r.value.start == t.workouts[id]
  {
    if id in t.workouts then Some(Workouts.WorkoutEntity(id, t.workouts[id])) else None
  }

  /**
   * `get_exercise_set`: the set with that id joined with its exercise, if
   * the join yields a row.
   */
  function GetExerciseSet(t: Tables, id: int): (r: Option<ExerciseSetEntity>)
    ensures r.Some? <==> id in t.sets && t.sets[id].exerciseId in t.exercises
    ensures r.Some? ==>
      && r.value.id == id && r.value.exerciseId == t.sets[id].exerciseId
      && r.value.exerciseName == t.exercises[t.sets[id].exerciseId]
      && r.value.workoutId == t.sets[id].workoutId && r.value.created == t.sets[id].date
      && r.value.reps == t.sets[id].reps && r.value.weight == t.sets[id].weight && r.value.note == t.sets[id].note
  {
    if id in t.sets && t.sets[id].exerciseId in t.exercises then
      var row := t.sets[id];
      Some(ExerciseSetEntity(id, row.exerciseId, t.exercises[row.exerciseId], row.workoutId, row.date, row.reps, row.weight, row.note))
    else None
  }

  /** The Rust and the Go lookup of a set by id find the same sets, with the same fields. */
  lemma GetExerciseSetAgreesWithByID(t: Tables, id: int)
    ensures GetExerciseSet(t, id).Some? <==> Sets.ByID(t, id).Ok?
    ensures GetExerciseSet(t, id).Some? ==>
      var a, b := GetExerciseSet(t, id).value, Sets.ByID(t, id).value;
      a.exerciseId == b.exerciseId && a.exerciseName == b.exerciseName && a.created == b.done
      && a.reps == b.reps && a.weight == b.weight && a.note == b.note
  {
  }

  /** `get_set_recommendation_for_workout`: the shared three steps, with exercise 0 as the sentinel. */
  function SetRecommendationForWorkout(t: Tables, id: int): (r: Workouts.SetRecommendation)
    ensures SetsOfWorkout(t, id) == {} && WorkoutsWithSets(t) == {} ==> r == Workouts.SetRecommendation(0, 0, 0)
    ensures SetsOfWorkout(t, id) != {} || WorkoutsWithSets(t) != {} ==>
      exists s | s in t.sets :: r == Workouts.FromRow(t.sets[s])
  {
    Workouts.Recommend(t, id, 0)
  }

  /** Whenever some workout has a set, the Rust and the Go recommendation are the same. */
  lemma {:induction false} RecommendationsAgreeWhenSetsExist(t: Tables, id: int)
    requires SetsOfWorkout(t, id) != {} || WorkoutsWithSets(t) != {}
    ensures SetRecommendationForWorkout(t, id) == Workouts.RecommendNewSet(t, id)
  {
    var withSets := WorkoutsWithSets(t);
    var candidates := if withSets == {} then {} else SetsOfWorkout(t, Order.MaxOf(withSets));
    if SetsOfWorkout(t, id) == {} {
      var w := Order.MaxOf(withSets);
      assert SetsOfWorkout(t, w) != {};
      assert Workouts.EarliestOf(t, candidates).Some?;
    }
  }

  /** Otherwise they differ only in the exercise id of the sentinel. */
  lemma RecommendationsDifferInSentinelOnly(t: Tables, id: int)
    requires SetsOfWorkout(t, id) == {} && WorkoutsWithSets(t) == {}
    ensures SetRecommendationForWorkout(t, id) == Workouts.RecommendNewSet(t, id).(exerciseId := 0)
    ensures Workouts.RecommendNewSet(t, id).exerciseId == -1
  {
  }

  /** Which sets a query built by `create_get_exercise_query` selects. */
  datatype ExerciseSetConstraint = ExerciseSetId | WorkoutId

  const GetAllExercisesQuery: string :=
    "\n    SELECT\n        es.id, es.exercise_id, e.name AS exercise_name,\n"
    + "        es.workout_id, es.created_utc_s, es.repetitions, es.weight, es.note\n"
    + "    FROM exercise_set es\n    JOIN exercise e ON es.exercise_id = e.id\n"

  /**
   * `create_get_exercise_query`: the query over all sets joined with their
   * exercise, narrowed to one set id or to one workout id.
   */
  function CreateGetExerciseQuery(constraint: Option<ExerciseSetConstraint>): (q: string)
    ensures |GetAllExercisesQuery| <= |q| && q[..|GetAllExercisesQuery|] == GetAllExercisesQuery
    ensures constraint.None? <==> q == GetAllExercisesQuery
    ensures constraint == Some(ExerciseSetId) ==> q[|GetAllExercisesQuery|..] == " WHERE es.id = ?"
    ensures constraint == Some(WorkoutId) ==> q[|GetAllExercisesQuery|..] == " WHERE es.workout_id = ?"
  {
    match constraint
    case Some(ExerciseSetId) => GetAllExercisesQuery + " WHERE es.id = ?"
    case Some(WorkoutId) => GetAllExercisesQuery + " WHERE es.workout_id = ?"
    case None => GetAllExercisesQuery
  }

  /** Different constraints give different queries. */
  lemma {:induction false} QueriesAreDistinct(a: Option<ExerciseSetConstraint>, b: Option<ExerciseSetConstraint>)
    requires a != b
    ensures CreateGetExerciseQuery(a) != CreateGetExerciseQuery(b)
  {
    var n := |GetAllExercisesQuery|;
    var qa, qb := CreateGetExerciseQuery(a), CreateGetExerciseQuery(b);
    if a.Some? && b.Some? {
      assert qa[n..] != qb[n..] by {
        assert |" WHERE es.id = ?"| != |" WHERE es.workout_id = ?"|;
      }
    }
  }

  /** The Rust server's data access over the shared database handle. */
  class Pool {
    const db: Db

    constructor (db: Db)
      ensures this.db == db
    {
      this.db := db;
    }

    /**
     * `create_or_update_exercise_set`. With an id: sets the workout, the
     * exercise, the repetitions, the weight and the note of that set, never
     * its creation time; no such set is "no rows". Without: inserts a set
     * created at `now`. In both branches a workout or an exercise that does
     * not exist is refused by the store, the note is normalised as in the Go
     * server, and the exercise's name is looked up after the write (that
     * lookup cannot come back empty, since the foreign key was just checked).
     */
    method CreateOrUpdateExerciseSet(setId: Option<int>, workoutId: int, exerciseId: int, reps: int, weight: int,
                                     note: string, now: int)
      returns (r: Result<ExerciseSetEntity>)
      requires db.Valid()
      modifies db
      ensures db.Valid()
      ensures r.Err? ==> db.Snapshot() == old(db.Snapshot())
      ensures setId.Some? && setId.value !in old(db.sets) ==> r == Err(ErrNoRows)
      ensures (setId.None? || setId.value in old(db.sets)) ==>
        (r.Err? <==> workoutId !in old(db.workouts) || exerciseId !in old(db.exercises))
      ensures r.Err? && r.error != ErrNoRows ==> r.error == ErrForeignKey
      ensures r.Ok? ==>
        && r.value.id in db.sets
        && r.value.workoutId == workoutId && r.value.exerciseId == exerciseId
        && r.value.reps == reps && r.value.weight == weight && r.value.note == Sets.NormalizeNote(note)
        && exerciseId in db.exercises && r.value.exerciseName == db.exercises[exerciseId]
        && r.value.created == db.sets[r.value.id].date
      ensures r.Ok? && setId.Some? ==>
        && r.value.id == setId.value
        && r.value.created == old(db.sets)[setId.value].date
        && ReplaceSet(old(db.Snapshot()), setId.value,
                      SetRow(workoutId, exerciseId, old(db.sets)[setId.value].date, reps, weight, Sets.NormalizeNote(note)))
           == Ok(db.Snapshot())
      ensures r.Ok? && setId.None? ==>
        && r.value.id !in old(db.sets)
        && r.value.created == now
        && InsertSet(old(db.Snapshot()), r.value.id, SetRow(workoutId, exerciseId, now, reps, weight, Sets.NormalizeNote(note)))
           == Ok(db.Snapshot())
    {
      var trimmed := Sets.NormalizeNote(note);
      var id: int;
      var created: int;
      match setId {
        case Some(existing) =>
          if existing !in db.sets {
            return Err(ErrNoRows);
          }
          id, created := existing, db.sets[existing].date;
        case None =>
          id, created := NextId(db.sets.Keys), now;
      }
      if workoutId !in db.workouts || exerciseId !in db.exercises {
        return Err(ErrForeignKey);
      }
      db.sets := db.sets[id := SetRow(workoutId, exerciseId, created, reps, weight, trimmed)];
      var name := db.exercises[exerciseId];
      r := Ok(ExerciseSetEntity(id, exerciseId, name, workoutId, created, reps, weight, trimmed));
    }

    /**
     * `delete_exercise`: `Some` when the exercise was deleted, `None` when no
     * exercise had that id; the store refuses while a set uses it.
     */
    method DeleteExercise(id: int) returns (r: Result<Option<()>>)
      requires db.Valid()
      modifies db
      ensures db.Valid()
      ensures r.Err? <==> SetsOfExercise(old(db.Snapshot()), id) != {}
      ensures r.Err? ==> r.error == ErrForeignKey && db.Snapshot() == old(db.Snapshot())
      ensures r.Ok? ==> (r.value.Some? <==> id in old(db.exercises))
      ensures r.Ok? ==> Store.DeleteExercise(old(db.Snapshot()), id) == Ok(db.Snapshot())
    {
      var used := SetsOfExercise(db.Snapshot(), id);
      if used != {} {
        return Err(ErrForeignKey);
      }
      var removed := id in db.exercises;
      db.exercises := db.exercises - {id};
      r := Ok(if removed then Some(()) else None);
    }

    /** `delete_workout`: `Some` exactly when a workout was deleted; its sets go with it. */
    method DeleteWorkout(id: int) returns (r: Result<Option<()>>)
      requires db.Valid()
      modifies db
      ensures db.Valid()
      ensures r.Ok? && (r.value.Some? <==> id in old(db.workouts))
      ensures db.Snapshot() == Store.DeleteWorkout(old(db.Snapshot()), id)
    {
      var removed := id in db.workouts;
      db.workouts := db.workouts - {id};
      db.sets := map s | s in db.sets && db.sets[s].workoutId != id :: db.sets[s];
      r := Ok(if removed then Some(()) else None);
    }

    /** `delete_exercise_set`: `Some` exactly when a set was deleted. */
    method DeleteExerciseSet(id: int) returns (r: Result<Option<()>>)
      requires db.Valid()
      modifies db
      ensures db.Valid()
      ensures r.Ok? && (r.value.Some? <==> id in old(db.sets))
      ensures db.Snapshot() == DeleteSet(old(db.Snapshot()), id)
    {
      var removed := id in db.sets;
      db.sets := db.sets - {id};
      r := Ok(if removed then Some(()) else None);
    }
  }
}
