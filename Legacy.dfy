/**
 * The older single-file Go server. Its queries are the repository's with
 * three differences: exercise names are neither trimmed when stored nor
 * when compared, the guards answer 400 rather than 404 for a missing
 * entity, and an existing name on creation is a 400 rather than a 409.
 * Updating a set does not touch its note. Its statistics are the
 * repository's code, character for character.
 */
module Legacy {
  import Order
  import Text
  import Http
  import opened Store
  import Workouts
  import Exercises
  import Sets
  import Api

  /** `existsExerciseName`: some stored name equals the argument up to ASCII letter case; no trimming. */
  function ExistsExerciseName(t: Tables, name: string): (r: bool)
    ensures r <==> exists e | e in t.exercises :: Text.Lower(t.exercises[e]) == Text.Lower(name)
  {
    var probe := Text.Lower(name);
    var rows := set e | e in t.exercises && Text.Lower(t.exercises[e]) == probe;
    Order.EmptyOrInhabited(rows);
    assert forall e | e in rows :: e in t.exercises && Text.Lower(t.exercises[e]) == probe;
    assert forall e | e in t.exercises && Text.Lower(t.exercises[e]) == probe :: e in rows;
    rows != {}
  }

  /** On a name without surrounding white space both servers give the same answer. */
  lemma ExistsNameAgreesOnTrimmedNames(t: Tables, name: string)
    requires Text.TrimSpace(name) == name
    ensures ExistsExerciseName(t, name) == Exercises.ExistsName(t, name)
  {
  }

  /**
   * With surrounding white space they differ: when every stored name is
   * already trimmed, a padded argument matches no stored name here, while
   * the repository answers as for the unpadded name.
   */
  lemma ExistsNameDiffersOnPadding(t: Tables, p: string, name: string, q: string)
    requires forall e | e in t.exercises :: Text.TrimSpace(t.exercises[e]) == t.exercises[e]
    requires Text.AllSpace(p) && Text.AllSpace(q) && p + q != []
    ensures !ExistsExerciseName(t, p + name + q)
    ensures Exercises.ExistsName(t, p + name + q) == Exercises.ExistsName(t, name)
  {
    Exercises.ExistsNameIgnoresPaddingAndCase(t, p, name, q);
    forall e | e in t.exercises ensures Text.Lower(t.exercises[e]) != Text.Lower(p + name + q) {
      Text.PaddedNeverLowersToTrimmed(t.exercises[e], p, name, q);
    }
  }

  /** `exerciseMustExist` here: as in the current server, except that a missing exercise is a 400. */
  function ExerciseMustExist(t: Tables, parsed: Option<int>, failed: bool): (r: Http.Decision)
    ensures r == Http.Next <==> parsed.Some? && !failed && parsed.value in t.exercises
    ensures r == Http.Halt(Http.BadRequest) <==> parsed.None? || (!failed && parsed.value !in t.exercises)
    ensures r == Http.Halt(Http.InternalServerError) <==> parsed.Some? && failed
  {
    var lookup := if parsed.Some? then Api.Lookup(failed, Exercises.ExistsID(t, parsed.value)) else Ok(false);
    Http.ExistsGuard(parsed, lookup, Http.BadRequest)
  }

  /** `workoutMustExist` here: a missing workout is a 400. */
  function WorkoutMustExist(t: Tables, parsed: Option<int>, failed: bool): (r: Http.Decision)
    ensures r == Http.Next <==> parsed.Some? && !failed && parsed.value in t.workouts
    ensures r == Http.Halt(Http.BadRequest) <==> parsed.None? || (!failed && parsed.value !in t.workouts)
    ensures r == Http.Halt(Http.InternalServerError) <==> parsed.Some? && failed
  {
    var lookup := if parsed.Some? then Api.Lookup(failed, Workouts.Exists(t, parsed.value)) else Ok(false);
    Http.ExistsGuard(parsed, lookup, Http.BadRequest)
  }

  /** `setMustExist` here: "no rows" is a 400. */
  function SetMustExist(t: Tables, parsed: Option<int>, failed: bool): (r: Http.Decision)
    ensures r == Http.Next <==> parsed.Some? && !failed && Sets.ByID(t, parsed.value).Ok?
    ensures r == Http.Halt(Http.BadRequest) <==> parsed.None? || (!failed && Sets.ByID(t, parsed.value).Err?)
    ensures r == Http.Halt(Http.InternalServerError) <==> parsed.Some? && failed
  {
    var lookup: Result<Sets.SetEntity> := if parsed.Some? && !failed then Sets.ByID(t, parsed.value) else Err(ErrIO);
    Http.RowGuard(parsed, lookup, Http.BadRequest)
  }

  /** The missing-entity status aside, the guards of both servers decide alike. */
  lemma {:induction false} GuardsDifferOnlyInMissingStatus(t: Tables, parsed: Option<int>, failed: bool)
    ensures ExerciseMustExist(t, parsed, failed) ==
      (if Api.ExerciseMustExist(t, parsed, failed) == Http.Halt(Http.NotFound) then Http.Halt(Http.BadRequest)
       else Api.ExerciseMustExist(t, parsed, failed))
    ensures WorkoutMustExist(t, parsed, failed) ==
      (if Api.WorkoutMustExist(t, parsed, failed) == Http.Halt(Http.NotFound) then Http.Halt(Http.BadRequest)
       else Api.WorkoutMustExist(t, parsed, failed))
    ensures SetMustExist(t, parsed, failed) ==
      (if Api.SetMustExist(t, parsed, failed) == Http.Halt(Http.NotFound) then Http.Halt(Http.BadRequest)
       else Api.SetMustExist(t, parsed, failed))
  {
    var a := Api.ExerciseMustExist(t, parsed, failed);
    var b := Api.WorkoutMustExist(t, parsed, failed);
    var c := Api.SetMustExist(t, parsed, failed);
    assert a == Http.Next || a == Http.Halt(Http.BadRequest) || a == Http.Halt(Http.InternalServerError) || a == Http.Halt(Http.NotFound);
    assert b == Http.Next || b == Http.Halt(Http.BadRequest) || b == Http.Halt(Http.InternalServerError) || b == Http.Halt(Http.NotFound);
    assert c == Http.Next || c == Http.Halt(Http.BadRequest) || c == Http.Halt(Http.InternalServerError) || c == Http.Halt(Http.NotFound);
  }

  /** `setRecommendationByWorkoutID`: the same three steps as the repository, with the same sentinel. */
  function SetRecommendationByWorkoutID(t: Tables, id: int): (r: Workouts.SetRecommendation)
    ensures r == Workouts.RecommendNewSet(t, id)
  {
    Workouts.Recommend(t, id, -1)
  }

  /** The data-access part of the older server. */
  class Database {
    const db: Db

    constructor (db: Db)
      ensures this.db == db
    {
      this.db := db;
    }

    /** `createExercise`: stores and returns the name exactly as given. */
    method CreateExercise(name: string) returns (e: Exercises.ExerciseEntity)
      requires db.Valid()
      modifies db
      ensures db.Valid()
      ensures e.name == name
      ensures e.id !in old(db.exercises) && forall k | k in old(db.exercises) :: k < e.id
      ensures db.Snapshot() == InsertExercise(old(db.Snapshot()), e.id, name)
    {
      var id := NextId(db.exercises.Keys);
      db.exercises := db.exercises[id := name];
      e := Exercises.ExerciseEntity(id, name);
    }

    /**
     * `deleteExercise`: refuses while the count of sets using the exercise
     * is positive, deleting nothing; otherwise deletes it (a missing id is
     * not an error).
     */
    method DeleteExercise(id: int) returns (r: Result<()>)
      requires db.Valid()
      modifies db
      ensures db.Valid()
      ensures r.Err? <==> Exercises.UsageInSets(old(db.Snapshot()), id) > 0
      ensures r.Err? ==> r.error == ErrExerciseExists && db.Snapshot() == old(db.Snapshot())
      ensures r.Ok? ==> Store.DeleteExercise(old(db.Snapshot()), id) == Ok(db.Snapshot())
    {
      var count := Exercises.UsageInSets(db.Snapshot(), id);
      if count > 0 {
        return Err(ErrExerciseExists);
      }
      Exercises.UnusedWhenCountIsZero(db.Snapshot(), id);
      db.exercises := db.exercises - {id};
      r := Ok(());
    }

    /**
     * `updateSet`: sets the exercise, the repetitions and the weight of set
     * `id`; its workout, date and note stay. No matching row is not an
     * error; an exercise that does not exist is refused by the store.
     */
    method UpdateSet(id: int, exerciseId: int, reps: int, weight: int) returns (r: Result<()>)
      requires db.Valid()
      modifies db
      ensures db.Valid()
      ensures r.Err? <==> id in old(db.sets) && exerciseId !in old(db.exercises)
      ensures r.Err? ==> r.error == ErrForeignKey && db.Snapshot() == old(db.Snapshot())
      ensures id !in old(db.sets) ==> db.Snapshot() == old(db.Snapshot())
      ensures id in old(db.sets) && r.Ok? ==>
        ReplaceSet(old(db.Snapshot()), id, old(db.sets)[id].(exerciseId := exerciseId, reps := reps, weight := weight))
        == Ok(db.Snapshot())
    {
      if id !in db.sets {
        return Ok(());
      }
      if exerciseId !in db.exercises {
        return Err(ErrForeignKey);
      }
      db.sets := db.sets[id := db.sets[id].(exerciseId := exerciseId, reps := reps, weight := weight)];
      r := Ok(());
    }

    /** `deleteWorkout`: ErrNoRows when no row was affected; the workout's sets go with it. */
    method DeleteWorkout(id: int) returns (r: Result<()>)
      requires db.Valid()
      modifies db
      ensures db.Valid()
      ensures r.Ok? <==> id in old(db.workouts)
      ensures r.Err? ==> r.error == ErrNoRows
      ensures db.Snapshot() == Store.DeleteWorkout(old(db.Snapshot()), id)
    {
      var rowsAffected := if id in db.workouts then 1 else 0;
      db.workouts := db.workouts - {id};
      db.sets := map s | s in db.sets && db.sets[s].workoutId != id :: db.sets[s];
      r := if rowsAffected == 0 then Err(ErrNoRows) else Ok(());
    }
  }

  /** The request handlers of the older server that decide more than they forward. */
  class Application {
    const database: Database

    constructor (database: Database)
      ensures this.database == database
    {
      this.database := database;
    }

    /**
     * `handleCreateExercise`: 400 for a body that is not JSON and also for a
     * name that exists already (compared without trimming); 500 when the
     * name check (database call 0) or the insert (call 1) fails; otherwise
     * the new exercise, stored and returned with the name as sent.
     */
    method CreateExercise(body: Option<string>, fault: Option<nat>) returns (w: Http.Writer<Api.Reply>)
      requires database.db.Valid()
      modifies database.db
      ensures database.db.Valid()
      ensures Http.Status(w) != Http.OK ==> database.db.Snapshot() == old(database.db.Snapshot())
      ensures body.None? ==> Http.Status(w) == Http.BadRequest
      ensures body.Some? && fault == Some(0) ==> Http.Status(w) == Http.InternalServerError
      ensures body.Some? && fault != Some(0) && ExistsExerciseName(old(database.db.Snapshot()), body.value) ==>
        Http.Status(w) == Http.BadRequest
      ensures body.Some? && fault != Some(0) && !ExistsExerciseName(old(database.db.Snapshot()), body.value) ==>
        if fault == Some(1) then Http.Status(w) == Http.InternalServerError
        else
          && Http.Status(w) == Http.OK
          && |w.body| == 1 && w.body[0].Json? && w.body[0].value.ExerciseReply?
          && w.body[0].value.name == body.value
          && w.body[0].value.id !in old(database.db.exercises)
          && database.db.Snapshot() == InsertExercise(old(database.db.Snapshot()), w.body[0].value.id, body.value)
    {
      w := Http.Fresh();
      if body.None? {
        return Http.WriteHeader(w, Http.BadRequest);
      }
      var name := body.value;
      var found := Api.Lookup(fault == Some(0), ExistsExerciseName(database.db.Snapshot(), name));
      if found.Err? {
        return Http.WriteHeader(w, Http.InternalServerError);
      }
      if found.value {
        return Http.WriteHeader(w, Http.BadRequest);
      }
      if fault == Some(1) {
        return Http.WriteHeader(w, Http.InternalServerError);
      }
      var exercise := database.CreateExercise(name);
      w := Http.WriteJson(w, Api.ExerciseReply(exercise.id, exercise.name));
    }
  }
}
