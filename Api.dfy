/**
 * The REST layer of the current Go server: the guards that check that the
 * entity named in the URL exists before the wrapped handler runs, and the
 * exercise handlers. A database call may fail with an I/O error; which call
 * fails is an input (`fault`), so every error branch is reachable.
 */
module Api {
  import Text
  import Http
  import opened Store
  import Workouts
  import Exercises
  import Sets

  /** What a database call returns: the store's answer, unless the call failed. */
  function Lookup<T>(failed: bool, answer: T): (r: Result<T>)
    ensures r.Err? <==> failed
    ensures r.Err? ==> r.error == ErrIO
    ensures r.Ok? ==> r.value == answer
  {
    if failed then Err(ErrIO) else Ok(answer)
  }

  /**
   * `exerciseMustExist`: 400 for an id that does not parse, 500 when the
   * lookup fails, 404 (not the 400 its doc comment announces) for an
   * exercise that does not exist; only an existing exercise reaches the
   * wrapped handler.
   */
  function ExerciseMustExist(t: Tables, parsed: Option<int>, failed: bool): (r: Http.Decision)
    ensures r == Http.Next <==> parsed.Some? && !failed && parsed.value in t.exercises
    ensures r == Http.Halt(Http.BadRequest) <==> parsed.None?
    ensures r == Http.Halt(Http.InternalServerError) <==> parsed.Some? && failed
    ensures r == Http.Halt(Http.NotFound) <==> parsed.Some? && !failed && parsed.value !in t.exercises
  {
    var lookup := if parsed.Some? then Lookup(failed, Exercises.ExistsID(t, parsed.value)) else Ok(false);
    Http.ExistsGuard(parsed, lookup, Http.NotFound)
  }

  /** `workoutMustExist`: the same decision over the workout table. */
  function WorkoutMustExist(t: Tables, parsed: Option<int>, failed: bool): (r: Http.Decision)
    ensures r == Http.Next <==> parsed.Some? && !failed && parsed.value in t.workouts
    ensures r == Http.Halt(Http.BadRequest) <==> parsed.None?
    ensures r == Http.Halt(Http.InternalServerError) <==> parsed.Some? && failed
    ensures r == Http.Halt(Http.NotFound) <==> parsed.Some? && !failed && parsed.value !in t.workouts
  {
    var lookup := if parsed.Some? then Lookup(failed, Workouts.Exists(t, parsed.value)) else Ok(false);
    Http.ExistsGuard(parsed, lookup, Http.NotFound)
  }

  /**
   * `setMustExist`: fetches the set by id; "no rows" is 404, any other
   * error 500, and a set that is found reaches the wrapped handler.
   */
  function SetMustExist(t: Tables, parsed: Option<int>, failed: bool): (r: Http.Decision)
    ensures r == Http.Next <==> parsed.Some? && !failed && Sets.ByID(t, parsed.value).Ok?
    ensures r == Http.Halt(Http.BadRequest) <==> parsed.None?
    ensures r == Http.Halt(Http.InternalServerError) <==> parsed.Some? && failed
    ensures r == Http.Halt(Http.NotFound) <==> parsed.Some? && !failed && Sets.ByID(t, parsed.value).Err?
  {
    var lookup: Result<Sets.SetEntity> := if parsed.Some? && !failed then Sets.ByID(t, parsed.value) else Err(ErrIO);
    Http.RowGuard(parsed, lookup, Http.NotFound)
  }

  /** With the foreign keys intact, the set guard lets a request through exactly when the set exists. */
  lemma SetGuardPassesExistingSets(t: Tables, id: int)
    requires Consistent(t)
    ensures SetMustExist(t, Some(id), false) == Http.Next <==> id in t.sets
  {
    Sets.ByIDFailsOnlyForMissing(t, id);
  }

  /** What the exercise handlers send as JSON. */
  datatype Reply = ExerciseReply(id: int, name: string) | CountReply(count: int)

  /**
   * `handleGetExerciseCountInSets`: 400 for an id that does not parse; the
   * existence check (database call 0) failing gives 500 with no body; 404
   * for an exercise that does not exist; otherwise the count of sets using
   * the exercise. When the count query (call 1) fails the status is 500 but
   * a count of 0 is still written.
   */
  function CountInSets(t: Tables, parsed: Option<int>, fault: Option<nat>): (w: Http.Writer<Reply>)
    ensures parsed.None? ==> Http.Status(w) == Http.BadRequest
    ensures parsed.Some? && fault == Some(0) ==> Http.Status(w) == Http.InternalServerError && w.body == []
    ensures parsed.Some? && fault != Some(0) && parsed.value !in t.exercises ==> Http.Status(w) == Http.NotFound
    ensures parsed.Some? && fault == Some(1) && parsed.value in t.exercises ==>
      Http.Status(w) == Http.InternalServerError && w.body == [Http.Json(CountReply(0))]
    ensures parsed.Some? && fault != Some(0) && fault != Some(1) && parsed.value in t.exercises ==>
      Http.Status(w) == Http.OK && w.body == [Http.Json(CountReply(|SetsOfExercise(t, parsed.value)|))]
  {
    var w := Http.Fresh();
    match parsed
    case None => Http.Error(w, "invalid query parameter", Http.BadRequest)
    case Some(id) =>
      var found := Lookup(fault == Some(0), Exercises.ExistsID(t, id));
      if found.Err? then Http.WriteHeader(w, Http.InternalServerError)
      else if !found.value then Http.Error(w, "exercise does not exist", Http.NotFound)
      else
        var count := Lookup(fault == Some(1), Exercises.UsageInSets(t, id));
        var w' := if count.Err? then Http.WriteHeader(w, Http.InternalServerError) else w;
        Http.WriteJson(w', CountReply(if count.Ok? then count.value else 0))
  }

  /** The exercise handlers over the exercise repository. */
  class ExerciseHandlers {
    const repo: Exercises.ExerciseRepository

    constructor (repo: Exercises.ExerciseRepository)
      ensures this.repo == repo
    {
      this.repo := repo;
    }

    /**
     * `handleCreateExercise`: 400 for a body that is not JSON; 500 when the
     * name check (database call 0) or the insert (call 1) fails; 409, with
     * nothing inserted, when an exercise of that name exists; otherwise the
     * new exercise, carrying the name as sent.
     */
    method CreateExercise(body: Option<string>, fault: Option<nat>) returns (w: Http.Writer<Reply>)
      requires repo.db.Valid()
      modifies repo.db
      ensures repo.db.Valid()
      ensures Http.Status(w) != Http.OK ==> repo.db.Snapshot() == old(repo.db.Snapshot())
      ensures body.None? ==> Http.Status(w) == Http.BadRequest
      ensures body.Some? && fault == Some(0) ==> Http.Status(w) == Http.InternalServerError
      ensures body.Some? && fault != Some(0) && Exercises.ExistsName(old(repo.db.Snapshot()), body.value) ==>
        Http.Status(w) == Http.Conflict
      ensures body.Some? && fault != Some(0) && !Exercises.ExistsName(old(repo.db.Snapshot()), body.value) ==>
        if fault == Some(1) then Http.Status(w) == Http.InternalServerError
        else
          && Http.Status(w) == Http.OK
          && |w.body| == 1 && w.body[0].Json? && w.body[0].value.ExerciseReply?
          && w.body[0].value.name == body.value
          && w.body[0].value.id !in old(repo.db.exercises)
          && repo.db.Snapshot() == InsertExercise(old(repo.db.Snapshot()), w.body[0].value.id, Text.TrimSpace(body.value))
    {
      w := Http.Fresh();
      if body.None? {
        return Http.Error(w, "invalid json", Http.BadRequest);
      }
      var name := body.value;
      var found := Lookup(fault == Some(0), Exercises.ExistsName(repo.db.Snapshot(), name));
      if found.Err? {
        return Http.WriteHeader(w, Http.InternalServerError);
      }
      if found.value {
        return Http.Error(w, "exercise already exists", Http.Conflict);
      }
      if fault == Some(1) {
        return Http.WriteHeader(w, Http.InternalServerError);
      }
      var exercise := repo.Create(name);
      w := Http.WriteJson(w, ExerciseReply(exercise.id, exercise.name));
    }

    /**
     * `handleDeleteExercise`: 400 for an id that does not parse; 409, with
     * nothing deleted, while sets use the exercise. When the delete fails
     * the handler writes 500 and then, falling through, 200: the first
     * status wins, so the client receives 500. Otherwise the exercise is
     * deleted and the status is 200.
     */
    method DeleteExercise(parsed: Option<int>, failed: bool) returns (w: Http.Writer<Reply>)
      requires repo.db.Valid()
      modifies repo.db
      ensures repo.db.Valid()
      ensures w.body == [] || w.body == [Http.Message("exercise is used in sets")] || w.body == [Http.Message("invalid query parameter")]
      ensures parsed.None? ==> Http.Status(w) == Http.BadRequest && repo.db.Snapshot() == old(repo.db.Snapshot())
      ensures parsed.Some? && failed ==> Http.Status(w) == Http.InternalServerError && repo.db.Snapshot() == old(repo.db.Snapshot())
      ensures parsed.Some? && !failed ==>
        if Exercises.UsageInSets(old(repo.db.Snapshot()), parsed.value) > 0 then
          Http.Status(w) == Http.Conflict && repo.db.Snapshot() == old(repo.db.Snapshot())
        else
          Http.Status(w) == Http.OK && Store.DeleteExercise(old(repo.db.Snapshot()), parsed.value) == Ok(repo.db.Snapshot())
    {
      w := Http.Fresh();
      if parsed.None? {
        return Http.Error(w, "invalid query parameter", Http.BadRequest);
      }
      var r: Result<()>;
      if failed {
        r := Err(ErrIO);
      } else {
        r := repo.Delete(parsed.value);
      }
      if r.Err? {
        if r.error == ErrExerciseExists {
          return Http.Error(w, "exercise is used in sets", Http.Conflict);
        }
        w := Http.WriteHeader(w, Http.InternalServerError);
      }
      w := Http.WriteHeader(w, Http.OK);
    }

    /**
     * `handleUpdateExercise`: 400 for an id that does not parse or a body
     * that is not JSON; 500 when the update fails; otherwise the exercise is
     * renamed to the trimmed name and the reply carries the id and the name
     * as sent. No check for a duplicate name is made.
     */
    method UpdateExercise(parsed: Option<int>, body: Option<string>, failed: bool) returns (w: Http.Writer<Reply>)
      requires repo.db.Valid()
      modifies repo.db
      ensures repo.db.Valid()
      ensures Http.Status(w) != Http.OK ==> repo.db.Snapshot() == old(repo.db.Snapshot())
      ensures parsed.None? || body.None? ==> Http.Status(w) == Http.BadRequest
      ensures parsed.Some? && body.Some? && failed ==> Http.Status(w) == Http.InternalServerError
      ensures parsed.Some? && body.Some? && !failed ==>
        && Http.Status(w) == Http.OK
        && w.body == [Http.Json(ExerciseReply(parsed.value, body.value))]
        && repo.db.Snapshot() == RenameExercise(old(repo.db.Snapshot()), parsed.value, Text.TrimSpace(body.value))
    {
      w := Http.Fresh();
      if parsed.None? {
        return Http.Error(w, "invalid query parameter", Http.BadRequest);
      }
      if body.None? {
        return Http.Error(w, "invalid json", Http.BadRequest);
      }
      if failed {
        return Http.WriteHeader(w, Http.InternalServerError);
      }
      var exercise := repo.Update(parsed.value, body.value);
      w := Http.WriteJson(w, ExerciseReply(exercise.id, exercise.name));
    }
  }
}
