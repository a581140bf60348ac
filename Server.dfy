/**
 * The HTTP layer of the Rust server: the middleware that checks that the
 * entity named in the path exists, the handlers that turn the data-access
 * layer's `Result<Option<_>>` into a status, the rendering of `AppError`,
 * and the mapping of request paths onto the embedded static files.
 */
module Server {
  import opened Store
  import Http
  import Dal
  import Api

  /** `AppError`: a failure of the data-access layer, or a status a handler chose. */
  datatype AppError = Failure(error: DbError) | StatusCode(status: int)

  /** `AppError::into_response`: a failure is always a 500; a chosen status is sent as it is. */
  function IntoResponse(e: AppError): (status: int)
    ensures e.Failure? ==> status == Http.InternalServerError
    ensures e.StatusCode? ==> status == e.status
  {
    match e
    case Failure(_) => Http.InternalServerError
    case StatusCode(s) => s
  }

  /**
   * `check_workout_exists`, `check_exercise_exists` and
   * `check_exercise_set_exists`: a failed lookup is a 500, no row a 404, and
   * a row hands the request on.
   */
  function CheckExists<T>(lookup: Result<Option<T>>): (r: Http.Decision)
    ensures r == Http.Next <==> lookup.Ok? && lookup.value.Some?
    ensures r == Http.Halt(Http.InternalServerError) <==> lookup.Err?
    ensures r == Http.Halt(Http.NotFound) <==> lookup == Ok(None)
  {
    match lookup
    case Err(_) => Http.Halt(Http.InternalServerError)
    case Ok(None) => Http.Halt(Http.NotFound)
    case Ok(Some(_)) => Http.Next
  }

  /**
   * On an id that parsed, the Rust guards decide exactly as the current Go
   * guards: the same requests pass, and the same ones get 404 and 500.
   */
  lemma GuardsAgreeWithGo(t: Tables, id: int, failed: bool)
    ensures CheckExists(Api.Lookup(failed, Dal.GetWorkout(t, id))) == Api.WorkoutMustExist(t, Some(id), failed)
    ensures CheckExists(Api.Lookup(failed, Dal.GetExercise(t, id))) == Api.ExerciseMustExist(t, Some(id), failed)
    ensures CheckExists(Api.Lookup(failed, Dal.GetExerciseSet(t, id))) == Api.SetMustExist(t, Some(id), failed)
  {
    Dal.GetExerciseSetAgreesWithByID(t, id);
  }

  /** The status and, on success, the JSON body of a handler. */
  datatype Response<T> = Response(status: int, body: Option<T>)

  /**
   * The `get_*` by-id handlers: the row as JSON; no row is
   * `AppError::StatusCode(404)`, a failure `AppError::Err`.
   */
  function GetResponse<T>(lookup: Result<Option<T>>): (r: Response<T>)
    ensures r.status == Http.OK <==> lookup.Ok? && lookup.value.Some?
    ensures r.status == Http.OK ==> r.body == lookup.value
    ensures r.status == Http.NotFound <==> lookup == Ok(None)
    ensures r.status == Http.InternalServerError <==> lookup.Err?
    ensures r.status != Http.OK ==> r.body.None?
  {
    match lookup
    case Err(e) => Response(IntoResponse(Failure(e)), None)
    case Ok(None) => Response(IntoResponse(StatusCode(Http.NotFound)), None)
    case Ok(Some(v)) => Response(Http.OK, Some(v))
  }

  /** With the database working, a by-id handler answers 200 exactly for the rows the store holds. */
  lemma GetFindsStoredRows(t: Tables, id: int)
    ensures GetResponse(Ok(Dal.GetWorkout(t, id))).status == Http.OK <==> id in t.workouts
    ensures GetResponse(Ok(Dal.GetExercise(t, id))).status == Http.OK <==> id in t.exercises
    ensures Consistent(t) ==> (GetResponse(Ok(Dal.GetExerciseSet(t, id))).status == Http.OK <==> id in t.sets)
  {
  }

  /**
   * The `delete_*` handlers: 204 when a row was deleted, 404 when there was
   * none, 500 when the data-access layer failed.
   */
  function DeleteResponse(r: Result<Option<()>>): (status: int)
    ensures status == Http.NoContent <==> r.Ok? && r.value.Some?
    ensures status == Http.NotFound <==> r == Ok(None)
    ensures status == Http.InternalServerError <==> r.Err?
  {
    match r
    case Err(e) => IntoResponse(Failure(e))
    case Ok(None) => IntoResponse(StatusCode(Http.NotFound))
    case Ok(Some(_)) => Http.NoContent
  }

  /** Drops every leading '/' (`trim_start_matches('/')`). */
  function TrimStartSlashes(s: string): (r: string)
    ensures |r| <= |s| && r == s[|s| - |r|..]
    ensures forall i | 0 <= i < |s| - |r| :: s[i] == '/'
    ensures r == [] || r[0] != '/'
  {
    if s != [] && s[0] == '/' then TrimStartSlashes(s[1..]) else s
  }

  /** The embedded file a request path names: leading slashes dropped, the root is `index.html`. */
  function StaticPath(path: string): (r: string)
    ensures (forall i | 0 <= i < |path| :: path[i] == '/') ==> r == "index.html"
    ensures (exists i | 0 <= i < |path| :: path[i] != '/') ==>
      r != [] && r[0] != '/' && exists k | 0 <= k < |path| :: r == path[k..] && forall i | 0 <= i < k :: path[i] == '/'
  {
    var trimmed := TrimStartSlashes(path);
    if trimmed == [] then
      assert forall i | 0 <= i < |path| :: path[i] == '/';
      "index.html"
    else
      assert trimmed == path[|path| - |trimmed|..];
      trimmed
  }

  /** Extra leading slashes name the same file. */
  lemma {:induction false} StaticPathIgnoresLeadingSlash(path: string)
    ensures StaticPath("/" + path) == StaticPath(path)
  {
    assert ("/" + path)[1..] == path;
  }

  /** `get_static_file`: 404 when no embedded file has that path, otherwise the file. */
  function GetStaticFile(path: string, files: map<string, string>): (r: Response<string>)
    ensures r.status == Http.NotFound <==> StaticPath(path) !in files
    ensures r.status != Http.NotFound ==> r.status == Http.OK && r.body == Some(files[StaticPath(path)])
    ensures r.status == Http.NotFound ==> r.body.None?
  {
    var name := StaticPath(path);
    if name !in files then Response(Http.NotFound, None) else Response(Http.OK, Some(files[name]))
  }

  /** The Rust handlers that change the store, over the data-access layer. */
  class App {
    const pool: Dal.Pool

    constructor (pool: Dal.Pool)
      ensures this.pool == pool
    {
      this.pool := pool;
    }

    /** `delete_workout`: 204 and the workout gone with its sets, or 404 when there was none. */
    method DeleteWorkout(id: int) returns (status: int)
      requires pool.db.Valid()
      modifies pool.db
      ensures pool.db.Valid()
      ensures status == (if id in old(pool.db.workouts) then Http.NoContent else Http.NotFound)
      ensures pool.db.Snapshot() == Store.DeleteWorkout(old(pool.db.Snapshot()), id)
    {
      var r := pool.DeleteWorkout(id);
      status := DeleteResponse(r);
    }

    /**
     * `delete_exercise`: 204 when deleted, 404 when there was none; an
     * exercise still used by a set makes the store refuse, which reaches the
     * client as a 500.
     */
    method DeleteExercise(id: int) returns (status: int)
      requires pool.db.Valid()
      modifies pool.db
      ensures pool.db.Valid()
      ensures SetsOfExercise(old(pool.db.Snapshot()), id) != {} ==>
        status == Http.InternalServerError && pool.db.Snapshot() == old(pool.db.Snapshot())
      ensures SetsOfExercise(old(pool.db.Snapshot()), id) == {} ==>
        && status == (if id in old(pool.db.exercises) then Http.NoContent else Http.NotFound)
        && Store.DeleteExercise(old(pool.db.Snapshot()), id) == Ok(pool.db.Snapshot())
    {
      var r := pool.DeleteExercise(id);
      status := DeleteResponse(r);
    }

    /** `delete_exercise_set`: 204 when deleted, 404 when there was none. */
    method DeleteExerciseSet(id: int) returns (status: int)
      requires pool.db.Valid()
      modifies pool.db
      ensures pool.db.Valid()
      ensures status == (if id in old(pool.db.sets) then Http.NoContent else Http.NotFound)
      ensures pool.db.Snapshot() == DeleteSet(old(pool.db.Snapshot()), id)
    {
      var r := pool.DeleteExerciseSet(id);
      status := DeleteResponse(r);
    }
  }
}
