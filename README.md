# Workout tracker: a verified model of the server core

This project models the decision logic of the workout tracker's server. The
logic appears in three iterations, all over the same SQLite schema:

- the current Go server: the repositories in `repository/` and the REST
  guards and exercise handlers in `api/`;
- the older single-file Go server, `main.go`;
- the Rust server: the data-access layer `dal.rs` and the axum handlers in
  `server.rs`.

The database is modelled as three tables of values in `Store.Tables`:
- workouts (id to start time);
- exercises (id to name);
- sets (id to workout, exercise, date, repetitions, weight, optional note).

Each SQL statement becomes a transition function from one snapshot to the
next. Foreign keys are enforced, and deleting a workout cascades to its sets.
The current time and the failure of a database call are inputs.

Modules follow the source files:

| module | source |
|---|---|
| `Store`, `Order`, `Text` | the schema and SQL semantics; `ORDER BY … LIMIT 1` as "a row no other row precedes"; ASCII `TrimSpace`/`LOWER` |
| `Workouts`, `Exercises`, `Sets`, `Statistics` | `repository/*.go` (queries as functions, writes as methods of repository classes over a shared `Store.Db`) |
| `Http`, `Api` | `api/api.go`, `api/exercise.go`, `api/http.go` (guards and handlers; the Go response writer's "first status wins") |
| `Legacy` | `main.go` |
| `Dal`, `Server` | `src/dal.rs`, `src/server.rs` |

Lemmas relate the three iterations where they agree and state exactly where
they differ:
- the recommendation sentinel is −1 in Go and 0 in Rust;
- `main.go`'s guards answer 400 where the others answer 404;
- `main.go` does not trim exercise names;
- Rust answers an empty store's statistics with zeros.

## Model

| member | source | states |
|---|---|---|
| Store.NextId | server/repository/workout.go:67-84 | a new row's id is fresh and larger than every id in use (SQLite rowid) |
| Store.SetsOfWorkout | server/repository/workout.go:145-160 | exactly the sets whose workout is `w` |
| Store.SetsOfExercise | server/repository/exercise.go:98-115 | exactly the sets that name exercise `e` |
| Store.WorkoutsWithSets | server/repository/statistics.go:39-46 | exactly the existing workouts that have at least one set (the join) |
| Store.InsertWorkout | server/repository/workout.go:67-84 | a new workout under the fresh id with the given start; nothing else changes; consistency kept |
| Store.DeleteWorkout | server/repository/workout.go:86-108 | the workout and exactly its sets are gone; everything else is unchanged; consistency kept |
| Store.InsertExercise | server/repository/exercise.go:163-180 | a new exercise under the fresh id; nothing else changes |
| Store.RenameExercise | server/repository/exercise.go:182-195 | only that exercise's name changes; an absent id changes nothing |
| Store.DeleteExercise | server/repository/exercise.go:197-221 | refused with a foreign-key error exactly when a set names the exercise; otherwise only the exercise goes |
| Store.InsertSet | server/repository/set.go:131-158 | adds the row under the fresh id unless its workout or exercise is missing (foreign key) |
| Store.ReplaceSet | server/repository/set.go:160-182 | overwrites that set's row unless the new row breaks a foreign key; other sets unchanged |
| Store.DeleteSet | server/repository/set.go:184-196 | the set is gone, nothing else changes; an absent id changes nothing |
| Order.First | server/repository/workout.go:145-181 | `ORDER BY … LIMIT 1`: the picked row is in the set and no row precedes it |
| Order.SortBy | server/repository/workout.go:126-141 | `ORDER BY`: a permutation of the keys (each once) in the given order |
| Order.MaxOf | server/repository/workout.go:165-181 | `MAX(id)`: a member no member exceeds |
| Text.TrimSpace | server/repository/exercise.go:150 | the argument minus its leading and trailing white space, keeping no white space at either end |
| Text.TrimSpacePadding | server/repository/exercise.go:150 | white space added around a string does not change its trimmed form |
| Text.TrimSpaceIdempotent | server/repository/set.go:149 | trimming twice is trimming once |
| Text.Lower | server/repository/exercise.go:144 | ASCII `LOWER`, length-preserving |
| Text.LowerTrimSpace | server/repository/exercise.go:144-150 | lower-casing commutes with trimming |
| Workouts.Exists | server/repository/workout.go:110-124 | true iff a workout has the id |
| Workouts.All | server/repository/workout.go:126-141 | every workout exactly once, with its start, latest start first |
| Workouts.LatestOf | server/repository/workout.go:145-160 | `ORDER BY date_utc DESC LIMIT 1`: none exactly for no sets, else a set no set is later than |
| Workouts.EarliestOf | server/repository/workout.go:165-181 | `ORDER BY date_utc LIMIT 1`: none exactly for no sets, else a set no set is earlier than |
| Workouts.Recommend | server/repository/workout.go:143-192 | latest set of the workout; else earliest set of the highest-id workout with sets; else the sentinel |
| Workouts.RecommendNewSet | server/repository/workout.go:186-191 | sentinel (−1, 0, 0) exactly when no set can be used; otherwise a stored set's values |
| Workouts.RecommendationComesFromStore | server/repository/workout.go:143-192 | with foreign keys intact: a non-empty store yields a stored set's values, an empty one the sentinel |
| Workouts.CreatedWorkoutExists | server/repository/workout.go:67-84 | a created workout exists and has no sets |
| Workouts.DeletedWorkoutIsGone | server/repository/workout.go:86-108 | a deleted workout no longer exists and keeps no set |
| Workouts.WorkoutRepository.Create | server/repository/workout.go:67-84 | inserts one workout started at `now` under a fresh id and returns that id |
| Workouts.WorkoutRepository.Delete | server/repository/workout.go:86-108 | ErrNoRows iff no workout had the id; the new state is the cascade delete |
| Exercises.ExistsID | server/repository/exercise.go:117-138 | true iff an exercise has the id |
| Exercises.ExistsName | server/repository/exercise.go:140-161 | true iff a stored name equals the trimmed argument up to ASCII case |
| Exercises.ExistsNameIgnoresPaddingAndCase | server/repository/exercise.go:144-150 | surrounding white space and letter case of the argument do not change the answer |
| Exercises.UsageInSets | server/repository/exercise.go:98-115 | the number of sets that name the exercise, 0 for an unknown id (the join); positive iff such sets exist; bounded by the set count |
| Exercises.UsageCountsSets | server/repository/exercise.go:98-115 | with foreign keys intact, the count equals the number of sets naming the id, for every id |
| Exercises.UnusedWhenCountIsZero | server/repository/exercise.go:197-213 | with foreign keys intact, a zero count means no set names the exercise |
| Exercises.FindAll | server/repository/exercise.go:80-96 | every exercise exactly once, with its name, ascending by name |
| Exercises.GuardedCreateKeepsNamesUnique | server/api/exercise.go:46-58 | creating only after `ExistsName` said no keeps names case-insensitively unique |
| Exercises.RenameCanBreakUniqueness | server/api/exercise.go:152-181 | for any store, renaming an exercise to a name that trims to another exercise's name up to case leaves two equal lowered names: no uniqueness check |
| Exercises.DeletedExerciseIsGone | server/repository/exercise.go:215-221 | after a delete the id is gone and every other exercise remains |
| Exercises.ExerciseRepository.Create | server/repository/exercise.go:163-180 | stores the trimmed name under a fresh id; returns the untrimmed name |
| Exercises.ExerciseRepository.Update | server/repository/exercise.go:182-195 | renames only that exercise to the trimmed name; returns the id and the untrimmed name |
| Exercises.ExerciseRepository.Delete | server/repository/exercise.go:197-221 | ErrExerciseExists with nothing changed iff the usage count is positive; otherwise the exercise is deleted |
| Sets.NormalizeNote | server/repository/set.go:147-151 | absent iff the note is blank after trimming; otherwise the trimmed note |
| Sets.NormalizeNoteIdempotent | server/repository/set.go:149 | normalising a stored note again gives the same value |
| Sets.NormalizeNoteIgnoresPadding | server/repository/set.go:171-175 | white space around a note does not change what is stored |
| Sets.JoinedSetsOfWorkout | server/repository/set.go:106-129 | the sets of the workout that the join with `exercise` yields |
| Sets.ByID | server/repository/set.go:81-104 | the set with its exercise name and all fields; ErrNoRows iff the join yields no row |
| Sets.ByIDFailsOnlyForMissing | server/repository/set.go:81-104 | with foreign keys intact, ErrNoRows iff no set has the id |
| Sets.JoinedNewestFirst | server/repository/set.go:106-129 | the joined set ids of the workout, each once, latest date first |
| Sets.ByWorkoutID | server/repository/set.go:106-129 | exactly the workout's sets, each once with its fields and exercise name, latest first |
| Sets.DeletedWorkoutListsNoSets | server/repository/set.go:106-129 | after the workout is deleted, listing its sets gives none |
| Sets.DeletedSetIsNotListed | server/repository/set.go:184-196 | a deleted set is never listed |
| Sets.SetRepository.Create | server/repository/set.go:131-158 | inserts one set dated `now` with the normalised note under a fresh id; ErrForeignKey with nothing changed iff the workout or exercise is missing |
| Sets.SetRepository.Update | server/repository/set.go:160-182 | changes only the exercise, repetitions, weight and normalised note; workout and date stay; an absent id changes nothing |
| Sets.SetRepository.Delete | server/repository/set.go:184-196 | removes the set if present; never an error |
| Statistics.Quot | server/repository/statistics.go:70 | Go's truncating division: remainder has the dividend's sign and is smaller than the divisor |
| Statistics.QuotBrackets | server/repository/statistics.go:70 | for a non-negative total, `avg * n <= total < (avg + 1) * n` |
| Statistics.QuotAtMost | server/repository/statistics.go:93 | a non-negative total divided by a positive count lies between zero and the total |
| Statistics.LastSetDate | server/repository/statistics.go:39-46 | `MAX(es.date_utc)` of a workout: a date of its sets, and no set is later |
| Statistics.GroupedWorkouts | server/repository/statistics.go:39-46 | each workout with a set exactly once (`GROUP BY`) |
| Statistics.DatesRows | server/repository/statistics.go:39-61 | one (start, last set date) row per workout that has a set |
| Statistics.SumSpansNonNegative | server/repository/statistics.go:66-68 | rows with non-negative spans sum to a non-negative total |
| Statistics.SumRepsAtLeastEach | server/repository/statistics.go:72-92 | with non-negative repetitions, the sum is at least each member |
| Statistics.SumRepsNonNegative | server/repository/statistics.go:72-92 | with non-negative repetitions, the sum is non-negative |
| Statistics.OverviewOf | server/src/dal.rs:315-369 | workouts with sets, total and truncated average duration, set count, repetitions and truncated average; all zeros when no workout has a set |
| Statistics.SetsExistWhenRowsDo | server/repository/statistics.go:72-93 | a workout row implies a set, so the repetitions division is safe |
| Statistics.ZeroExactlyWithoutSets | server/repository/statistics.go:62-64 | with foreign keys intact, zero counted workouts iff no set at all |
| Statistics.CountedWorkoutsBounded | server/repository/statistics.go:39-46 | workouts without sets are not counted: at most the number of workouts |
| Statistics.RowSpanNonNegative | server/repository/statistics.go:66-68 | a workout's span is non-negative when no set predates its workout |
| Statistics.TotalDurationNonNegative | server/repository/statistics.go:66-68 | then the total duration is non-negative |
| Statistics.AverageDurationBrackets | server/repository/statistics.go:70 | then `avg * count <= total < (avg + 1) * count` |
| Statistics.AverageRepsAtMostTotal | server/repository/statistics.go:93 | the average repetitions per set is between zero and the total |
| Statistics.EmptyDatabaseHasNoRows | server/repository/statistics.go:55-61 | a fresh database yields an empty slice of rows, not "no rows" |
| Statistics.SumDurations | server/repository/statistics.go:66-68 | the loop's total equals the sum of the spans of all rows |
| Statistics.OverviewAsWritten | server/repository/statistics.go:38-96 | panics (division by zero) exactly when no workout has a set; otherwise the intended overview |
| Statistics.Overview | server/repository/statistics.go:38-96 | the intended overview in every case, zeros for an empty store |
| Http.Status | server/api/exercise.go:111-116 | the client sees the committed status, or 200 when none was set |
| Http.WriteHeader | server/api/exercise.go:111-116 | the first status is committed; later ones are ignored |
| Http.Write | server/api/http.go:30-37 | writing a body commits 200 unless a status is committed |
| Http.Error | server/api/exercise.go:46-56 | commits the code (if none yet) and writes the message |
| Http.WriteJson | server/api/http.go:30-37 | appends the JSON value; the status is unchanged |
| Http.ExistsGuard | server/api/api.go:186-240 | next iff the id parsed and the lookup said yes; 400, 500 or the missing status otherwise |
| Http.RowGuard | server/api/api.go:248-271 | next iff the id parsed and the row was found; "no rows" gives the missing status, any other error 500 |
| Api.Lookup | server/api/api.go:194-206 | a failed call is an I/O error, otherwise the store's answer |
| Api.ExerciseMustExist | server/api/api.go:186-209 | 400 unparsed, 500 lookup error, 404 missing, next iff the exercise exists |
| Api.WorkoutMustExist | server/api/api.go:217-240 | 400 unparsed, 500 lookup error, 404 missing, next iff the workout exists |
| Api.SetMustExist | server/api/api.go:248-271 | 400 unparsed, 500 lookup error, 404 on "no rows", next iff the set is found |
| Api.SetGuardPassesExistingSets | server/api/api.go:248-271 | with foreign keys intact, the set guard passes exactly the existing sets |
| Api.CountInSets | server/api/exercise.go:119-150 | 400, 500 with no body, 404 for a missing exercise, 500 with a zero count when counting fails, else 200 with the count |
| Api.ExerciseHandlers.CreateExercise | server/api/exercise.go:33-71 | 400 bad JSON, 500 on failure, 409 with no insert for an existing name; else 200 with the untrimmed name and a trimmed insert |
| Api.ExerciseHandlers.DeleteExercise | server/api/exercise.go:98-117 | 400, 409 with nothing deleted while used, 500 (first status wins over the later 200) on failure, else 200 and deleted |
| Api.ExerciseHandlers.UpdateExercise | server/api/exercise.go:152-181 | 400, 500, else 200 with the id and untrimmed name and the exercise renamed to the trimmed name, unchecked for duplicates |
| Legacy.ExistsExerciseName | server/main.go:1322-1343 | true iff a stored name equals the argument up to ASCII case, untrimmed |
| Legacy.ExistsNameAgreesOnTrimmedNames | server/main.go:1322-1343 | on an already trimmed name it agrees with the repository's check |
| Legacy.ExistsNameDiffersOnPadding | server/main.go:1322-1343 | for any store of trimmed names and any non-empty white-space padding, the older check finds no match while the repository answers as for the unpadded name |
| Legacy.ExerciseMustExist | server/main.go:273-300 | as the current guard, but a missing exercise gives 400 |
| Legacy.WorkoutMustExist | server/main.go:304-331 | as the current guard, but a missing workout gives 400 |
| Legacy.SetMustExist | server/main.go:335-358 | as the current guard, but a missing set gives 400 |
| Legacy.GuardsDifferOnlyInMissingStatus | server/main.go:273-358 | the older and current guards agree except that 404 becomes 400 |
| Legacy.SetRecommendationByWorkoutID | server/main.go:1156-1208 | identical to the repository's recommendation, sentinel −1 included |
| Legacy.Database.CreateExercise | server/main.go:1298-1315 | stores and returns the name unchanged under a fresh id |
| Legacy.Database.DeleteExercise | server/main.go:1381-1406 | refused with nothing deleted iff the usage count is positive |
| Legacy.Database.UpdateSet | server/main.go:1122-1143 | changes only exercise, repetitions and weight; note, workout and date stay |
| Legacy.Database.DeleteWorkout | server/main.go:946-966 | ErrNoRows iff no workout had the id; cascade delete |
| Legacy.Application.CreateExercise | server/main.go:404-442 | 400 for bad JSON and for an existing (untrimmed) name with no insert; 500 on failure; else the name stored as sent |
| Dal.GetExercise | server/src/dal.rs:61-67 | the exercise iff it exists |
| Dal.GetWorkout | server/src/dal.rs:102-108 | the workout iff it exists |
| Dal.GetExerciseSet | server/src/dal.rs:163-171 | the set joined with its exercise iff the join yields it, all fields |
| Dal.GetExerciseSetAgreesWithByID | server/src/dal.rs:163-171 | finds the same sets with the same fields as the Go repository's lookup |
| Dal.SetRecommendationForWorkout | server/src/dal.rs:263-313 | sentinel (0, 0, 0) exactly when no set can be used; otherwise a stored set's values |
| Dal.RecommendationsAgreeWhenSetsExist | server/src/dal.rs:263-313 | equals the Go recommendation whenever some set can be used |
| Dal.RecommendationsDifferInSentinelOnly | server/src/dal.rs:309-312 | otherwise the two differ only in the sentinel's exercise id, 0 versus −1 |
| Dal.CreateGetExerciseQuery | server/src/dal.rs:143-161 | the base query, or it followed by `WHERE es.id = ?` or `WHERE es.workout_id = ?` |
| Dal.QueriesAreDistinct | server/src/dal.rs:143-161 | different constraints give different queries |
| Dal.Pool.CreateOrUpdateExerciseSet | server/src/dal.rs:193-252 | update keeps the creation time, sets the rest, and may move the set; insert is dated `now`; trimmed note; missing id "no rows"; foreign keys refused |
| Dal.Pool.DeleteExercise | server/src/dal.rs:84-91 | an error with nothing changed iff sets use the exercise; otherwise `Some` iff a row was deleted |
| Dal.Pool.DeleteWorkout | server/src/dal.rs:129-136 | `Some` iff a workout was deleted; cascade delete |
| Dal.Pool.DeleteExerciseSet | server/src/dal.rs:254-261 | `Some` iff a set was deleted |
| Server.IntoResponse | server/src/server.rs:390-405 | an error renders 500; a chosen status renders as itself |
| Server.CheckExists | server/src/server.rs:135-181 | error 500, no row 404, next iff a row was found |
| Server.GuardsAgreeWithGo | server/src/server.rs:135-181 | on a parsed id, the three Rust guards decide exactly as the current Go guards |
| Server.GetResponse | server/src/server.rs:183-191 | 200 with the row iff found, 404 for none, 500 for an error |
| Server.GetFindsStoredRows | server/src/server.rs:237-245 | with the database working, 200 exactly for stored workouts, exercises and (with foreign keys intact) sets |
| Server.DeleteResponse | server/src/server.rs:219-227 | 204 iff a row was deleted, 404 for none, 500 for an error |
| Server.TrimStartSlashes | server/src/server.rs:119 | drops exactly the leading '/' characters |
| Server.StaticPath | server/src/server.rs:118-122 | an all-slash path names `index.html`; otherwise the path without its leading slashes |
| Server.StaticPathIgnoresLeadingSlash | server/src/server.rs:119 | an extra leading slash names the same file |
| Server.GetStaticFile | server/src/server.rs:118-133 | 404 iff no embedded file has that name, else 200 with its contents |
| Server.App.DeleteWorkout | server/src/server.rs:261-269 | 204 iff a workout was deleted (with its sets), else 404 |
| Server.App.DeleteExercise | server/src/server.rs:219-227 | 500 with nothing changed while sets use it; else 204 or 404 and deleted |
| Server.App.DeleteExerciseSet | server/src/server.rs:351-359 | 204 iff a set was deleted, else 404 |

## Left out

- The SQL engine, driver, connection and migrations. The tables are abstract.
  The ON DELETE CASCADE from sets to workouts comes from migrations that are
  not part of this model, so it is assumed rather than proved.
- SQL I/O failures appear only as an injected input (`failed`, or `fault`,
  the index of the database call that fails) to the guards and handlers:
  `Api.*`, the `Legacy` guards, `Legacy.Application.CreateExercise`, and
  `Server.CheckExists`/`GetResponse`/`DeleteResponse` through their `Result`
  argument. The members below have no failure path and never return an I/O
  error, although their source returns the driver's error on every query:
  - Workouts.WorkoutRepository.Create and Delete (workout.go `return …, err`);
  - Exercises.ExerciseRepository.Create, Update and Delete;
  - Sets.SetRepository.Create, Update and Delete (only foreign-key errors);
  - Legacy.Database.CreateExercise, DeleteExercise, UpdateSet and
    DeleteWorkout (main.go:953-961 in `deleteWorkout`, for one);
  - Dal.Pool.CreateOrUpdateExerciseSet, DeleteExercise, DeleteWorkout and
    DeleteExerciseSet (the `?` on each query);
  - Statistics.Overview and OverviewAsWritten (main.go:1282-1284 and the
    repository's `return …, err`).
- Logging, request tracing, route registration, the server lifecycle,
  shutdown and concurrency (including races between two creations of the
  same name).
- JSON encoding and decoding, and integer parsing. A parsed path parameter
  is an `Option<int>` and a decoded body an `Option<string>`. axum's
  rejection of a path that does not parse is not modelled.
- 64-bit integer widths. Ids, times and counts are unbounded integers.
- Go `time.Duration` nanoseconds and float `.Seconds()` truncation: the
  model uses whole seconds.
- Statistics.OverviewOf: the Rust average repetitions per set is SQLite's
  `CAST(AVG(repetitions) AS INT)` (dal.rs:357), a float average truncated
  toward zero. It is modelled as truncating integer division of the
  repetition sum by the set count, which agrees with it up to float
  rounding. The Rust average duration is the integer division at dal.rs:343,
  which `Quot` models exactly.
- Unicode: `TrimSpace` and `LOWER` are ASCII only, as SQLite's `LOWER` is.
- The exercise-specific set suggestion of server.rs:367. It calls a
  data-access function that is not part of this model.
- The surplus bind of the workout id at dal.rs:299 is taken to be ignored by
  the driver.
- The pass-through handlers of `api/set.go` and `api/workout.go`. They call
  repository methods under names the repositories do not declare.
- The Rust create, update, list and count handlers, and the remaining list
  queries of `dal.rs`. They only forward to the store.
- Static file serving through the file system (`api/static.go`) and MIME
  type guessing in `get_static_file`. Only the path mapping and the lookup
  are modelled.
- The tie order of `ORDER BY`. Where dates or names tie, the contracts allow
  any order among equals, as SQL does.
- The doc comments of `api/api.go` promise 400 for a missing entity, but the
  code sends 404. The model follows the code.

## Findings

| source | as written | input that shows it | evidently intended | confidence | as-written member | corrected member |
|---|---|---|---|---|---|---|
| server/repository/statistics.go:55-70 | a query result that is an empty slice is never "no rows", so the empty case falls through to `TotalDuration / TotalWorkouts` with zero workouts | a store in which no workout has a set (the freshly created database) | all-zero statistics, as the dead "no rows" branch and the Rust server (dal.rs:333-335) return | high; not executed | Statistics.OverviewAsWritten | Statistics.Overview |
| server/main.go:1257-1265 | the same aggregation and the same unguarded division | a store in which no workout has a set | all-zero statistics | high; not executed | Statistics.OverviewAsWritten | Statistics.Overview |
