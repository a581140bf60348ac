/**
 * The workout repository: creating, deleting, listing and looking up
 * workouts, and recommending the values of the next set of a workout.
 */
module Workouts {
  import Order
  import opened Store

  datatype WorkoutEntity = WorkoutEntity(id: int, start: int)

  /** Exercise, repetitions and weight suggested for the next set. */
  datatype SetRecommendation = SetRecommendation(exerciseId: int, reps: int, weight: int)

  /** The exercise id the recommendation falls back to when no set exists anywhere. */
  const DefaultExerciseId := -1

  /** `SELECT COUNT(id) FROM workout WHERE id = ?` compared with 1. */
  function Exists(t: Tables, id: int): (r: bool)
    ensures r <==> id in t.workouts
  {
    var matching := set w | w in t.workouts && w == id;
    assert id in t.workouts ==> matching == {id};
    assert id !in t.workouts ==> matching == {};
    |matching| == 1
  }

  /** The rows for the workout ids `ids`, in the same order. */
  function EntitiesOf(workouts: map<int, int>, ids: seq<int>): (r: seq<WorkoutEntity>)
    requires forall i | 0 <= i < |ids| :: ids[i] in workouts
    ensures |r| == |ids|
    ensures forall i | 0 <= i < |ids| :: r[i] == WorkoutEntity(ids[i], workouts[ids[i]])
  {
    seq(|ids|, i requires 0 <= i < |ids| => WorkoutEntity(ids[i], workouts[ids[i]]))
  }

  /** `SELECT id, start FROM workout ORDER BY start DESC`. */
  function All(t: Tables): (r: seq<WorkoutEntity>)
    ensures |r| == |t.workouts|
    ensures forall i | 0 <= i < |r| :: r[i].id in t.workouts && r[i].start == t.workouts[r[i].id]
    ensures forall w | w in t.workouts :: exists i | 0 <= i < |r| :: r[i].id == w
    ensures forall i, j | 0 <= i < j < |r| :: r[i].id != r[j].id && r[i].start >= r[j].start
  {
    LatestStartFirstIsStrictTotal(t.workouts);
    var ids := Order.SortBy(t.workouts.Keys, LatestStartFirst(t.workouts));
    Order.SortedIsDistinct(t.workouts.Keys, LatestStartFirst(t.workouts), ids);
    SortedByStart(t.workouts, ids);
    EntitiesOf(t.workouts, ids)
  }

  /** The rows for ids sorted latest start first list every workout once, with its start, in that order. */
  lemma SortedByStart(workouts: map<int, int>, ids: seq<int>)
    requires forall i | 0 <= i < |ids| :: ids[i] in workouts
    requires forall w | w in workouts :: w in ids
    requires forall i, j | 0 <= i < j < |ids| :: LatestStartFirst(workouts)(ids[i], ids[j])
    requires forall i, j | 0 <= i < j < |ids| :: ids[i] != ids[j]
    ensures var r := EntitiesOf(workouts, ids);
      && (forall i | 0 <= i < |r| :: r[i].id in workouts && r[i].start == workouts[r[i].id])
      && (forall w | w in workouts :: exists i | 0 <= i < |r| :: r[i].id == w)
      && (forall i, j | 0 <= i < j < |r| :: r[i].id != r[j].id && r[i].start >= r[j].start)
  {
    var r := EntitiesOf(workouts, ids);
    forall i, j | 0 <= i < j < |r| ensures r[i].id != r[j].id && r[i].start >= r[j].start {
      assert LatestStartFirst(workouts)(ids[i], ids[j]);
    }
    forall w | w in workouts ensures exists i | 0 <= i < |r| :: r[i].id == w {
      var i :| 0 <= i < |ids| && ids[i] == w;
      assert r[i].id == w;
    }
  }

  function FromRow(row: SetRow): SetRecommendation {
    SetRecommendation(row.exerciseId, row.reps, row.weight)
  }

  /** `ORDER BY date DESC LIMIT 1` over the sets `ks`: a set no other set is later than. */
  function LatestOf(t: Tables, ks: set<int>): (r: Option<int>)
    requires ks <= t.sets.Keys
    ensures r.None? <==> ks == {}
    ensures r.Some? ==> r.value in ks && forall s | s in ks :: t.sets[s].date <= t.sets[r.value].date
  {
    if ks == {} then None
    else
      LatestFirstIsStrictTotal(t.sets, ks);
      Some(Order.First(ks, LatestFirst(t.sets)))
  }

  /** `ORDER BY date LIMIT 1` over the sets `ks`: a set no other set is earlier than. */
  function EarliestOf(t: Tables, ks: set<int>): (r: Option<int>)
    requires ks <= t.sets.Keys
    ensures r.None? <==> ks == {}
    ensures r.Some? ==> r.value in ks && forall s | s in ks :: t.sets[r.value].date <= t.sets[s].date
  {
    if ks == {} then None
    else
      EarliestFirstIsStrictTotal(t.sets, ks);
      Some(Order.First(ks, EarliestFirst(t.sets)))
  }

  /**
   * The three-step recommendation. First the latest set of workout `id`;
   * failing that, the earliest set of the workout with the largest id among
   * those that have sets (`MAX(w.id)` over the join); failing that, the
   * sentinel `(fallback, 0, 0)`. Every iteration of the server shares these
   * steps and differs only in `fallback`.
   */
  function Recommend(t: Tables, id: int, fallback: int): (r: SetRecommendation)
    ensures SetsOfWorkout(t, id) != {} ==>
      exists s | s in SetsOfWorkout(t, id) ::
        r == FromRow(t.sets[s]) && forall s' | s' in SetsOfWorkout(t, id) :: t.sets[s'].date <= t.sets[s].date
    ensures SetsOfWorkout(t, id) == {} && WorkoutsWithSets(t) != {} ==>
      exists s | s in SetsOfWorkout(t, Order.MaxOf(WorkoutsWithSets(t))) ::
        r == FromRow(t.sets[s]) &&
        forall s' | s' in SetsOfWorkout(t, Order.MaxOf(WorkoutsWithSets(t))) :: t.sets[s].date <= t.sets[s'].date
    ensures SetsOfWorkout(t, id) == {} && WorkoutsWithSets(t) == {} ==> r == SetRecommendation(fallback, 0, 0)
  {
    match LatestOf(t, SetsOfWorkout(t, id))
    case Some(s) => FromRow(t.sets[s])
    case None =>
      var withSets := WorkoutsWithSets(t);
      var candidates := if withSets == {} then {} else SetsOfWorkout(t, Order.MaxOf(withSets));
      match EarliestOf(t, candidates)
      case Some(s) => FromRow(t.sets[s])
      case None => SetRecommendation(fallback, 0, 0)
  }

  /** The repository's recommendation: the shared steps with exercise id -1 as the sentinel. */
  function RecommendNewSet(t: Tables, id: int): (r: SetRecommendation)
    ensures SetsOfWorkout(t, id) == {} && WorkoutsWithSets(t) == {} ==> r == SetRecommendation(-1, 0, 0)
    ensures SetsOfWorkout(t, id) != {} || WorkoutsWithSets(t) != {} ==>
      exists s | s in t.sets :: r == FromRow(t.sets[s])
  {
    Recommend(t, id, DefaultExerciseId)
  }

  /**
   * A recommendation other than the sentinel repeats a stored set, and the
   * sentinel only appears when the store holds no set of an existing workout.
   */
  lemma {:induction false} RecommendationComesFromStore(t: Tables, id: int, fallback: int)
    requires Consistent(t)
    ensures t.sets != map[] ==> exists s | s in t.sets :: Recommend(t, id, fallback) == FromRow(t.sets[s])
    ensures t.sets == map[] ==> Recommend(t, id, fallback) == SetRecommendation(fallback, 0, 0)
  {
    if t.sets != map[] {
      Order.EmptyOrInhabited(t.sets.Keys);
      var s :| s in t.sets.Keys;
      assert s in SetsOfWorkout(t, t.sets[s].workoutId);
      assert t.sets[s].workoutId in WorkoutsWithSets(t);
    } else {
      assert SetsOfWorkout(t, id) == {};
      assert WorkoutsWithSets(t) == {};
    }
  }

  /** A workout just created exists and has no set yet. */
  lemma CreatedWorkoutExists(t: Tables, id: int, now: int)
    requires id !in t.workouts && Consistent(t)
    ensures Exists(InsertWorkout(t, id, now), id)
    ensures SetsOfWorkout(InsertWorkout(t, id, now), id) == {}
  {
    var r := InsertWorkout(t, id, now);
    forall s | s in r.sets ensures r.sets[s].workoutId != id {
      assert t.sets[s].workoutId in t.workouts;
    }
  }

  /** A deleted workout no longer exists and keeps no set. */
  lemma DeletedWorkoutIsGone(t: Tables, id: int)
    ensures !Exists(DeleteWorkout(t, id), id)
    ensures SetsOfWorkout(DeleteWorkout(t, id), id) == {}
  {
  }

  /** The workout repository over the shared database handle. */
  class WorkoutRepository {
    const db: Db

    constructor (db: Db)
      ensures this.db == db
    {
      this.db := db;
    }

    /** `INSERT INTO workout (start) VALUES (now)`; returns the id of the new row. */
    method Create(now: int) returns (id: int)
      requires db.Valid()
      modifies db
      ensures db.Valid()
      ensures id !in old(db.workouts) && forall w | w in old(db.workouts) :: w < id
      ensures db.Snapshot() == InsertWorkout(old(db.Snapshot()), id, now)
    {
      id := NextId(db.workouts.Keys);
      db.workouts := db.workouts[id := now];
    }

    /**
     * `DELETE FROM workout WHERE id = ?`; reports ErrNoRows when no row was
     * affected. The workout's sets go with it.
     */
    method Delete(id: int) returns (r: Result<()>)
      requires db.Valid()
      modifies db
      ensures db.Valid()
      ensures r.Ok? <==> id in old(db.workouts)
      ensures r.Err? ==> r.error == ErrNoRows
      ensures db.Snapshot() == DeleteWorkout(old(db.Snapshot()), id)
    {
      var rowsAffected := if id in db.workouts then 1 else 0;
      db.workouts := db.workouts - {id};
      db.sets := map s | s in db.sets && db.sets[s].workoutId != id :: db.sets[s];
      if rowsAffected == 0 {
        r := Err(ErrNoRows);
      } else {
        r := Ok(());
      }
    }
  }
}
