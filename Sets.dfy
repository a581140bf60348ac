/**
 * The set repository: one set by id, the sets of a workout, and creating,
 * updating and deleting sets. A note that is blank once trimmed is stored
 * as absent; any other note is stored trimmed.
 */
module Sets {
  import Order
  import Text
  import opened Store

  /** A set joined with the name of its exercise. */
  datatype SetEntity = SetEntity(
    id: int,
    exerciseId: int,
    exerciseName: string,
    done: int,
    reps: int,
    weight: int,
    note: Option<string>)

  datatype CreateSetEntity = CreateSetEntity(workoutId: int, exerciseId: int, reps: int, weight: int, note: string)

  datatype UpdateSetEntity = UpdateSetEntity(id: int, exerciseId: int, reps: int, weight: int, note: string)

  /** The note to store for the note a client sent. */
  function NormalizeNote(note: string): (r: Option<string>)
    ensures r.None? <==> Text.TrimSpace(note) == []
    ensures r.Some? ==> r.value == Text.TrimSpace(note)
    ensures r.Some? ==> r.value != [] && !Text.IsSpace(r.value[0]) && !Text.IsSpace(r.value[|r.value| - 1])
  {
    var trimmed := Text.TrimSpace(note);
    if trimmed == [] then None else Some(trimmed)
  }

  /** A stored note normalises to itself. */
  lemma NormalizeNoteIdempotent(note: string)
    ensures NormalizeNote(note).Some? ==> NormalizeNote(NormalizeNote(note).value) == NormalizeNote(note)
  {
    Text.TrimSpaceIdempotent(note);
  }

  /** White space around a note does not change what is stored. */
  lemma NormalizeNoteIgnoresPadding(p: string, note: string, q: string)
    requires Text.AllSpace(p) && Text.AllSpace(q)
    ensures NormalizeNote(p + note + q) == NormalizeNote(note)
  {
    Text.TrimSpacePadding(p, note, q);
  }

  /** The sets of workout `w` that the join with `exercise` keeps. */
  function JoinedSetsOfWorkout(t: Tables, w: int): (r: set<int>)
    ensures r <= t.sets.Keys
    ensures forall s | s in r :: t.sets[s].workoutId == w && t.sets[s].exerciseId in t.exercises
    ensures forall s | s in t.sets && t.sets[s].workoutId == w && t.sets[s].exerciseId in t.exercises :: s in r
  {
    set s | s in t.sets && t.sets[s].workoutId == w && t.sets[s].exerciseId in t.exercises
  }

  function EntityOf(t: Tables, s: int): SetEntity
    requires s in t.sets && t.sets[s].exerciseId in t.exercises
  {
    var row := t.sets[s];
    SetEntity(s, row.exerciseId, t.exercises[row.exerciseId], row.date, row.reps, row.weight, row.note)
  }

  /**
   * The set `id` joined with its exercise; ErrNoRows when no set has that id
   * (or, were a foreign key broken, when its exercise were missing).
   */
  function ByID(t: Tables, id: int): (r: Result<SetEntity>)
    ensures r.Ok? <==> id in t.sets && t.sets[id].exerciseId in t.exercises
    ensures r.Err? ==> r.error == ErrNoRows
    ensures r.Ok? ==>
      && r.value.id == id && r.value.exerciseId == t.sets[id].exerciseId
      && r.value.exerciseName == t.exercises[t.sets[id].exerciseId]
      && r.value.done == t.sets[id].date && r.value.reps == t.sets[id].reps
      && r.value.weight == t.sets[id].weight && r.value.note == t.sets[id].note
  {
    if id in t.sets && t.sets[id].exerciseId in t.exercises then Ok(EntityOf(t, id)) else Err(ErrNoRows)
  }

  /** With foreign keys intact, ByID fails exactly for the ids that name no set. */
  lemma ByIDFailsOnlyForMissing(t: Tables, id: int)
    requires Consistent(t)
    ensures ByID(t, id).Err? <==> id !in t.sets
  {
  }

  function EntitiesOf(t: Tables, ids: seq<int>): (r: seq<SetEntity>)
    requires forall i | 0 <= i < |ids| :: ids[i] in t.sets && t.sets[ids[i]].exerciseId in t.exercises
    ensures |r| == |ids|
    ensures forall i | 0 <= i < |ids| :: r[i] == EntityOf(t, ids[i])
  {
    seq(|ids|, i requires 0 <= i < |ids| => EntityOf(t, ids[i]))
  }

  /** The ids of the sets of workout `w` that the join keeps, newest first. */
  function JoinedNewestFirst(t: Tables, w: int): (ids: seq<int>)
    ensures |ids| == |JoinedSetsOfWorkout(t, w)|
    ensures forall i | 0 <= i < |ids| :: ids[i] in JoinedSetsOfWorkout(t, w)
    ensures forall s | s in JoinedSetsOfWorkout(t, w) :: s in ids
    ensures forall i, j | 0 <= i < j < |ids| :: ids[i] != ids[j] && t.sets[ids[i]].date >= t.sets[ids[j]].date
  {
    var ks := JoinedSetsOfWorkout(t, w);
    var before := LatestFirst(t.sets);
    LatestFirstIsStrictTotal(t.sets, ks);
    var ids := Order.SortBy(ks, before);
    Order.SortedIsDistinct(ks, before, ids);
    forall i, j | 0 <= i < j < |ids| ensures ids[i] in t.sets && ids[j] in t.sets && t.sets[ids[i]].date >= t.sets[ids[j]].date {
      var a, b := ids[i], ids[j];
      assert before(a, b);
      assert t.sets[a].date > t.sets[b].date || (t.sets[a].date == t.sets[b].date && a > b);
    }
    ids
  }

  /**
   * The sets of workout `w`, each joined with its exercise name, newest
   * first (`ORDER BY date DESC`).
   */
  function ByWorkoutID(t: Tables, w: int): (r: seq<SetEntity>)
    ensures |r| == |JoinedSetsOfWorkout(t, w)|
    ensures forall i | 0 <= i < |r| :: r[i].id in JoinedSetsOfWorkout(t, w) && r[i] == EntityOf(t, r[i].id)
    ensures forall s | s in JoinedSetsOfWorkout(t, w) :: exists i | 0 <= i < |r| :: r[i].id == s
    ensures forall i, j | 0 <= i < j < |r| :: r[i].id != r[j].id && r[i].done >= r[j].done
  {
    var ids := JoinedNewestFirst(t, w);
    var r := EntitiesOf(t, ids);
    forall i | 0 <= i < |r| ensures r[i].id in JoinedSetsOfWorkout(t, w) && r[i] == EntityOf(t, r[i].id) {
      assert r[i] == EntityOf(t, ids[i]);
    }
    forall i, j | 0 <= i < j < |r| ensures r[i].id != r[j].id && r[i].done >= r[j].done {
      assert r[i] == EntityOf(t, ids[i]) && r[j] == EntityOf(t, ids[j]);
    }
    forall s | s in JoinedSetsOfWorkout(t, w) ensures exists i | 0 <= i < |r| :: r[i].id == s {
      var i :| 0 <= i < |ids| && ids[i] == s;
      assert r[i] == EntityOf(t, ids[i]);
    }
    r
  }

  /** Once its workout is deleted, a workout lists no set. */
  lemma DeletedWorkoutListsNoSets(t: Tables, w: int)
    ensures ByWorkoutID(DeleteWorkout(t, w), w) == []
  {
    assert JoinedSetsOfWorkout(DeleteWorkout(t, w), w) == {};
  }

  /** Deleting a set takes it out of its workout's list and leaves the other workouts' lists alone. */
  lemma DeletedSetIsNotListed(t: Tables, id: int, w: int)
    ensures forall i | 0 <= i < |ByWorkoutID(DeleteSet(t, id), w)| :: ByWorkoutID(DeleteSet(t, id), w)[i].id != id
    ensures id in t.sets && t.sets[id].workoutId != w ==> JoinedSetsOfWorkout(DeleteSet(t, id), w) == JoinedSetsOfWorkout(t, w)
  {
  }

  /** The set repository over the shared database handle. */
  class SetRepository {
    const db: Db

    constructor (db: Db)
      ensures this.db == db
    {
      this.db := db;
    }

    /**
     * `INSERT INTO exercise_set` stamped with `now` and the normalised note.
     * The store refuses a workout or an exercise that does not exist.
     */
    method Create(data: CreateSetEntity, now: int) returns (r: Result<()>)
      requires db.Valid()
      modifies db
      ensures db.Valid()
      ensures r.Err? <==> data.workoutId !in old(db.workouts) || data.exerciseId !in old(db.exercises)
      ensures r.Err? ==> r.error == ErrForeignKey && db.Snapshot() == old(db.Snapshot())
      ensures r.Ok? ==> exists id | id !in old(db.sets) ::
        InsertSet(old(db.Snapshot()), id,
                  SetRow(data.workoutId, data.exerciseId, now, data.reps, data.weight, NormalizeNote(data.note)))
        == Ok(db.Snapshot())
    {
      if data.workoutId !in db.workouts || data.exerciseId !in db.exercises {
        return Err(ErrForeignKey);
      }
      var id := NextId(db.sets.Keys);
      var row := SetRow(data.workoutId, data.exerciseId, now, data.reps, data.weight, NormalizeNote(data.note));
      ghost var before := db.Snapshot();
      db.sets := db.sets[id := row];
      assert InsertSet(before, id, row) == Ok(db.Snapshot());
      r := Ok(());
    }

    /**
     * `UPDATE exercise_set SET exercise_id, repetitions, weight, note WHERE
     * id = ?`: the workout and the date of the set stay. No matching row is
     * not an error; an exercise that does not exist is refused by the store.
     */
    method Update(data: UpdateSetEntity) returns (r: Result<()>)
      requires db.Valid()
      modifies db
      ensures db.Valid()
      ensures data.id !in old(db.sets) ==> r.Ok? && db.Snapshot() == old(db.Snapshot())
      ensures r.Err? <==> data.id in old(db.sets) && data.exerciseId !in old(db.exercises)
      ensures r.Err? ==> r.error == ErrForeignKey && db.Snapshot() == old(db.Snapshot())
      ensures data.id in old(db.sets) && r.Ok? ==>
        var row := old(db.sets)[data.id];
        ReplaceSet(old(db.Snapshot()), data.id,
                   row.(exerciseId := data.exerciseId, reps := data.reps, weight := data.weight, note := NormalizeNote(data.note)))
        == Ok(db.Snapshot())
    {
      if data.id !in db.sets {
        return Ok(());
      }
      var row := db.sets[data.id];
      var updated := row.(exerciseId := data.exerciseId, reps := data.reps, weight := data.weight, note := NormalizeNote(data.note));
      if data.exerciseId !in db.exercises {
        return Err(ErrForeignKey);
      }
      db.sets := db.sets[data.id := updated];
      r := Ok(());
    }

    /** `DELETE FROM exercise_set WHERE id = ?`; a missing id is not an error. */
    method Delete(id: int) returns (r: Result<()>)
      requires db.Valid()
      modifies db
      ensures db.Valid()
      ensures r.Ok?
      ensures db.Snapshot() == DeleteSet(old(db.Snapshot()), id)
    {
      db.sets := db.sets - {id};
      r := Ok(());
    }
  }
}
