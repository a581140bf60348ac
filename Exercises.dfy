/**
 * The exercise repository: looking exercises up by id and by name, counting
 * how many sets use an exercise, listing, creating, renaming and deleting.
 * Names are stored trimmed and compared trimmed and case-insensitively.
 */
module Exercises {
  import Order
  import Text
  import opened Store

  datatype ExerciseEntity = ExerciseEntity(id: int, name: string)

  /** `SELECT 1 FROM exercise WHERE id = ?`: true when that query yields a row. */
  function ExistsID(t: Tables, id: int): (r: bool)
    ensures r <==> id in t.exercises
  {
    var rows := set e | e in t.exercises && e == id;
    assert id in t.exercises ==> id in rows;
    rows != {}
  }

  /**
   * `SELECT 1 FROM exercise WHERE LOWER(name) = LOWER(?)` with the argument
   * trimmed first: true when some stored name equals the trimmed argument
   * up to ASCII letter case.
   */
  function ExistsName(t: Tables, name: string): (r: bool)
    ensures r <==> exists e | e in t.exercises :: Text.Lower(t.exercises[e]) == Text.Lower(Text.TrimSpace(name))
  {
    var probe := Text.Lower(Text.TrimSpace(name));
    var rows := set e | e in t.exercises && Text.Lower(t.exercises[e]) == probe;
    Order.EmptyOrInhabited(rows);
    assert forall e | e in rows :: e in t.exercises && Text.Lower(t.exercises[e]) == probe;
    assert forall e | e in t.exercises && Text.Lower(t.exercises[e]) == probe :: e in rows;
    rows != {}
  }

  /** Surrounding white space and letter case of the argument do not change the answer. */
  lemma ExistsNameIgnoresPaddingAndCase(t: Tables, p: string, name: string, q: string)
    requires Text.AllSpace(p) && Text.AllSpace(q)
    ensures ExistsName(t, p + name + q) == ExistsName(t, name)
    ensures ExistsName(t, Text.Lower(name)) == ExistsName(t, name)
  {
    Text.TrimSpacePadding(p, name, q);
    Text.LowerTrimSpace(name);
    Text.LowerIdempotent(Text.TrimSpace(name));
    assert Text.Lower(Text.TrimSpace(Text.Lower(name))) == Text.Lower(Text.TrimSpace(name));
  }

  /**
   * `SELECT COUNT(*) FROM exercise JOIN exercise_set ... WHERE e.id = ?`: the
   * number of sets that use the exercise; the join makes it 0 when there is
   * no such exercise.
   */
  function UsageInSets(t: Tables, id: int): (r: nat)
    ensures r == if id in t.exercises then |SetsOfExercise(t, id)| else 0
    ensures r > 0 <==> id in t.exercises && SetsOfExercise(t, id) != {}
    ensures r <= |t.sets|
  {
    if id in t.exercises then
      Order.SubsetNoLarger(SetsOfExercise(t, id), t.sets.Keys);
      |SetsOfExercise(t, id)|
    else 0
  }

  /** With foreign keys intact, the count is the number of sets that name the exercise, whether or not it exists. */
  lemma UsageCountsSets(t: Tables, id: int)
    requires Consistent(t)
    ensures UsageInSets(t, id) == |SetsOfExercise(t, id)|
  {
    if id !in t.exercises {
      forall s | s in t.sets ensures t.sets[s].exerciseId != id {
        assert t.sets[s].exerciseId in t.exercises;
      }
      assert SetsOfExercise(t, id) == {};
    }
  }

  /** With foreign keys intact, a zero count means that no set names the exercise. */
  lemma UnusedWhenCountIsZero(t: Tables, id: int)
    requires Consistent(t) && UsageInSets(t, id) == 0
    ensures SetsOfExercise(t, id) == {}
  {
    if id !in t.exercises {
      forall s | s in t.sets ensures t.sets[s].exerciseId != id {
        assert t.sets[s].exerciseId in t.exercises;
      }
    }
  }

  /** The rows for the exercise ids `ids`, in the same order. */
  function EntitiesOf(exercises: map<int, string>, ids: seq<int>): (r: seq<ExerciseEntity>)
    requires forall i | 0 <= i < |ids| :: ids[i] in exercises
    ensures |r| == |ids|
    ensures forall i | 0 <= i < |ids| :: r[i] == ExerciseEntity(ids[i], exercises[ids[i]])
  {
    seq(|ids|, i requires 0 <= i < |ids| => ExerciseEntity(ids[i], exercises[ids[i]]))
  }

  /** `SELECT id, name FROM exercise ORDER BY name`. */
  function FindAll(t: Tables): (r: seq<ExerciseEntity>)
    ensures |r| == |t.exercises|
    ensures forall i | 0 <= i < |r| :: r[i].id in t.exercises && r[i].name == t.exercises[r[i].id]
    ensures forall e | e in t.exercises :: exists i | 0 <= i < |r| :: r[i].id == e
    ensures forall i, j | 0 <= i < j < |r| :: r[i].id != r[j].id && !Order.StrLess(r[j].name, r[i].name)
  {
    ByNameIsStrictTotal(t.exercises);
    var ids := Order.SortBy(t.exercises.Keys, ByName(t.exercises));
    Order.SortedIsDistinct(t.exercises.Keys, ByName(t.exercises), ids);
    SortedByName(t.exercises, ids);
    EntitiesOf(t.exercises, ids)
  }

  /** The rows for ids sorted by name list every exercise once, with its name, in name order. */
  lemma SortedByName(exercises: map<int, string>, ids: seq<int>)
    requires |ids| == |exercises|
    requires forall i | 0 <= i < |ids| :: ids[i] in exercises
    requires forall e | e in exercises :: e in ids
    requires forall i, j | 0 <= i < j < |ids| :: ByName(exercises)(ids[i], ids[j])
    requires forall i, j | 0 <= i < j < |ids| :: ids[i] != ids[j]
    ensures var r := EntitiesOf(exercises, ids);
      && (forall i | 0 <= i < |r| :: r[i].id in exercises && r[i].name == exercises[r[i].id])
      && (forall e | e in exercises :: exists i | 0 <= i < |r| :: r[i].id == e)
      && (forall i, j | 0 <= i < j < |r| :: r[i].id != r[j].id && !Order.StrLess(r[j].name, r[i].name))
  {
    var r := EntitiesOf(exercises, ids);
    forall i, j | 0 <= i < j < |r| ensures r[i].id != r[j].id && !Order.StrLess(r[j].name, r[i].name) {
      var a, b := exercises[ids[i]], exercises[ids[j]];
      assert ByName(exercises)(ids[i], ids[j]);
      assert r[i].name == a && r[j].name == b;
      if Order.StrLess(b, a) {
        if Order.StrLess(a, b) {
          Order.StrLessTransitive(a, b, a);
        }
        Order.StrLessIrreflexive(a);
      }
    }
    forall e | e in exercises ensures exists i | 0 <= i < |r| :: r[i].id == e {
      var i :| 0 <= i < |ids| && ids[i] == e;
      assert r[i].id == e;
    }
  }

  /** No two exercises have names that differ only in letter case. */
  predicate NamesUnique(t: Tables) {
    forall a, b | a in t.exercises && b in t.exercises && a != b ::
      Text.Lower(t.exercises[a]) != Text.Lower(t.exercises[b])
  }

  /**
   * Creating only after `ExistsName` said no keeps names unique: the stored,
   * trimmed name matches no existing name.
   */
  lemma GuardedCreateKeepsNamesUnique(t: Tables, id: int, name: string)
    requires NamesUnique(t) && id !in t.exercises && !ExistsName(t, name)
    ensures NamesUnique(InsertExercise(t, id, Text.TrimSpace(name)))
  {
  }

  /**
   * Renaming checks nothing: renaming exercise `id` to a name whose trimmed
   * form equals another exercise's name up to letter case leaves two
   * exercises with the same lowered name.
   */
  lemma RenameCanBreakUniqueness(t: Tables, id: int, other: int, name: string)
    requires id in t.exercises && other in t.exercises && id != other
    requires Text.Lower(Text.TrimSpace(name)) == Text.Lower(t.exercises[other])
    ensures !NamesUnique(RenameExercise(t, id, Text.TrimSpace(name)))
  {
    var u := RenameExercise(t, id, Text.TrimSpace(name));
    assert Text.Lower(u.exercises[id]) == Text.Lower(u.exercises[other]);
  }

  /** A deleted exercise no longer exists; every other exercise keeps its name. */
  lemma DeletedExerciseIsGone(t: Tables, id: int)
    requires DeleteExercise(t, id).Ok?
    ensures !ExistsID(DeleteExercise(t, id).value, id)
    ensures forall e | e in t.exercises && e != id :: ExistsID(DeleteExercise(t, id).value, e)
  {
  }

  /** The exercise repository over the shared database handle. */
  class ExerciseRepository {
    const db: Db

    constructor (db: Db)
      ensures this.db == db
    {
      this.db := db;
    }

    /**
     * `INSERT INTO exercise (name)` with the trimmed name; the entity handed
     * back carries the name as given, untrimmed.
     */
    method Create(name: string) returns (e: ExerciseEntity)
      requires db.Valid()
      modifies db
      ensures db.Valid()
      ensures e.name == name
      ensures e.id !in old(db.exercises) && forall k | k in old(db.exercises) :: k < e.id
      ensures db.Snapshot() == InsertExercise(old(db.Snapshot()), e.id, Text.TrimSpace(name))
    {
      var id := NextId(db.exercises.Keys);
      var stored := Text.TrimSpace(name);
      ghost var before := db.Snapshot();
      db.exercises := db.exercises[id := stored];
      assert db.Snapshot() == InsertExercise(before, id, stored);
      e := ExerciseEntity(id, name);
    }

    /**
     * `UPDATE exercise SET name = ? WHERE id = ?` with the trimmed name; a
     * missing id is not an error. The entity handed back carries the id and
     * the name as given.
     */
    method Update(id: int, name: string) returns (e: ExerciseEntity)
      requires db.Valid()
      modifies db
      ensures db.Valid()
      ensures e == ExerciseEntity(id, name)
      ensures db.Snapshot() == RenameExercise(old(db.Snapshot()), id, Text.TrimSpace(name))
    {
      if id in db.exercises {
        db.exercises := db.exercises[id := Text.TrimSpace(name)];
      }
      e := ExerciseEntity(id, name);
    }

    /**
     * Refuses with ErrExerciseExists, changing nothing, while sets use the
     * exercise; otherwise deletes it. Deleting a missing id is not an error.
     */
    method Delete(id: int) returns (r: Result<()>)
      requires db.Valid()
      modifies db
      ensures db.Valid()
      ensures r.Err? <==> UsageInSets(old(db.Snapshot()), id) > 0
      ensures r.Err? ==> r.error == ErrExerciseExists && db.Snapshot() == old(db.Snapshot())
      ensures r.Ok? ==> DeleteExercise(old(db.Snapshot()), id) == Ok(db.Snapshot())
    {
      var count := UsageInSets(db.Snapshot(), id);
      if count > 0 {
        return Err(ErrExerciseExists);
      }
      UnusedWhenCountIsZero(db.Snapshot(), id);
      db.exercises := db.exercises - {id};
      r := Ok(());
    }
  }
}
