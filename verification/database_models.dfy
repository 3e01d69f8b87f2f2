/**
 * The three tables of the store (models/database_models.py) and the relationships
 * between them: a mission optionally points at a spy cat, every target points at
 * exactly one mission, and deleting a mission deletes its targets.
 */
module DatabaseModels {
  import opened Wrappers

  datatype SpyCat = SpyCat(name: string, yearsOfExperience: int, breed: string, salary: real)

  /** `catId` is the nullable foreign key to the spy cats table. */
  datatype Mission = Mission(catId: Option<int>, complete: bool)

  /** `missionId` is the non-nullable foreign key to the missions table. */
  datatype Target = Target(missionId: int, name: string, country: string, notes: string, complete: bool)

  /**
   * A snapshot of the store: each table keyed by its integer primary key, plus the
   * next value of each auto-increment counter (ids are never reused).
   */
  datatype Db = Db(
    cats: map<int, SpyCat>,
    missions: map<int, Mission>,
    targets: map<int, Target>,
    nextCatId: int,
    nextMissionId: int,
    nextTargetId: int)

  /** The empty store; auto-increment ids start at 1. */
  function EmptyDb(): Db {
    Db(map[], map[], map[], 1, 1, 1)
  }

  /** A freshly inserted mission row: no cat (`cat_id` NULL) and not complete. */
  function NewMission(): Mission {
    Mission(None, false)
  }

  /** The ids of the targets of mission `mid`: the `Mission.targets` relationship. */
  function TargetsOf(targets: map<int, Target>, mid: int): set<int> {
    set t | t in targets && targets[t].missionId == mid
  }

  /**
   * Deleting a mission row; the delete-orphan cascade on `Mission.targets` removes
   * exactly the targets that point at it. Spy cats are untouched.
   */
  function DeleteMissionCascade(db: Db, mid: int): (r: Db)
    ensures r.missions.Keys == db.missions.Keys - {mid}
    ensures forall m :: m in r.missions ==> r.missions[m] == db.missions[m]
    ensures forall t :: t in r.targets <==> t in db.targets && db.targets[t].missionId != mid
    ensures forall t :: t in r.targets ==> r.targets[t] == db.targets[t]
    ensures r.cats == db.cats
    ensures r.nextCatId == db.nextCatId && r.nextMissionId == db.nextMissionId && r.nextTargetId == db.nextTargetId
  {
    db.(missions := db.missions - {mid},
        targets := map t | t in db.targets && db.targets[t].missionId != mid :: db.targets[t])
  }

  /**
   * Referential and key integrity the schema enforces: primary keys are positive and
   * below their counter, every target's mission exists, and a set `cat_id` is a
   * positive id that the cat counter has handed out.
   */
  predicate Integrity(db: Db) {
    && db.nextCatId >= 1 && db.nextMissionId >= 1 && db.nextTargetId >= 1
    && (forall c :: c in db.cats ==> 0 < c < db.nextCatId)
    && (forall m :: m in db.missions ==> 0 < m < db.nextMissionId)
    && (forall t :: t in db.targets ==> 0 < t < db.nextTargetId)
    && (forall t :: t in db.targets ==> db.targets[t].missionId in db.missions)
    && (forall m :: m in db.missions && db.missions[m].catId.Some? ==>
          0 < db.missions[m].catId.value < db.nextCatId)
  }

  /** Every set `cat_id` names a spy cat that is still stored. */
  predicate CatRefsLive(db: Db) {
    forall m :: m in db.missions && db.missions[m].catId.Some? ==> db.missions[m].catId.value in db.cats
  }
}
