/**
 * What each request handler of main.py does to the store, as a function from the
 * store before the request to the store after it and the reply. Every handler
 * either applies one guarded update or answers with an error and leaves the store
 * as it was; each is atomic (one transaction per request).
 */
module Lifecycle {
  import opened Wrappers
  import opened ApiModels
  import opened DatabaseModels

  /** Which row a "not found" or "locked" answer is about (the detail text of the reply). */
  datatype Entity = SpyCatEntity | MissionEntity | TargetEntity

  datatype Error =
    | ValidationError          // the request body breaks a field constraint (HTTP 422)
    | InvalidBreed             // breed rejected by the catalog, or the catalog could not be consulted
    | NotFound(entity: Entity) // HTTP 404
    | AlreadyAssigned          // the mission already has a cat
    | CatUnavailable           // the cat is the assignee of an incomplete mission
    | AssignedUndeletable      // the mission has a cat and cannot be deleted
    | Locked(entity: Entity)   // notes of a completed target, or of a target of a completed mission

  datatype Reply = Created(id: int) | Done | Failed(error: Error)

  /** The store after a request, and the answer to it. */
  datatype Step = Step(db: Db, reply: Reply)

  // ---------------------------------------------------------------------------
  // Breed validation against the external catalog
  // ---------------------------------------------------------------------------

  /**
   * The outcome of fetching the breed catalog: no answer at all (connection error,
   * timeout, any exception), or a response with its status code and, when the body
   * could be read as a list of breeds with names, those names.
   */
  datatype BreedLookup = Unreachable | Response(status: int, names: Option<seq<string>>)

  /** Lower-casing of one character, ASCII letters only. */
  function LowerChar(c: char): char {
    if 'A' <= c <= 'Z' then (c as int + 32) as char else c
  }

  function Lower(s: string): (r: string)
    ensures |r| == |s|
    ensures forall i :: 0 <= i < |s| ==> r[i] == LowerChar(s[i])
  {
    if s == [] then [] else [LowerChar(s[0])] + Lower(s[1..])
  }

  /**
   * A breed is accepted exactly when the catalog answered with status 200, its body
   * listed breed names, and one of them equals the breed once both are lower-cased.
   * Every other outcome rejects the breed (fail-closed).
   */
  function ValidateCatBreed(breed: string, lookup: BreedLookup): (ok: bool)
    ensures ok <==>
      && lookup.Response? && lookup.status == 200 && lookup.names.Some?
      && exists i :: 0 <= i < |lookup.names.value| && Lower(lookup.names.value[i]) == Lower(breed)
  {
    match lookup
    case Unreachable => false
    case Response(status, names) =>
      if status != 200 then false
      else match names
        case None => false
        case Some(ns) =>
          var breedNames := seq(|ns|, i requires 0 <= i < |ns| => Lower(ns[i]));
          // Proof hint: lets the verifier match `in` against the catalog's indices.
          assert forall i :: 0 <= i < |ns| ==> breedNames[i] == Lower(ns[i]);
          Lower(breed) in breedNames
  }

  // ---------------------------------------------------------------------------
  // Read-only helpers
  // ---------------------------------------------------------------------------

  /** A cat is available when no mission assigned to it is still incomplete. */
  predicate IsCatAvailable(missions: map<int, Mission>, cid: int) {
    !exists m :: m in missions && missions[m].catId == Some(cid) && !missions[m].complete
  }

  /** All targets of mission `mid` are complete (vacuously so when it has none). */
  predicate CheckMissionCompletion(targets: map<int, Target>, mid: int) {
    forall t :: t in targets && targets[t].missionId == mid ==> targets[t].complete
  }

  /** Python truthiness of a nullable integer column: NULL and 0 are false. */
  predicate Truthy(id: Option<int>) {
    id.Some? && id.value != 0
  }

  /** The target lookup of the handlers: target `tid` exists and belongs to mission `mid`. */
  predicate BelongsTo(targets: map<int, Target>, tid: int, mid: int) {
    tid in targets && targets[tid].missionId == mid
  }

  /** The row inserted for one requested target: incomplete, notes defaulting to "". */
  function NewTarget(mid: int, req: TargetCreate): (t: Target)
    ensures t.missionId == mid && t.name == req.name && t.country == req.country
    ensures !t.complete
    ensures req.notes.None? ==> t.notes == ""
    ensures req.notes.Some? ==> t.notes == req.notes.value
  {
    Target(mid, req.name, req.country, NotesOrDefault(req), false)
  }

  /** The row for target id `t` when the targets of mission `mid` are numbered from `first`. */
  function NewTargetAt(mid: int, reqs: seq<TargetCreate>, first: int, t: int): Target
    requires first <= t < first + |reqs|
  {
    NewTarget(mid, reqs[t - first])
  }

  /** The target rows of a new mission: the i-th requested target gets id `first + i`. */
  function NewTargets(mid: int, reqs: seq<TargetCreate>, first: int): (ts: map<int, Target>)
    ensures forall t :: t in ts <==> first <= t < first + |reqs|
    ensures forall i :: 0 <= i < |reqs| ==> ts[first + i] == NewTarget(mid, reqs[i])
  {
    map t | first <= t < first + |reqs| :: NewTargetAt(mid, reqs, first, t)
  }

  // ---------------------------------------------------------------------------
  // Handlers
  // ---------------------------------------------------------------------------

  /** POST /spy-cats/: validate the body, then the breed, then insert the cat. */
  function CreateSpyCat(db: Db, req: SpyCatCreate, lookup: BreedLookup): (r: Step)
    ensures !ValidSpyCatCreate(req) ==> r == Step(db, Failed(ValidationError))
    ensures ValidSpyCatCreate(req) && !ValidateCatBreed(req.breed, lookup) ==> r == Step(db, Failed(InvalidBreed))
    ensures r.reply.Created? <==> ValidSpyCatCreate(req) && ValidateCatBreed(req.breed, lookup)
    ensures r.reply.Created? ==>
      && r.db.cats == db.cats[r.reply.id := SpyCat(req.name, req.yearsOfExperience, req.breed, req.salary)]
      && r.db.missions == db.missions && r.db.targets == db.targets
      && r.reply.id == db.nextCatId && r.db.nextCatId == db.nextCatId + 1
      && r.db.nextMissionId == db.nextMissionId && r.db.nextTargetId == db.nextTargetId
  {
    if !ValidSpyCatCreate(req) then Step(db, Failed(ValidationError))
    else if !ValidateCatBreed(req.breed, lookup) then Step(db, Failed(InvalidBreed))
    else
      var id := db.nextCatId;
      var cat := SpyCat(req.name, req.yearsOfExperience, req.breed, req.salary);
      Step(db.(cats := db.cats[id := cat], nextCatId := id + 1), Created(id))
  }

  /** PUT /spy-cats/{cat_id}: change the salary of an existing cat. */
  function UpdateSpyCat(db: Db, cid: int, req: SpyCatUpdate): (r: Step)
    ensures !ValidSpyCatUpdate(req) ==> r == Step(db, Failed(ValidationError))
    ensures ValidSpyCatUpdate(req) && cid !in db.cats ==> r == Step(db, Failed(NotFound(SpyCatEntity)))
    ensures r.reply == Done <==> ValidSpyCatUpdate(req) && cid in db.cats
    ensures r.reply == Done ==> r.db == db.(cats := db.cats[cid := db.cats[cid].(salary := req.salary)])
  {
    if !ValidSpyCatUpdate(req) then Step(db, Failed(ValidationError))
    else if cid !in db.cats then Step(db, Failed(NotFound(SpyCatEntity)))
    else Step(db.(cats := db.cats[cid := db.cats[cid].(salary := req.salary)]), Done)
  }

  /** DELETE /spy-cats/{cat_id}: remove the cat; its missions are not touched. */
  function DeleteSpyCat(db: Db, cid: int): (r: Step)
    ensures cid !in db.cats ==> r == Step(db, Failed(NotFound(SpyCatEntity)))
    ensures cid in db.cats ==> r.reply == Done && r.db == db.(cats := db.cats - {cid})
    ensures r.db.missions == db.missions && r.db.targets == db.targets
  {
    if cid !in db.cats then Step(db, Failed(NotFound(SpyCatEntity)))
    else Step(db.(cats := db.cats - {cid}), Done)
  }

  /** POST /missions/: insert an unassigned, incomplete mission and one row per requested target. */
  function CreateMission(db: Db, req: MissionCreate): (r: Step)
    ensures !ValidMissionCreate(req) ==> r == Step(db, Failed(ValidationError))
    ensures ValidMissionCreate(req) ==>
      && r.reply == Created(db.nextMissionId)
      && r.db.cats == db.cats
      && r.db.missions == db.missions[db.nextMissionId := NewMission()]
      && r.db.targets == db.targets + NewTargets(db.nextMissionId, req.targets, db.nextTargetId)
      && r.db.nextCatId == db.nextCatId
      && r.db.nextMissionId == db.nextMissionId + 1
      && r.db.nextTargetId == db.nextTargetId + |req.targets|
  {
    if !ValidMissionCreate(req) then Step(db, Failed(ValidationError))
    else
      var mid := db.nextMissionId;
      var db' := db.(
        missions := db.missions[mid := NewMission()],
        targets := db.targets + NewTargets(mid, req.targets, db.nextTargetId),
        nextMissionId := mid + 1,
        nextTargetId := db.nextTargetId + |req.targets|);
      Step(db', Created(mid))
  }

  /** DELETE /missions/{mission_id}: refused while the mission has a cat; cascades to its targets. */
  function DeleteMission(db: Db, mid: int): (r: Step)
    ensures mid !in db.missions ==> r == Step(db, Failed(NotFound(MissionEntity)))
    ensures r.reply == Failed(AssignedUndeletable) <==> mid in db.missions && Truthy(db.missions[mid].catId)
    ensures r.reply == Done <==> mid in db.missions && !Truthy(db.missions[mid].catId)
    ensures r.reply.Failed? ==> r.db == db
    ensures r.reply == Done ==> r.db == DeleteMissionCascade(db, mid)
  {
    if mid !in db.missions then Step(db, Failed(NotFound(MissionEntity)))
    else if Truthy(db.missions[mid].catId) then Step(db, Failed(AssignedUndeletable))
    else Step(DeleteMissionCascade(db, mid), Done)
  }

  /**
   * PUT /missions/{mission_id}/assign/{cat_id}. The checks run in this order:
   * mission exists, cat exists, mission has no cat yet, cat is available.
   */
  function AssignMission(db: Db, mid: int, cid: int): (r: Step)
    ensures mid !in db.missions ==> r == Step(db, Failed(NotFound(MissionEntity)))
    ensures mid in db.missions && cid !in db.cats ==> r == Step(db, Failed(NotFound(SpyCatEntity)))
    ensures mid in db.missions && cid in db.cats && Truthy(db.missions[mid].catId) ==>
      r == Step(db, Failed(AlreadyAssigned))
    ensures mid in db.missions && cid in db.cats && !Truthy(db.missions[mid].catId) && !IsCatAvailable(db.missions, cid) ==>
      r == Step(db, Failed(CatUnavailable))
    ensures r.reply == Done <==>
      mid in db.missions && cid in db.cats && !Truthy(db.missions[mid].catId) && IsCatAvailable(db.missions, cid)
    ensures r.reply == Done ==> r.db == db.(missions := db.missions[mid := db.missions[mid].(catId := Some(cid))])
  {
    if mid !in db.missions then Step(db, Failed(NotFound(MissionEntity)))
    else if cid !in db.cats then Step(db, Failed(NotFound(SpyCatEntity)))
    else if Truthy(db.missions[mid].catId) then Step(db, Failed(AlreadyAssigned))
    else if !IsCatAvailable(db.missions, cid) then Step(db, Failed(CatUnavailable))
    else Step(db.(missions := db.missions[mid := db.missions[mid].(catId := Some(cid))]), Done)
  }

  /**
   * PUT /missions/{mission_id}/targets/{target_id}/notes. The target's own completion
   * is checked before its mission's.
   */
  function UpdateTargetNotes(db: Db, mid: int, tid: int, req: TargetNotesUpdate): (r: Step)
    ensures mid !in db.missions ==> r == Step(db, Failed(NotFound(MissionEntity)))
    ensures mid in db.missions && !BelongsTo(db.targets, tid, mid) ==> r == Step(db, Failed(NotFound(TargetEntity)))
    ensures mid in db.missions && BelongsTo(db.targets, tid, mid) && db.targets[tid].complete ==>
      r == Step(db, Failed(Locked(TargetEntity)))
    ensures mid in db.missions && BelongsTo(db.targets, tid, mid) && !db.targets[tid].complete && db.missions[mid].complete ==>
      r == Step(db, Failed(Locked(MissionEntity)))
    ensures r.reply == Done <==>
      mid in db.missions && BelongsTo(db.targets, tid, mid) && !db.targets[tid].complete && !db.missions[mid].complete
    ensures r.reply == Done ==> r.db == db.(targets := db.targets[tid := db.targets[tid].(notes := req.notes)])
  {
    if mid !in db.missions then Step(db, Failed(NotFound(MissionEntity)))
    else if !BelongsTo(db.targets, tid, mid) then Step(db, Failed(NotFound(TargetEntity)))
    else if db.targets[tid].complete then Step(db, Failed(Locked(TargetEntity)))
    else if db.missions[mid].complete then Step(db, Failed(Locked(MissionEntity)))
    else Step(db.(targets := db.targets[tid := db.targets[tid].(notes := req.notes)]), Done)
  }

  /**
   * PUT /missions/{mission_id}/targets/{target_id}/complete: mark the target complete,
   * then mark the mission complete if all of its targets now are. The mission flag is
   * only ever set, never cleared, and an already complete target is accepted again.
   */
  function CompleteTarget(db: Db, mid: int, tid: int): (r: Step)
    ensures mid !in db.missions ==> r == Step(db, Failed(NotFound(MissionEntity)))
    ensures mid in db.missions && !BelongsTo(db.targets, tid, mid) ==> r == Step(db, Failed(NotFound(TargetEntity)))
    ensures r.reply == Done <==> mid in db.missions && BelongsTo(db.targets, tid, mid)
    ensures r.reply == Done ==>
      && r.db.targets == db.targets[tid := db.targets[tid].(complete := true)]
      && r.db.missions == db.missions[mid := db.missions[mid].(
           complete := db.missions[mid].complete || CheckMissionCompletion(r.db.targets, mid))]
      && r.db.cats == db.cats
      && r.db.nextCatId == db.nextCatId && r.db.nextMissionId == db.nextMissionId
      && r.db.nextTargetId == db.nextTargetId
  {
    if mid !in db.missions then Step(db, Failed(NotFound(MissionEntity)))
    else if !BelongsTo(db.targets, tid, mid) then Step(db, Failed(NotFound(TargetEntity)))
    else
      var targets := db.targets[tid := db.targets[tid].(complete := true)];
      var missions :=
        if CheckMissionCompletion(targets, mid) then db.missions[mid := db.missions[mid].(complete := true)]
        else db.missions;
      Step(db.(targets := targets, missions := missions), Done)
  }
}
