/**
 * Request bodies accepted by the service and the field constraints the request
 * layer checks before a handler runs (models/api_models.py). A request that
 * breaks one of these is answered with a validation error and never reaches the
 * store.
 */
module ApiModels {
  import opened Wrappers

  /** Body of "create spy cat". */
  datatype SpyCatCreate = SpyCatCreate(name: string, yearsOfExperience: int, breed: string, salary: real)

  /** Body of "update spy cat": only the salary can change. */
  datatype SpyCatUpdate = SpyCatUpdate(salary: real)

  /** One target of a new mission; `notes` is `None` when the client left the field out. */
  datatype TargetCreate = TargetCreate(name: string, country: string, notes: Option<string>)

  /** Body of "update target notes"; any string is accepted, the empty one included. */
  datatype TargetNotesUpdate = TargetNotesUpdate(notes: string)

  /** Body of "create mission". */
  datatype MissionCreate = MissionCreate(targets: seq<TargetCreate>)

  /** Non-empty name and breed, no negative experience, a strictly positive salary. */
  predicate ValidSpyCatCreate(r: SpyCatCreate) {
    |r.name| >= 1 && r.yearsOfExperience >= 0 && |r.breed| >= 1 && r.salary > 0.0
  }

  predicate ValidSpyCatUpdate(r: SpyCatUpdate) {
    r.salary > 0.0
  }

  /** Non-empty name and country; notes are free text. */
  predicate ValidTargetCreate(r: TargetCreate) {
    |r.name| >= 1 && |r.country| >= 1
  }

  /** Between one and three targets, each of them valid. */
  predicate ValidMissionCreate(r: MissionCreate) {
    && 1 <= |r.targets| <= 3
    && forall i :: 0 <= i < |r.targets| ==> ValidTargetCreate(r.targets[i])
  }

  /** The notes a target is created with: the ones sent, or the empty string when none were. */
  function NotesOrDefault(r: TargetCreate): (notes: string)
    ensures r.notes.None? ==> notes == ""
    ensures r.notes.Some? ==> notes == r.notes.value
  {
    r.notes.GetOr("")
  }
}
