# Spy Cat Agency: mission lifecycle model

A Dafny model of the mission lifecycle of the Spy Cat Agency service. The service keeps
spy cats, missions and targets in a relational store. A mission has one to three targets.
It can be assigned to one cat. It becomes complete when all of its targets are complete.
The model covers the request handlers that create, change and delete these records, the
field constraints on their request bodies, and the store invariants those handlers keep.

Layout, one module per file:

- `wrappers.dfy` (`Wrappers`): `Option`, used for the nullable `cat_id` and for omitted request fields.
- `api_models.dfy` (`ApiModels`): request bodies and their field constraints as predicates
  (`ValidSpyCatCreate`, `ValidSpyCatUpdate`, `ValidTargetCreate`, `ValidMissionCreate`).
- `database_models.dfy` (`DatabaseModels`): the three row types. `Db` is one snapshot of the
  tables plus the auto-increment counters. It also defines the mission→targets relationship
  (`TargetsOf`), the delete cascade, and key and foreign-key integrity.
- `lifecycle.dfy` (`Lifecycle`): each handler of `main.py` as a function from the store
  before a request to the store after it plus the reply (`Step`). Failures are `Failed(e)`
  values, never preconditions. This file also holds the read-only helpers `IsCatAvailable`
  and `CheckMissionCompletion`, the truthiness test on `cat_id` (`Truthy`), and the
  fail-closed breed check.
- `invariants.dfy` (`Invariants`): `Wf` is the store invariant. It combines integrity, one to
  three targets per mission, "complete iff all targets complete", and "at most one
  incomplete mission per cat". `Evolves` states what no request can undo: ids are never
  reused, and completion flags, assignments, a surviving mission's set of targets, and locked
  notes stay as they were. The table below calls this "the history". The file proves
  that every handler preserves both, plus single-handler properties that depend on the invariant.
- `service.dfy` (`Service`): the handlers as imperative methods of `SpyCatAgency`. The class
  holds the tables as `map` fields and updates them in place. Each method states its new
  state and reply as the matching `Lifecycle` function of the old state and keeps `Wf`.
  Mission creation inserts the targets in a loop, as the source does.
- `scenario.dfy` (`Scenario`): one concrete run, request by request, from an empty store.

Request validation runs before a handler body. An invalid body is answered with
`ValidationError`, and the store is left untouched. In the model, this check is the
first step of each handler function.

The source tests `cat_id` by Python truthiness (`if mission.cat_id:`). The model keeps that
test literally: NULL and 0 are false. `TruthyIsAssigned` shows that under the invariant
the test means "has a cat", because ids are positive.

Completing a target that is already complete is accepted silently: the handler at
main.py:218-241 has no guard against it. The model does the same, and
`CompleteTargetIdempotent` proves the store is unchanged.

Modelling choice: deleting a cat leaves its missions' `cat_id` as it was. The handler
itself never touches missions, but the ORM may null `cat_id`, or a foreign-key-enforcing store
may refuse the delete; see `Lifecycle.DeleteSpyCat` under "## Left out".

## Model

| member | source | states |
|---|---|---|
| `ApiModels.NotesOrDefault` | models/api_models.py:23-26 | a target created without notes gets the empty string; otherwise the notes sent |
| `DatabaseModels.DeleteMissionCascade` | models/database_models.py:29 | deleting a mission removes that mission and exactly the targets whose mission id is it; every other row, the cats and the counters are unchanged |
| `Lifecycle.ValidateCatBreed` | main.py:28-39 | a breed is accepted iff the catalog answered 200 with a list of names and some name equals the breed after both are lower-cased; an unreachable catalog, another status or an unreadable body rejects it |
| `Lifecycle.NewTarget` | models/database_models.py:33-39 | a new target row belongs to the given mission, carries the requested name and country, is not complete, and has the notes sent, or empty notes when none were sent |
| `Lifecycle.NewTargets` | main.py:127-134 | the rows for a new mission's targets occupy exactly the ids `first .. first+n-1`, the i-th id holding the row for the i-th requested target |
| `Lifecycle.CreateSpyCat` | main.py:65-81 | an invalid body fails with ValidationError and a rejected breed with InvalidBreed, both storing nothing; otherwise the cat is inserted under the next id, and missions, targets and their id counters are unchanged |
| `Lifecycle.UpdateSpyCat` | main.py:96-106 | invalid salary → ValidationError, unknown cat → NotFound; on success only that cat's salary changes |
| `Lifecycle.DeleteSpyCat` | main.py:108-117 | unknown cat → NotFound; on success only that cat is removed, and missions and targets are never touched |
| `Lifecycle.CreateMission` | main.py:120-138 | 0 or more than 3 targets, or an empty name or country → ValidationError, storing nothing; otherwise a new unassigned incomplete mission under the next id, plus one target row per requested target |
| `Lifecycle.DeleteMission` | main.py:153-165 | unknown mission → NotFound; fails with AssignedUndeletable iff the mission's cat_id is truthy; on success the store is the mission-and-targets cascade delete; failures change nothing |
| `Lifecycle.AssignMission` | main.py:167-191 | checks in order: mission missing → NotFound, cat missing → NotFound, mission already has a cat → AlreadyAssigned, whatever the cat's availability, cat has an incomplete mission → CatUnavailable; success iff all pass, and then only that mission's cat_id changes |
| `Lifecycle.UpdateTargetNotes` | main.py:193-216 | mission missing or target not in that mission → NotFound; target complete → Locked(target), checked first; mission complete → Locked(mission); otherwise only that target's notes change, to any string |
| `Lifecycle.CompleteTarget` | main.py:218-241 | mission missing or target not in that mission → NotFound; otherwise the target becomes complete and the mission's flag becomes old flag OR all of its targets complete; nothing else changes |
| `ApiModels.ValidSpyCatCreate` | models/api_models.py:4-8 | a cat request is accepted iff name and breed are non-empty, years of experience is at least 0 and salary is positive |
| `ApiModels.ValidSpyCatUpdate` | models/api_models.py:10-11 | a salary update is accepted iff the salary is positive |
| `ApiModels.ValidTargetCreate` | models/api_models.py:23-26 | a target request is accepted iff name and country are non-empty; notes are unconstrained |
| `ApiModels.ValidMissionCreate` | models/api_models.py:41-42 | a mission request is accepted iff it lists one to three targets, each of them accepted |
| `DatabaseModels.EmptyDb` | models/database_models.py:8-39 | the empty tables, each auto-increment id counter starting at 1 |
| `Lifecycle.LowerChar` | main.py:35-36 | the ASCII lower-casing of one character: upper-case letters map to lower case, every other character is kept |
| `DatabaseModels.NewMission` | models/database_models.py:23-25 | a new mission row has no cat and is not complete |
| `DatabaseModels.TargetsOf` | models/database_models.py:29 | a mission's targets are the ids of the target rows whose mission id is that mission |
| `DatabaseModels.Integrity` | models/database_models.py:20-35 | ids are positive and below their counters, every target's mission exists, and a set cat_id is a positive id already handed out |
| `DatabaseModels.CatRefsLive` | models/database_models.py:24 | a set cat_id names a stored cat (the foreign key) |
| `Lifecycle.Lower` | main.py:35-36 | lower-casing keeps the length and lower-cases each character |
| `Lifecycle.IsCatAvailable` | main.py:42-48 | a cat is available iff no stored mission is assigned to it and incomplete |
| `Lifecycle.CheckMissionCompletion` | main.py:51-53 | a mission is finished iff every target row of that mission is complete (vacuously for none) |
| `Lifecycle.Truthy` | main.py:160 | Python truthiness of cat_id: NULL and 0 are false, any other id true |
| `Lifecycle.BelongsTo` | main.py:200-205 | a target is found for a mission iff a target row with that id exists and its mission id is that mission |
| `Invariants.TargetCounts` | models/api_models.py:41-42 | every stored mission has one to three targets |
| `Invariants.CompletionDerived` | main.py:236-238 | a mission is complete iff all of its targets are complete |
| `Invariants.OneActiveMissionPerCat` | main.py:184-186 | no cat is the assignee of two distinct incomplete missions |
| `Invariants.Wf` | models/database_models.py:20-42 | the store invariant: integrity, target counts, derived completion and one active mission per cat |
| `Invariants.NotesLocked` | main.py:207-212 | a target's notes are frozen once the target or its mission is complete |
| `Invariants.Evolves` | main.py:153-241 | what no request undoes: counters only grow, completion flags and assignments stay set, a surviving mission keeps its targets, locked notes keep their text |
| `Invariants.EmptyDbWf` | models/database_models.py:8-39 | the empty store satisfies every invariant |
| `Invariants.TruthyIsAssigned` | main.py:160 | under store integrity, the truthiness test on cat_id holds iff the mission has a cat |
| `Invariants.CreateSpyCatPreserves` | main.py:65-81 | create cat keeps the invariant and the irreversible history; a new cat gets a positive id that no stored cat holds and no mission names, so it inherits no mission |
| `Invariants.UpdateSpyCatPreserves` | main.py:96-106 | update salary keeps the invariant and the history |
| `Invariants.DeleteSpyCatPreserves` | models/database_models.py:18 | delete cat keeps the invariant and every mission; cat references stay live when no mission pointed at the cat |
| `Invariants.CreateMissionTargets` | main.py:123-134 | the new mission's targets are exactly the fresh ids, none of them complete, so the mission is not complete; existing missions keep their targets and completion verdict |
| `Invariants.CreateMissionPreserves` | main.py:120-138 | create mission keeps the invariant (1–3 targets, complete iff all targets complete, one active mission per cat) and the history |
| `Invariants.DeleteMissionPreserves` | main.py:153-165 | delete mission keeps the invariant, every surviving mission's targets, and the history |
| `Invariants.AssignMissionPreserves` | main.py:180-189 | a successful assign keeps "each cat is the assignee of at most one incomplete mission", and assignment is never undone |
| `Invariants.UpdateTargetNotesPreserves` | main.py:207-214 | notes updates keep the invariant; locked notes never change |
| `Invariants.CompleteTargetPreserves` | main.py:233-238 | completing a target keeps "complete iff all targets complete"; completion flags are never reset |
| `Invariants.CreateMissionResult` | main.py:123-134 | a created mission has a fresh positive id, no cat, is incomplete, owns exactly as many targets as requested; no existing row changes |
| `Invariants.CreateMissionTargetsInOrder` | main.py:127-134 | the i-th requested target becomes a fresh row of the new mission, id growing with i, with the requested fields and not complete |
| `Invariants.DeleteMissionGuard` | main.py:160-163 | under the invariant, delete mission fails iff the mission has a cat; on success the mission and all of its targets are gone |
| `Invariants.CompleteTargetSettlesMission` | main.py:233-238 | after a successful complete-target, the target is complete and the mission is complete iff all of its targets are |
| `Invariants.CompleteTargetIdempotent` | main.py:233-238 | completing an already complete target succeeds and leaves the store unchanged |
| `Invariants.CompletingMissionFreesCat` | main.py:42-48 | when a completion finishes a cat's incomplete mission, the cat becomes available again |
| `Invariants.SecondAssignRefused` | main.py:184-186 | after a cat is assigned an incomplete mission, assigning it another unassigned mission fails with CatUnavailable |
| `Service.SpyCatAgency.constructor` | models/database_models.py:8-39 | an empty store satisfying the invariant |
| `Service.SpyCatAgency.CreateSpyCat` | main.py:65-81 | in-place create cat; new tables and reply are those of `Lifecycle.CreateSpyCat`; keeps the invariant |
| `Service.SpyCatAgency.UpdateSpyCat` | main.py:96-106 | in-place salary update matching `Lifecycle.UpdateSpyCat`; keeps the invariant |
| `Service.SpyCatAgency.DeleteSpyCat` | main.py:108-117 | in-place cat delete matching `Lifecycle.DeleteSpyCat`; keeps the invariant |
| `Service.SpyCatAgency.CreateMission` | main.py:120-138 | in-place mission creation matching `Lifecycle.CreateMission`; keeps the invariant |
| `Service.SpyCatAgency.InsertTargets` | main.py:127-134 | the loop adding one target row per request, in request order, with consecutive ids |
| `Service.SpyCatAgency.DeleteMission` | main.py:153-165 | in-place guarded delete with cascade matching `Lifecycle.DeleteMission`; keeps the invariant |
| `Service.SpyCatAgency.AssignMission` | main.py:167-191 | in-place guarded assignment matching `Lifecycle.AssignMission`; keeps the invariant |
| `Service.SpyCatAgency.UpdateTargetNotes` | main.py:193-216 | in-place guarded notes update matching `Lifecycle.UpdateTargetNotes`; keeps the invariant |
| `Service.SpyCatAgency.CompleteTarget` | main.py:218-241 | in-place completion and mission re-derivation matching `Lifecycle.CompleteTarget`; keeps the invariant |
| `Scenario.BreedMatchIgnoresCase` | main.py:35-36 | "persian" is accepted by a catalog listing "Persian" |
| `Scenario.UnknownBreedRejected` | main.py:35-36 | a breed missing from the catalog is rejected |
| `Scenario.HireStep` | main.py:65-81 | hiring the first cat stores it under id 1 |
| `Scenario.FirstMissionStep` | main.py:120-138 | the first mission gets id 1 and its two targets ids 1 and 2, in order |
| `Scenario.AssignStep` | main.py:167-191 | a free cat is assigned to an unassigned mission |
| `Scenario.SecondMissionStep` | main.py:120-138 | the second mission gets id 2 and its target id 3, with the notes sent |
| `Scenario.BusyCatStep` | main.py:184-186 | a cat with an incomplete mission is refused a second one |
| `Scenario.FirstTargetStep` | main.py:233-238 | completing one of two targets leaves the mission incomplete |
| `Scenario.SecondTargetStep` | main.py:233-238 | completing the last target completes the mission |
| `Scenario.LockedNotesStep` | main.py:207-209 | notes of a completed target cannot be updated |
| `Scenario.ReassignStep` | main.py:42-48 | once its mission is complete the cat can be assigned again |
| `Scenario.HireAssignComplete` | main.py:65-241 | the whole run: hire, create two missions, assign, refused second assignment, two completions, locked notes, reassignment |

## Left out

- HTTP routing, CORS, the root, list and get endpoints, and the server entry point. They hold no lifecycle logic.
- The response models. Their only bearing on the lifecycle is that `cat_id` is optional, which is the `Option` type of `Mission.catId`.
- The session and engine setup in `db.py`, and transaction mechanics (flush, commit, refresh, rollback). Each handler is modelled as one atomic step.
- The HTTP request to the breed catalog. Its outcome is the `BreedLookup` parameter: unreachable, or a status plus the names when the body could be read. Timeouts and the catalog's contents are outside the model.
- `Lifecycle.ValidateCatBreed`: lower-casing covers ASCII letters only, not Python's full Unicode `str.lower`.
- Concurrent requests, including two assignments of one cat racing past the availability check. The model is sequential.
- Floating-point salaries. `salary` is a `real`, and only its positivity is checked, as in the source.
- Column length limits and type coercion or parse errors of request fields. Only the declared field constraints are modelled.
- Auto-increment ids are modelled as counters that start at 1 and never reuse an id. A store that reuses ids is not modelled.
- Lifecycle.DeleteSpyCat: keeps the `cat_id` of the cat's missions as it was. With the relationship as declared, the ORM's default on delete nulls those references, and a foreign-key-enforcing store may instead refuse the delete; neither is modelled. In the model such a mission stays undeletable (AssignedUndeletable) and cannot be reassigned (AlreadyAssigned).
- `Invariants.DeleteSpyCatPreserves`: follows from the choice above. Deleting a cat with missions leaves a mission referring to the deleted cat, so "a set cat_id names a stored cat" (`CatRefsLive`) is proved preserved by every other handler, and by delete cat only when no mission refers to that cat.
