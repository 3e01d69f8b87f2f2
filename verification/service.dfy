/**
 * The request handlers of main.py as methods of one in-memory store. Each method
 * runs the handler's checks in the handler's order, then updates the tables in
 * place; its contract ties the new tables and the reply to the corresponding
 * function of `Lifecycle`, and keeps the invariant `Wf` of `Invariants`.
 */
module Service {
  import opened Wrappers
  import opened ApiModels
  import opened DatabaseModels
  import L = Lifecycle
  import opened Invariants

  /** Adding the rows of one more requested target extends the new-target map by one entry. */
  lemma NewTargetsExtend(before: map<int, Target>, mid: int, reqs: seq<TargetCreate>, first: int, i: int)
    requires 0 <= i < |reqs|
    ensures before + L.NewTargets(mid, reqs[..i + 1], first)
         == (before + L.NewTargets(mid, reqs[..i], first))[first + i := L.NewTarget(mid, reqs[i])]
  {
    var longer := L.NewTargets(mid, reqs[..i + 1], first);
    var shorter := L.NewTargets(mid, reqs[..i], first);
    assert reqs[..i + 1][i] == reqs[i];
    forall t | first <= t < first + i ensures longer[t] == shorter[t] {
      assert reqs[..i + 1][t - first] == reqs[..i][t - first];
    }
    assert longer == shorter[first + i := L.NewTarget(mid, reqs[i])];
  }

  class SpyCatAgency {
    var cats: map<int, SpyCat>
    var missions: map<int, Mission>
    var targets: map<int, Target>
    var nextCatId: int
    var nextMissionId: int
    var nextTargetId: int

    /** The tables as one value. */
    function Snapshot(): Db
      reads this
    {
      Db(cats, missions, targets, nextCatId, nextMissionId, nextTargetId)
    }

    ghost predicate Valid()
      reads this
    {
      Wf(Snapshot())
    }

    /** An empty store whose auto-increment ids start at 1. */
    constructor ()
      ensures Valid() && Snapshot() == EmptyDb()
    {
      cats, missions, targets := map[], map[], map[];
      nextCatId, nextMissionId, nextTargetId := 1, 1, 1;
      EmptyDbWf();
    }

    method CreateSpyCat(req: SpyCatCreate, lookup: L.BreedLookup) returns (reply: L.Reply)
      requires Valid()
      modifies this
      ensures Valid()
      ensures L.Step(Snapshot(), reply) == L.CreateSpyCat(old(Snapshot()), req, lookup)
    {
      CreateSpyCatPreserves(Snapshot(), req, lookup);
      if !ValidSpyCatCreate(req) {
        return L.Failed(L.ValidationError);
      }
      if !L.ValidateCatBreed(req.breed, lookup) {
        return L.Failed(L.InvalidBreed);
      }
      var id := nextCatId;
      cats := cats[id := SpyCat(req.name, req.yearsOfExperience, req.breed, req.salary)];
      nextCatId := nextCatId + 1;
      reply := L.Created(id);
    }

    method UpdateSpyCat(cid: int, req: SpyCatUpdate) returns (reply: L.Reply)
      requires Valid()
      modifies this
      ensures Valid()
      ensures L.Step(Snapshot(), reply) == L.UpdateSpyCat(old(Snapshot()), cid, req)
    {
      UpdateSpyCatPreserves(Snapshot(), cid, req);
      if !ValidSpyCatUpdate(req) {
        return L.Failed(L.ValidationError);
      }
      if cid !in cats {
        return L.Failed(L.NotFound(L.SpyCatEntity));
      }
      cats := cats[cid := cats[cid].(salary := req.salary)];
      reply := L.Done;
    }

    method DeleteSpyCat(cid: int) returns (reply: L.Reply)
      requires Valid()
      modifies this
      ensures Valid()
      ensures L.Step(Snapshot(), reply) == L.DeleteSpyCat(old(Snapshot()), cid)
    {
      DeleteSpyCatPreserves(Snapshot(), cid);
      if cid !in cats {
        return L.Failed(L.NotFound(L.SpyCatEntity));
      }
      cats := cats - {cid};
      reply := L.Done;
    }

    /** Inserts the mission, then its targets. */
    method CreateMission(req: MissionCreate) returns (reply: L.Reply)
      requires Valid()
      modifies this
      ensures Valid()
      ensures L.Step(Snapshot(), reply) == L.CreateMission(old(Snapshot()), req)
    {
      ghost var pre := Snapshot();
      if !ValidMissionCreate(req) {
        return L.Failed(L.ValidationError);
      }
      var mid := nextMissionId;
      missions := missions[mid := NewMission()];
      nextMissionId := mid + 1;
      InsertTargets(mid, req.targets);
      reply := L.Created(mid);
      assert Snapshot() == L.CreateMission(pre, req).db;
      assert Valid() by {
        CreateMissionPreserves(pre, req);
      }
    }

    /** Adds one target row of mission `mid` per request, in request order, with consecutive ids. */
    method InsertTargets(mid: int, reqs: seq<TargetCreate>)
      modifies this`targets, this`nextTargetId
      ensures targets == old(targets) + L.NewTargets(mid, reqs, old(nextTargetId))
      ensures nextTargetId == old(nextTargetId) + |reqs|
    {
      ghost var first := nextTargetId;
      ghost var before := targets;
      var i := 0;
      while i < |reqs|
        invariant 0 <= i <= |reqs|
        invariant nextTargetId == first + i
        invariant targets == before + L.NewTargets(mid, reqs[..i], first)
      {
        var row := L.NewTarget(mid, reqs[i]);
        NewTargetsExtend(before, mid, reqs, first, i);
        ghost var cur := targets;
        assert cur[first + i := row] == before + L.NewTargets(mid, reqs[..i + 1], first);
        targets := targets[nextTargetId := row];
        nextTargetId := nextTargetId + 1;
        i := i + 1;
      }
      assert reqs[..i] == reqs;
    }

    method DeleteMission(mid: int) returns (reply: L.Reply)
      requires Valid()
      modifies this
      ensures Valid()
      ensures L.Step(Snapshot(), reply) == L.DeleteMission(old(Snapshot()), mid)
    {
      DeleteMissionPreserves(Snapshot(), mid);
      if mid !in missions {
        return L.Failed(L.NotFound(L.MissionEntity));
      }
      if L.Truthy(missions[mid].catId) {
        return L.Failed(L.AssignedUndeletable);
      }
      missions := missions - {mid};
      targets := map t | t in targets && targets[t].missionId != mid :: targets[t];
      reply := L.Done;
    }

    method AssignMission(mid: int, cid: int) returns (reply: L.Reply)
      requires Valid()
      modifies this
      ensures Valid()
      ensures L.Step(Snapshot(), reply) == L.AssignMission(old(Snapshot()), mid, cid)
    {
      AssignMissionPreserves(Snapshot(), mid, cid);
      if mid !in missions {
        return L.Failed(L.NotFound(L.MissionEntity));
      }
      if cid !in cats {
        return L.Failed(L.NotFound(L.SpyCatEntity));
      }
      if L.Truthy(missions[mid].catId) {
        return L.Failed(L.AlreadyAssigned);
      }
      if !L.IsCatAvailable(missions, cid) {
        return L.Failed(L.CatUnavailable);
      }
      missions := missions[mid := missions[mid].(catId := Some(cid))];
      reply := L.Done;
    }

    method UpdateTargetNotes(mid: int, tid: int, req: TargetNotesUpdate) returns (reply: L.Reply)
      requires Valid()
      modifies this
      ensures Valid()
      ensures L.Step(Snapshot(), reply) == L.UpdateTargetNotes(old(Snapshot()), mid, tid, req)
    {
      UpdateTargetNotesPreserves(Snapshot(), mid, tid, req);
      if mid !in missions {
        return L.Failed(L.NotFound(L.MissionEntity));
      }
      if !L.BelongsTo(targets, tid, mid) {
        return L.Failed(L.NotFound(L.TargetEntity));
      }
      if targets[tid].complete {
        return L.Failed(L.Locked(L.TargetEntity));
      }
      if missions[mid].complete {
        return L.Failed(L.Locked(L.MissionEntity));
      }
      targets := targets[tid := targets[tid].(notes := req.notes)];
      reply := L.Done;
    }

    /** Marks the target complete, then re-derives the mission's flag from its targets. */
    method CompleteTarget(mid: int, tid: int) returns (reply: L.Reply)
      requires Valid()
      modifies this
      ensures Valid()
      ensures L.Step(Snapshot(), reply) == L.CompleteTarget(old(Snapshot()), mid, tid)
    {
      CompleteTargetPreserves(Snapshot(), mid, tid);
      if mid !in missions {
        return L.Failed(L.NotFound(L.MissionEntity));
      }
      if !L.BelongsTo(targets, tid, mid) {
        return L.Failed(L.NotFound(L.TargetEntity));
      }
      targets := targets[tid := targets[tid].(complete := true)];
      if L.CheckMissionCompletion(targets, mid) {
        missions := missions[mid := missions[mid].(complete := true)];
      }
      reply := L.Done;
    }
  }
}
