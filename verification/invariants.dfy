/**
 * The invariants the handlers of main.py keep on the store, and the lemmas that
 * every handler preserves them. `Wf` is the state invariant; `Evolves` relates a
 * store to its successor and says what no request can undo.
 */
module Invariants {
  import opened Wrappers
  import opened ApiModels
  import opened DatabaseModels
  import opened Lifecycle

  /** Every mission owns between one and three targets. */
  predicate TargetCounts(db: Db) {
    forall m :: m in db.missions ==> 1 <= |TargetsOf(db.targets, m)| <= 3
  }

  /** A mission is complete exactly when all of its targets are. */
  predicate CompletionDerived(db: Db) {
    forall m :: m in db.missions ==> (db.missions[m].complete <==> CheckMissionCompletion(db.targets, m))
  }

  /** No cat is the assignee of two different incomplete missions. */
  predicate OneActiveMissionPerCat(missions: map<int, Mission>) {
    forall m1, m2 ::
      && m1 in missions && m2 in missions
      && missions[m1].catId.Some? && missions[m1].catId == missions[m2].catId
      && !missions[m1].complete && !missions[m2].complete
      ==> m1 == m2
  }

  predicate Wf(db: Db) {
    && Integrity(db)
    && TargetCounts(db)
    && CompletionDerived(db)
    && OneActiveMissionPerCat(db.missions)
  }

  /** The notes of target `t` are frozen: it, or its mission, is complete. */
  predicate NotesLocked(db: Db, t: int)
    requires t in db.targets
  {
    var mid := db.targets[t].missionId;
    db.targets[t].complete || (mid in db.missions && db.missions[mid].complete)
  }

  /**
   * What no request undoes: ids are never reused, a mission that survives keeps its
   * targets, its cat and its completion, and a target that survives keeps its
   * mission, name, country and completion, and its notes once they are locked.
   */
  predicate Evolves(db: Db, db': Db) {
    && db.nextCatId <= db'.nextCatId
    && db.nextMissionId <= db'.nextMissionId
    && db.nextTargetId <= db'.nextTargetId
    && (forall m :: m in db.missions && m in db'.missions ==>
          && (db.missions[m].complete ==> db'.missions[m].complete)
          && (db.missions[m].catId.Some? ==> db'.missions[m].catId == db.missions[m].catId)
          && TargetsOf(db'.targets, m) == TargetsOf(db.targets, m))
    && (forall t :: t in db.targets && t in db'.targets ==>
          && db'.targets[t].missionId == db.targets[t].missionId
          && db'.targets[t].name == db.targets[t].name
          && db'.targets[t].country == db.targets[t].country
          && (db.targets[t].complete ==> db'.targets[t].complete)
          && (NotesLocked(db, t) ==> db'.targets[t].notes == db.targets[t].notes))
  }

  lemma EmptyDbWf()
    ensures Wf(EmptyDb()) && CatRefsLive(EmptyDb())
  {
  }

  /** The ids from `lo` on and below `lo + n`. */
  function IdRange(lo: int, n: nat): (ids: set<int>)
    ensures |ids| == n
    ensures forall t :: t in ids <==> lo <= t < lo + n
  {
    if n == 0 then {} else IdRange(lo, n - 1) + {lo + n - 1}
  }

  /**
   * Two target tables that agree on which rows belong to mission `m` and on their
   * completion give `m` the same targets and the same completion verdict.
   */
  lemma SameTargetsOf(before: map<int, Target>, after: map<int, Target>, m: int)
    requires forall t :: t in after && after[t].missionId == m <==> t in before && before[t].missionId == m
    requires forall t :: t in after && after[t].missionId == m ==> after[t].complete == before[t].complete
    ensures TargetsOf(after, m) == TargetsOf(before, m)
    ensures CheckMissionCompletion(after, m) == CheckMissionCompletion(before, m)
  {
    forall t ensures t in TargetsOf(after, m) <==> t in TargetsOf(before, m) {
    }
  }

  /** Under `Integrity`, the truthiness test on `cat_id` is the same as "has a cat". */
  lemma TruthyIsAssigned(db: Db, mid: int)
    requires Integrity(db) && mid in db.missions
    ensures Truthy(db.missions[mid].catId) <==> db.missions[mid].catId.Some?
  {
  }

  // ---------------------------------------------------------------------------
  // Every handler preserves the invariants
  // ---------------------------------------------------------------------------

  lemma CreateSpyCatPreserves(db: Db, req: SpyCatCreate, lookup: BreedLookup)
    requires Wf(db)
    ensures var r := CreateSpyCat(db, req, lookup);
      && Wf(r.db) && Evolves(db, r.db)
      && (CatRefsLive(db) ==> CatRefsLive(r.db))
      && (r.reply.Created? ==> r.reply.id !in db.cats && r.reply.id > 0)
      && (r.reply.Created? ==> forall m :: m in db.missions ==> db.missions[m].catId != Some(r.reply.id))
  {
  }

  lemma UpdateSpyCatPreserves(db: Db, cid: int, req: SpyCatUpdate)
    requires Wf(db)
    ensures var r := UpdateSpyCat(db, cid, req);
      Wf(r.db) && Evolves(db, r.db) && (CatRefsLive(db) ==> CatRefsLive(r.db))
  {
  }

  /**
   * Deleting a cat keeps every mission, assigned or not, and the invariant; a
   * mission may be left pointing at the deleted cat, so `CatRefsLive` survives
   * only when no mission referred to it.
   */
  lemma DeleteSpyCatPreserves(db: Db, cid: int)
    requires Wf(db)
    ensures var r := DeleteSpyCat(db, cid);
      && Wf(r.db) && Evolves(db, r.db)
      && r.db.missions == db.missions
      && (CatRefsLive(db) && (forall m :: m in db.missions ==> db.missions[m].catId != Some(cid))
          ==> CatRefsLive(r.db))
  {
  }

  /**
   * A new mission gets exactly the fresh ids of its targets, none of them complete
   * (so the mission is not complete either);
   * the targets and completion verdicts of the existing missions do not move.
   */
  lemma CreateMissionTargets(db: Db, req: MissionCreate)
    requires Integrity(db) && ValidMissionCreate(req)
    ensures var r := CreateMission(db, req);
      && TargetsOf(r.db.targets, db.nextMissionId) == IdRange(db.nextTargetId, |req.targets|)
      && !CheckMissionCompletion(r.db.targets, db.nextMissionId)
      && (forall t :: t in TargetsOf(r.db.targets, db.nextMissionId) ==> !r.db.targets[t].complete)
      && forall m :: m in db.missions ==>
           && TargetsOf(r.db.targets, m) == TargetsOf(db.targets, m)
           && CheckMissionCompletion(r.db.targets, m) == CheckMissionCompletion(db.targets, m)
  {
    var r := CreateMission(db, req);
    var mid := db.nextMissionId;
    var first := db.nextTargetId;
    var added := NewTargets(mid, req.targets, first);
    forall t ensures t in TargetsOf(r.db.targets, mid) <==> t in IdRange(first, |req.targets|) {
      if t in db.targets {
        assert db.targets[t].missionId in db.missions;
      }
    }
    forall m | m in db.missions
      ensures TargetsOf(r.db.targets, m) == TargetsOf(db.targets, m)
      ensures CheckMissionCompletion(r.db.targets, m) == CheckMissionCompletion(db.targets, m)
    {
      SameTargetsOf(db.targets, r.db.targets, m);
    }
    assert r.db.targets[first] == added[first];
  }

  lemma CreateMissionPreserves(db: Db, req: MissionCreate)
    requires Wf(db)
    ensures var r := CreateMission(db, req);
      Wf(r.db) && Evolves(db, r.db) && (CatRefsLive(db) ==> CatRefsLive(r.db))
  {
    var r := CreateMission(db, req);
    if ValidMissionCreate(req) {
      var mid := db.nextMissionId;
      CreateMissionTargets(db, req);
      assert Integrity(r.db);
      assert TargetCounts(r.db) by {
        forall m | m in r.db.missions ensures 1 <= |TargetsOf(r.db.targets, m)| <= 3 {
          if m != mid {
            assert m in db.missions;
          }
        }
      }
      assert CompletionDerived(r.db) by {
        forall m | m in r.db.missions
          ensures r.db.missions[m].complete <==> CheckMissionCompletion(r.db.targets, m)
        {
          if m != mid {
            assert m in db.missions;
          }
        }
      }
      assert OneActiveMissionPerCat(r.db.missions);
      assert Evolves(db, r.db) by {
        forall t | t in db.targets && t in r.db.targets ensures r.db.targets[t] == db.targets[t] {
          assert t < db.nextTargetId;
        }
      }
    }
  }

  lemma DeleteMissionPreserves(db: Db, mid: int)
    requires Wf(db)
    ensures var r := DeleteMission(db, mid);
      Wf(r.db) && Evolves(db, r.db) && (CatRefsLive(db) ==> CatRefsLive(r.db))
  {
    var r := DeleteMission(db, mid);
    if r.reply == Done {
      forall m | m in r.db.missions
        ensures TargetsOf(r.db.targets, m) == TargetsOf(db.targets, m)
        ensures CheckMissionCompletion(r.db.targets, m) == CheckMissionCompletion(db.targets, m)
      {
        SameTargetsOf(db.targets, r.db.targets, m);
      }
    }
  }

  lemma AssignMissionPreserves(db: Db, mid: int, cid: int)
    requires Wf(db)
    ensures var r := AssignMission(db, mid, cid);
      Wf(r.db) && Evolves(db, r.db) && (CatRefsLive(db) ==> CatRefsLive(r.db))
  {
    var r := AssignMission(db, mid, cid);
    if r.reply == Done {
      var ms := r.db.missions;
      forall m1, m2 |
        && m1 in ms && m2 in ms
        && ms[m1].catId.Some? && ms[m1].catId == ms[m2].catId
        && !ms[m1].complete && !ms[m2].complete
        ensures m1 == m2
      {
        if m1 != mid && m2 != mid {
          assert db.missions[m1] == ms[m1] && db.missions[m2] == ms[m2];
        }
      }
    }
  }

  lemma UpdateTargetNotesPreserves(db: Db, mid: int, tid: int, req: TargetNotesUpdate)
    requires Wf(db)
    ensures var r := UpdateTargetNotes(db, mid, tid, req);
      Wf(r.db) && Evolves(db, r.db) && (CatRefsLive(db) ==> CatRefsLive(r.db))
  {
    var r := UpdateTargetNotes(db, mid, tid, req);
    if r.reply == Done {
      forall m | m in db.missions
        ensures TargetsOf(r.db.targets, m) == TargetsOf(db.targets, m)
        ensures CheckMissionCompletion(r.db.targets, m) == CheckMissionCompletion(db.targets, m)
      {
        SameTargetsOf(db.targets, r.db.targets, m);
      }
    }
  }

  lemma CompleteTargetPreserves(db: Db, mid: int, tid: int)
    requires Wf(db)
    ensures var r := CompleteTarget(db, mid, tid);
      Wf(r.db) && Evolves(db, r.db) && (CatRefsLive(db) ==> CatRefsLive(r.db))
  {
    var r := CompleteTarget(db, mid, tid);
    if r.reply == Done {
      forall m | m in db.missions
        ensures TargetsOf(r.db.targets, m) == TargetsOf(db.targets, m)
        ensures m != mid ==> CheckMissionCompletion(r.db.targets, m) == CheckMissionCompletion(db.targets, m)
      {
        if m != mid {
          SameTargetsOf(db.targets, r.db.targets, m);
        }
      }
      assert db.missions[mid].complete ==> CheckMissionCompletion(r.db.targets, mid);
    }
  }

  // ---------------------------------------------------------------------------
  // Properties of single handlers that rely on the invariants
  // ---------------------------------------------------------------------------

  /**
   * A created mission has a fresh id, no cat, is incomplete, and owns as many targets
   * as were requested; no row that existed before changes.
   */
  lemma CreateMissionResult(db: Db, req: MissionCreate)
    requires Integrity(db) && ValidMissionCreate(req)
    ensures var r := CreateMission(db, req);
      && r.reply.Created? && r.reply.id !in db.missions && r.reply.id > 0
      && r.db.missions[r.reply.id].catId == None && !r.db.missions[r.reply.id].complete
      && |TargetsOf(r.db.targets, r.reply.id)| == |req.targets|
      && (forall m :: m in db.missions ==> m in r.db.missions && r.db.missions[m] == db.missions[m])
      && (forall t :: t in db.targets ==> t in r.db.targets && r.db.targets[t] == db.targets[t])
      && r.db.cats == db.cats
  {
    var r := CreateMission(db, req);
    CreateMissionTargets(db, req);
    forall t | t in db.targets ensures t in r.db.targets && r.db.targets[t] == db.targets[t] {
      assert t < db.nextTargetId;
    }
  }

  /**
   * The i-th requested target becomes a new row of the new mission, with a fresh id
   * that grows with i, the requested name and country, and not complete.
   */
  lemma CreateMissionTargetsInOrder(db: Db, req: MissionCreate, i: int)
    requires Integrity(db) && ValidMissionCreate(req) && 0 <= i < |req.targets|
    ensures var r := CreateMission(db, req);
      && db.nextTargetId + i !in db.targets
      && db.nextTargetId + i in TargetsOf(r.db.targets, r.reply.id)
      && r.db.targets[db.nextTargetId + i] == NewTarget(r.reply.id, req.targets[i])
  {
    CreateMissionTargets(db, req);
    assert db.nextTargetId + i in IdRange(db.nextTargetId, |req.targets|);
  }

  /** Under the invariant, delete mission is refused exactly when the mission has a cat. */
  lemma DeleteMissionGuard(db: Db, mid: int)
    requires Wf(db) && mid in db.missions
    ensures var r := DeleteMission(db, mid);
      && (r.reply == Failed(AssignedUndeletable) <==> db.missions[mid].catId.Some?)
      && (r.reply == Done ==> mid !in r.db.missions && TargetsOf(r.db.targets, mid) == {})
  {
    TruthyIsAssigned(db, mid);
  }

  /**
   * After a successful complete-target request the target is complete and its
   * mission's flag says whether all of the mission's targets are.
   */
  lemma CompleteTargetSettlesMission(db: Db, mid: int, tid: int)
    requires Wf(db)
    ensures var r := CompleteTarget(db, mid, tid);
      r.reply == Done ==>
        && r.db.targets[tid].complete
        && (r.db.missions[mid].complete <==> CheckMissionCompletion(r.db.targets, mid))
  {
    CompleteTargetPreserves(db, mid, tid);
  }

  /** Completing a target that is already complete succeeds and changes nothing. */
  lemma CompleteTargetIdempotent(db: Db, mid: int, tid: int)
    requires Wf(db) && mid in db.missions && BelongsTo(db.targets, tid, mid) && db.targets[tid].complete
    ensures CompleteTarget(db, mid, tid) == Step(db, Done)
  {
    var r := CompleteTarget(db, mid, tid);
    assert r.db.targets == db.targets by {
      assert db.targets[tid].(complete := true) == db.targets[tid];
    }
    if CheckMissionCompletion(r.db.targets, mid) {
      assert db.missions[mid].complete;
      assert db.missions[mid].(complete := true) == db.missions[mid];
    }
    assert r.db.missions == db.missions;
  }

  /**
   * When a target completion finishes a mission, the mission's cat becomes available
   * again: it had no other incomplete mission.
   */
  lemma CompletingMissionFreesCat(db: Db, mid: int, tid: int, cid: int)
    requires Wf(db) && mid in db.missions && db.missions[mid].catId == Some(cid) && !db.missions[mid].complete
    requires CompleteTarget(db, mid, tid).reply == Done
    requires CompleteTarget(db, mid, tid).db.missions[mid].complete
    ensures IsCatAvailable(CompleteTarget(db, mid, tid).db.missions, cid)
  {
  }

  /**
   * Once a cat has been assigned an incomplete mission, assigning it a second,
   * unassigned mission is refused as `CatUnavailable`.
   */
  lemma SecondAssignRefused(db: Db, m1: int, m2: int, cid: int)
    requires Wf(db) && AssignMission(db, m1, cid).reply == Done && !db.missions[m1].complete
    requires m2 in db.missions && m2 != m1 && db.missions[m2].catId == None
    ensures var db' := AssignMission(db, m1, cid).db;
      AssignMission(db', m2, cid) == Step(db', Failed(CatUnavailable))
  {
    var db' := AssignMission(db, m1, cid).db;
    assert db'.missions[m1].catId == Some(cid) && !db'.missions[m1].complete;
    assert !IsCatAvailable(db'.missions, cid);
  }
}
