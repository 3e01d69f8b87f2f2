/**
 * One concrete run of the service, request by request, from an empty store: a cat
 * is hired, two missions are created, the cat is assigned to the first and refused
 * the second, the first mission is completed target by target, its notes lock, and
 * the cat can then take the second mission.
 */
module Scenario {
  import opened Wrappers
  import opened ApiModels
  import opened DatabaseModels
  import opened Lifecycle

  /** The catalog check compares lower-cased names: "persian" matches "Persian". */
  lemma BreedMatchIgnoresCase()
    ensures ValidateCatBreed("persian", Response(200, Some(["Bengal", "Persian"])))
  {
    var names := ["Bengal", "Persian"];
    assert Lower(names[1]) == Lower("persian") by {
      assert forall i :: 0 <= i < 7 ==> LowerChar(names[1][i]) == LowerChar("persian"[i]);
    }
  }

  /** A breed the catalog does not list is rejected. */
  lemma UnknownBreedRejected()
    ensures !ValidateCatBreed("sphynx", Response(200, Some(["Bengal", "Persian"])))
  {
    var names := ["Bengal", "Persian"];
    assert Lower(names[0])[0] == 'b' && Lower(names[1])[0] == 'p' && Lower("sphynx")[0] == 's';
  }

  function Whiskers(): SpyCatCreate { SpyCatCreate("Whiskers", 3, "Persian", 1000.0) }
  function Catalog(): BreedLookup { Response(200, Some(["Bengal", "Persian"])) }
  function FirstMission(): MissionCreate { MissionCreate([TargetCreate("T1", "US", None), TargetCreate("T2", "FR", None)]) }
  function SecondMission(): MissionCreate { MissionCreate([TargetCreate("T3", "DE", Some("dossier"))]) }

  function T1(done: bool): Target { Target(1, "T1", "US", "", done) }
  function T2(done: bool): Target { Target(1, "T2", "FR", "", done) }
  function T3(): Target { Target(2, "T3", "DE", "dossier", false) }

  /** The store after each request of the run. */
  function AfterHire(): Db {
    Db(map[1 := SpyCat("Whiskers", 3, "Persian", 1000.0)], map[], map[], 2, 1, 1)
  }
  function AfterFirstMission(): Db {
    AfterHire().(missions := map[1 := Mission(None, false)], targets := map[1 := T1(false), 2 := T2(false)],
                 nextMissionId := 2, nextTargetId := 3)
  }
  function AfterAssign(): Db {
    AfterFirstMission().(missions := map[1 := Mission(Some(1), false)])
  }
  function AfterSecondMission(): Db {
    AfterAssign().(missions := map[1 := Mission(Some(1), false), 2 := Mission(None, false)],
                   targets := map[1 := T1(false), 2 := T2(false), 3 := T3()],
                   nextMissionId := 3, nextTargetId := 4)
  }
  function AfterFirstTarget(): Db {
    AfterSecondMission().(targets := map[1 := T1(true), 2 := T2(false), 3 := T3()])
  }
  function AfterSecondTarget(): Db {
    AfterSecondMission().(missions := map[1 := Mission(Some(1), true), 2 := Mission(None, false)],
                          targets := map[1 := T1(true), 2 := T2(true), 3 := T3()])
  }
  function AfterReassign(): Db {
    AfterSecondTarget().(missions := map[1 := Mission(Some(1), true), 2 := Mission(Some(1), false)])
  }

  lemma HireStep()
    ensures CreateSpyCat(EmptyDb(), Whiskers(), Catalog()) == Step(AfterHire(), Created(1))
  {
    assert Lower(Catalog().names.value[1]) == Lower("Persian");
  }

  lemma FirstMissionStep()
    ensures CreateMission(AfterHire(), FirstMission()) == Step(AfterFirstMission(), Created(1))
  {
    var added := NewTargets(1, FirstMission().targets, 1);
    assert added.Keys == {1, 2};
    assert added == map[1 := T1(false), 2 := T2(false)] by {
      assert added[1] == NewTarget(1, FirstMission().targets[0]);
      assert added[2] == NewTarget(1, FirstMission().targets[1]);
    }
  }

  lemma AssignStep()
    ensures AssignMission(AfterFirstMission(), 1, 1) == Step(AfterAssign(), Done)
  {
    assert IsCatAvailable(AfterFirstMission().missions, 1);
  }

  lemma SecondMissionStep()
    ensures CreateMission(AfterAssign(), SecondMission()) == Step(AfterSecondMission(), Created(2))
  {
    var added := NewTargets(2, SecondMission().targets, 3);
    assert added.Keys == {3};
    assert added == map[3 := T3()] by {
      assert added[3] == NewTarget(2, SecondMission().targets[0]);
    }
  }

  /** The cat already has an incomplete mission, so the second assignment is refused. */
  lemma BusyCatStep()
    ensures AssignMission(AfterSecondMission(), 2, 1) == Step(AfterSecondMission(), Failed(CatUnavailable))
  {
    assert AfterSecondMission().missions[1].catId == Some(1);
  }

  /** One of two targets done: the mission stays incomplete. */
  lemma FirstTargetStep()
    ensures CompleteTarget(AfterSecondMission(), 1, 1) == Step(AfterFirstTarget(), Done)
  {
    var targets := AfterFirstTarget().targets;
    assert !CheckMissionCompletion(targets, 1) by {
      assert targets[2].missionId == 1 && !targets[2].complete;
    }
    assert AfterSecondMission().targets[1 := T1(true)] == targets;
  }

  /** The last target done: the mission completes. */
  lemma SecondTargetStep()
    ensures CompleteTarget(AfterFirstTarget(), 1, 2) == Step(AfterSecondTarget(), Done)
  {
    var targets := AfterSecondTarget().targets;
    assert CheckMissionCompletion(targets, 1);
    assert AfterFirstTarget().targets[2 := T2(true)] == targets;
  }

  /** Notes of a completed target are locked. */
  lemma LockedNotesStep()
    ensures UpdateTargetNotes(AfterSecondTarget(), 1, 1, TargetNotesUpdate("too late"))
         == Step(AfterSecondTarget(), Failed(Locked(TargetEntity)))
  {
  }

  /** With its mission complete the cat is available again. */
  lemma ReassignStep()
    ensures AssignMission(AfterSecondTarget(), 2, 1) == Step(AfterReassign(), Done)
  {
    assert IsCatAvailable(AfterSecondTarget().missions, 1);
  }

  /** The whole run, request by request. */
  lemma HireAssignComplete()
    ensures
      var s1 := CreateSpyCat(EmptyDb(), Whiskers(), Catalog());
      var s2 := CreateMission(s1.db, FirstMission());
      var s3 := AssignMission(s2.db, 1, 1);
      var s4 := CreateMission(s3.db, SecondMission());
      var s5 := AssignMission(s4.db, 2, 1);
      var s6 := CompleteTarget(s5.db, 1, 1);
      var s7 := CompleteTarget(s6.db, 1, 2);
      var s8 := UpdateTargetNotes(s7.db, 1, 1, TargetNotesUpdate("too late"));
      var s9 := AssignMission(s8.db, 2, 1);
      && s1.reply == Created(1)
      && s2.reply == Created(1) && !s2.db.missions[1].complete
      && s3.reply == Done
      && s4.reply == Created(2)
      && s5.reply == Failed(CatUnavailable)
      && s6.reply == Done && !s6.db.missions[1].complete
      && s7.reply == Done && s7.db.missions[1].complete
      && s8.reply == Failed(Locked(TargetEntity))
      && s9.reply == Done
  {
    HireStep();
    FirstMissionStep();
    AssignStep();
    SecondMissionStep();
    BusyCatStep();
    FirstTargetStep();
    SecondTargetStep();
    LockedNotesStep();
    ReassignStep();
  }
}
