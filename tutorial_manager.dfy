/** The guided tutorials: a fixed catalogue of tutorials, each a sequence of
    steps that may name the operation which completes it, and a navigator
    object that remembers the active tutorial, the step within it and the
    tutorials finished so far. The prose of each step (titles, explanations,
    tasks, suggested configurations) is not modelled. */
module Tutorials {
  import opened EngineTypes

  /** The operation a step waits for: its type, and optionally the size of an
      allocation or the address of an access. */
  datatype Expected = Expected(kind: string, size: Option<int>, address: Option<int>)

  /** One step; `expected` is None for a step that any operation completes. */
  datatype Step = Step(expected: Option<Expected>)

  datatype Tutorial = Tutorial(id: string, steps: seq<Step>)

  /** What the front end reports about an operation the user just performed;
      every key is optional. */
  datatype OperationData = OperationData(kind: Option<string>, size: Option<int>, address: Option<int>)

  datatype TutorialError = UnknownTutorial | NoActiveTutorial | AtFirstStep

  /** What `get_current_step` reports about the active step. */
  datatype StepInfo = StepInfo(
    tutorialId: string, stepIndex: nat, totalSteps: nat, step: Step,
    isLastStep: bool, isFirstStep: bool)

  /** The replies of the navigator's operations. */
  datatype Reply =
    | Shown(info: StepInfo)
    | Completed(tutorialId: string)
    | Ended(tutorialId: string)
    | Failed(error: TutorialError)

  /** One entry of `get_tutorial_list`. */
  datatype Listing = Listing(id: string, completed: bool)

  function NoOp(): Step { Step(None) }

  function Alloc(size: int): Step { Step(Some(Expected("allocate", Some(size), None))) }

  function Access(address: int): Step { Step(Some(Expected("access", None, Some(address)))) }

  function Dealloc(): Step { Step(Some(Expected("deallocate", None, None))) }

  /** The tutorials table, in its insertion order, reduced to the expected
      operation of each step. */
  function Catalogue(): seq<Tutorial> {
    [ Tutorial("intro", [NoOp(), Alloc(128), Access(64), Dealloc(), NoOp()]),
      Tutorial("fragmentation",
               [NoOp(), Alloc(256), Alloc(128), Dealloc(), Alloc(192), Alloc(60), NoOp()]),
      Tutorial("page_replacement",
               [NoOp(), Alloc(512), Alloc(128), Step(Some(Expected("reset", None, None))),
                Alloc(256), Alloc(384), NoOp()]),
      Tutorial("optimization",
               [NoOp(), Alloc(60), Alloc(64), Access(0), Dealloc(),
                Step(Some(Expected("allocate", None, None))), NoOp()]) ]
  }

  /** The ids of a catalogue, in order. */
  function Ids(ts: seq<Tutorial>): (r: seq<string>)
    ensures |r| == |ts| && forall i :: 0 <= i < |ts| ==> r[i] == ts[i].id
  {
    if ts == [] then [] else [ts[0].id] + Ids(ts[1..])
  }

  /** Every catalogue tutorial has at least one step, and no id occurs twice. */
  ghost predicate WellFormed(ts: seq<Tutorial>) {
    && (forall i :: 0 <= i < |ts| ==> ts[i].steps != [])
    && (forall i, j :: 0 <= i < j < |ts| ==> ts[i].id != ts[j].id)
  }

  /** The catalogue is well formed and has four tutorials with 5, 7, 7 and
      7 steps. */
  lemma CatalogueWellFormed()
    ensures WellFormed(Catalogue())
    ensures |Catalogue()| == 4
    ensures |Catalogue()[0].steps| == 5 && |Catalogue()[1].steps| == 7
    ensures |Catalogue()[2].steps| == 7 && |Catalogue()[3].steps| == 7
  {
    var ts := Catalogue();
    assert ts[0].id[0] == 'i' && ts[1].id[0] == 'f' && ts[2].id[0] == 'p' && ts[3].id[0] == 'o';
  }

  /** The catalogue's ids, in table order. */
  lemma CatalogueIds()
    ensures Ids(Catalogue()) == ["intro", "fragmentation", "page_replacement", "optimization"]
  {
  }

  /** `self.tutorials[tutorial_id]`: the tutorial with that id, if there is one. */
  function Find(ts: seq<Tutorial>, id: string): (r: Option<Tutorial>)
    ensures r.None? <==> id !in Ids(ts)
    ensures r.Some? ==> r.value in ts && r.value.id == id
  {
    if ts == [] then None
    else if ts[0].id == id then Some(ts[0])
    else Find(ts[1..], id)
  }

  /** The first-listed tutorial found under an id is the one at its position,
      because ids are distinct. */
  lemma {:induction false} FindAt(ts: seq<Tutorial>, i: nat)
    requires WellFormed(ts) && i < |ts|
    ensures Find(ts, ts[i].id) == Some(ts[i])
  {
    if i > 0 {
      assert ts[0].id != ts[i].id;
      assert WellFormed(ts[1..]) by {
        forall a, b | 0 <= a < b < |ts| - 1 ensures ts[1..][a].id != ts[1..][b].id {
          assert ts[1..][a] == ts[a + 1] && ts[1..][b] == ts[b + 1];
        }
      }
      FindAt(ts[1..], i - 1);
    }
  }

  /** `operation_data.get(key, default)`. */
  function GetOr(v: Option<int>, default: int): int {
    if v.Some? then v.value else default
  }

  /** The matching rule of `verify_step_completed` for the active step,
      branch by branch in the source's order. Stated declaratively, a step is
      completed when it expects nothing; a reset step accepts exactly a reset;
      otherwise the types must agree and either an allocation has the expected
      size (a missing size counts as 0), an access has the expected address (a
      missing address counts as -1), or the step expects a deallocation. An
      expected allocation or access that names no size or address accepts
      nothing, and neither does any other type. */
  function StepCompleted(step: Step, op: OperationData): (r: bool)
    ensures step.expected.None? ==> r
    ensures step.expected.Some? && step.expected.value.kind == "reset" ==>
              (r <==> op.kind == Some("reset"))
    ensures step.expected.Some? && step.expected.value.kind != "reset" ==>
              var e := step.expected.value;
              (r <==> op.kind == Some(e.kind) &&
                      ((e.kind == "allocate" && e.size.Some? && GetOr(op.size, 0) == e.size.value) ||
                       (e.kind == "access" && e.address.Some? && GetOr(op.address, -1) == e.address.value) ||
                       e.kind == "deallocate"))
  {
    if step.expected.None? then true
    else
      var e := step.expected.value;
      if e.kind == "reset" then op.kind == Some("reset")
      else if op.kind != Some(e.kind) then false
      else if e.kind == "allocate" && e.size.Some? then GetOr(op.size, 0) == e.size.value
      else if e.kind == "access" && e.address.Some? then GetOr(op.address, -1) == e.address.value
      else if e.kind == "deallocate" then true
      else false
  }

  /** The "Optimization Challenge" step asks for an allocation without naming a
      size, so no operation ever completes it. */
  lemma ChallengeStepNeverCompleted(op: OperationData)
    ensures Catalogue()[3].id == "optimization" && |Catalogue()[3].steps| == 7
    ensures !StepCompleted(Catalogue()[3].steps[5], op)
  {
    var e := Catalogue()[3].steps[5].expected.value;
    assert e.kind == "allocate" && e.size.None?;
    assert e.kind != "access" && e.kind != "deallocate" && e.kind != "reset" by {
      assert e.kind[1] == 'l' && "access"[1] == 'c' && "deallocate"[1] == 'e' && "reset"[1] == 'e';
    }
  }

  /** Each step of the catalogue that names an expected allocation size or
      access address is completed by exactly that operation. */
  lemma NamedStepCompletedByItsOperation(t: nat, i: nat)
    requires t < |Catalogue()| && i < |Catalogue()[t].steps|
    requires Catalogue()[t].steps[i].expected.Some?
    ensures var e := Catalogue()[t].steps[i].expected.value;
            e.kind == "allocate" && e.size.Some? ==>
              StepCompleted(Catalogue()[t].steps[i], OperationData(Some("allocate"), e.size, None))
    ensures var e := Catalogue()[t].steps[i].expected.value;
            e.kind == "access" && e.address.Some? ==>
              StepCompleted(Catalogue()[t].steps[i], OperationData(Some("access"), None, e.address))
  {
    var e := Catalogue()[t].steps[i].expected.value;
    if e.kind == "allocate" || e.kind == "access" {
      assert e.kind != "reset" by {
        assert e.kind[0] == 'a' && "reset"[0] == 'r';
      }
    }
  }

  class TutorialManager {
    /** The tutorials table, fixed at construction. */
    const tutorials: seq<Tutorial>
    var currentTutorial: Option<string>
    var currentStep: nat
    var completedTutorials: set<string>

    /** The table is well formed; the active tutorial, if any, is in the table
        and the step is one of its steps; with none active the step is 0; only
        known ids are completed. */
    ghost predicate Valid()
      reads this
    {
      && WellFormed(tutorials)
      && (currentTutorial.Some? ==>
            && Find(tutorials, currentTutorial.value).Some?
            && currentStep < |Find(tutorials, currentTutorial.value).value.steps|)
      && (currentTutorial.None? ==> currentStep == 0)
      && forall id :: id in completedTutorials ==> id in Ids(tutorials)
    }

    /** The number of steps of the active tutorial. */
    function StepCount(): (n: nat)
      requires Valid() && currentTutorial.Some?
      reads this
      ensures currentStep < n
      ensures n == |Find(tutorials, currentTutorial.value).value.steps|
    {
      |Find(tutorials, currentTutorial.value).value.steps|
    }

    /** `__init__`: no tutorial active, at step 0, nothing completed. */
    constructor ()
      ensures Valid() && tutorials == Catalogue()
      ensures currentTutorial == None && currentStep == 0 && completedTutorials == {}
    {
      tutorials := Catalogue();
      CatalogueWellFormed();
      currentTutorial := None;
      currentStep := 0;
      completedTutorials := {};
    }

    /** `get_current_step()`: the active tutorial's id, the step index, the
        number of steps, the step, and whether it is the first or the last;
        an error with no tutorial active. */
    function GetCurrentStep(): (r: Reply)
      requires Valid()
      reads this
      ensures r.Failed? <==> currentTutorial.None?
      ensures r.Failed? ==> r.error == NoActiveTutorial
      ensures !r.Failed? ==> r.Shown? && r.info.tutorialId == currentTutorial.value
      ensures r.Shown? ==>
                var steps := Find(tutorials, currentTutorial.value).value.steps;
                && r.info.stepIndex == currentStep < r.info.totalSteps == |steps|
                && r.info.step == steps[currentStep]
                && (r.info.isFirstStep <==> currentStep == 0)
                && (r.info.isLastStep <==> currentStep == |steps| - 1)
    {
      if currentTutorial.None? then Failed(NoActiveTutorial)
      else
        var steps := Find(tutorials, currentTutorial.value).value.steps;
        Shown(StepInfo(currentTutorial.value, currentStep, |steps|, steps[currentStep],
                       currentStep == |steps| - 1, currentStep == 0))
    }

    /** `start_tutorial(tutorial_id)`: an unknown id is an error and changes
        nothing; a known one becomes active at its first step. */
    method StartTutorial(id: string) returns (r: Reply)
      requires Valid()
      modifies this
      ensures Valid()
      ensures id !in Ids(tutorials) ==>
                r == Failed(UnknownTutorial) && currentTutorial == old(currentTutorial)
                && currentStep == old(currentStep)
      ensures id in Ids(tutorials) ==>
                currentTutorial == Some(id) && currentStep == 0 && r == GetCurrentStep()
                && r.Shown? && r.info.isFirstStep
      ensures completedTutorials == old(completedTutorials)
    {
      if Find(tutorials, id).None? {
        return Failed(UnknownTutorial);
      }
      currentTutorial := Some(id);
      currentStep := 0;
      r := GetCurrentStep();
    }

    /** `next_step()`: on the last step the tutorial is marked completed and
        the step stays; on any other step the step advances by one. */
    method NextStep() returns (r: Reply)
      requires Valid()
      modifies this
      ensures Valid()
      ensures currentTutorial == old(currentTutorial)
      ensures old(currentTutorial).None? ==>
                r == Failed(NoActiveTutorial) && currentStep == old(currentStep)
                && completedTutorials == old(completedTutorials)
      ensures old(currentTutorial).Some? && old(currentStep) == StepCount() - 1 ==>
                r == Completed(old(currentTutorial).value) && currentStep == old(currentStep)
                && completedTutorials == old(completedTutorials) + {old(currentTutorial).value}
      ensures old(currentTutorial).Some? && old(currentStep) < StepCount() - 1 ==>
                currentStep == old(currentStep) + 1 && r == GetCurrentStep()
                && completedTutorials == old(completedTutorials)
    {
      if currentTutorial.None? {
        return Failed(NoActiveTutorial);
      }
      var steps := Find(tutorials, currentTutorial.value).value.steps;
      if currentStep >= |steps| - 1 {
        completedTutorials := completedTutorials + {currentTutorial.value};
        return Completed(currentTutorial.value);
      }
      currentStep := currentStep + 1;
      r := GetCurrentStep();
    }

    /** `previous_step()`: at the first step an error and no change; otherwise
        the step goes back by one. */
    method PreviousStep() returns (r: Reply)
      requires Valid()
      modifies this
      ensures Valid()
      ensures currentTutorial == old(currentTutorial) && completedTutorials == old(completedTutorials)
      ensures old(currentTutorial).None? ==> r == Failed(NoActiveTutorial) && currentStep == old(currentStep)
      ensures old(currentTutorial).Some? && old(currentStep) == 0 ==>
                r == Failed(AtFirstStep) && currentStep == 0
      ensures old(currentTutorial).Some? && old(currentStep) > 0 ==>
                currentStep == old(currentStep) - 1 && r == GetCurrentStep()
    {
      if currentTutorial.None? {
        return Failed(NoActiveTutorial);
      }
      if currentStep <= 0 {
        return Failed(AtFirstStep);
      }
      currentStep := currentStep - 1;
      r := GetCurrentStep();
    }

    /** `verify_step_completed(operation_data)`: false with no tutorial active,
        otherwise the matching rule applied to the active step. */
    function VerifyStepCompleted(op: OperationData): (r: bool)
      requires Valid()
      reads this
      ensures currentTutorial.None? ==> !r
      ensures currentTutorial.Some? ==>
                (r <==> StepCompleted(Find(tutorials, currentTutorial.value).value.steps[currentStep], op))
    {
      if currentTutorial.None? then false
      else StepCompleted(Find(tutorials, currentTutorial.value).value.steps[currentStep], op)
    }

    /** `get_tutorial_list()`: every tutorial, in table order, with whether it
        was completed. */
    method GetTutorialList() returns (result: seq<Listing>)
      ensures |result| == |tutorials|
      ensures forall i :: 0 <= i < |tutorials| ==>
                result[i] == Listing(tutorials[i].id, tutorials[i].id in completedTutorials)
    {
      result := [];
      var i := 0;
      while i < |tutorials|
        invariant 0 <= i <= |tutorials| && |result| == i
        invariant forall j :: 0 <= j < i ==>
                    result[j] == Listing(tutorials[j].id, tutorials[j].id in completedTutorials)
      {
        result := result + [Listing(tutorials[i].id, tutorials[i].id in completedTutorials)];
        i := i + 1;
      }
    }

    /** `end_tutorial()`: the active tutorial is dropped and the step reset to
        0, without marking it completed; an error with none active. */
    method EndTutorial() returns (r: Reply)
      requires Valid()
      modifies this
      ensures Valid()
      ensures completedTutorials == old(completedTutorials)
      ensures old(currentTutorial).None? ==> r == Failed(NoActiveTutorial) && currentTutorial == None && currentStep == 0
      ensures old(currentTutorial).Some? ==> r == Ended(old(currentTutorial).value) && currentTutorial == None && currentStep == 0
    {
      if currentTutorial.None? {
        return Failed(NoActiveTutorial);
      }
      r := Ended(currentTutorial.value);
      currentTutorial := None;
      currentStep := 0;
    }
  }
}
