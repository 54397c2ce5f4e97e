/** The final-project page of `Project`: the steps of each project, the
    step index with its Previous/Next clamps, and the completion of steps
    and of the project, recorded in the progress store under the project's
    id. */
module ProjectPage {
  import opened Wrappers
  import opened Seqs
  import opened Progress

  /** A step of a project; its title, text and code are not modelled. */
  datatype Step = Step(id: string)

  const IntroId: string := "intro"

  /** The key under which "Terminer le projet" records the whole project. */
  const CompletedMarker: string := "completed"

  /** `getProjectSteps`: every project opens on its introduction, and only
      project 1 has a step after it. */
  function ProjectSteps(projectNumber: int): (steps: seq<Step>)
    ensures |steps| >= 1 && steps[0].id == IntroId
    ensures |steps| > 1 <==> projectNumber == 1
    ensures forall k :: 1 <= k < |steps| ==> steps[k].id != IntroId
  {
    if projectNumber == 1 then [Step(IntroId), Step("step-1")] else [Step(IntroId)]
  }

  /** The filter predicate of `completedSteps`: the introduction always
      counts as done. */
  function StepDone(rows: seq<ProgressRow>, projectId: string): Step -> bool {
    (s: Step) => s.id == IntroId || IsLessonComplete(rows, projectId, s.id)
  }

  /** `completedSteps`. */
  function CompletedSteps(rows: seq<ProgressRow>, projectId: string, projectNumber: int): (n: nat)
    ensures 1 <= n <= |ProjectSteps(projectNumber)|
  {
    var steps := ProjectSteps(projectNumber);
    assert StepDone(rows, projectId)(steps[0]);
    |Filter(steps, StepDone(rows, projectId))|
  }

  /** `isProjectComplete`. */
  predicate IsProjectComplete(rows: seq<ProgressRow>, projectId: string, projectNumber: int) {
    CompletedSteps(rows, projectId, projectNumber) == |ProjectSteps(projectNumber)|
  }

  /** A project made of its introduction alone is complete at once; project
      1 is complete exactly when its one step is. */
  lemma ProjectCompletion(rows: seq<ProgressRow>, projectId: string, projectNumber: int)
    ensures projectNumber != 1 ==> IsProjectComplete(rows, projectId, projectNumber)
    ensures projectNumber == 1 ==>
              (IsProjectComplete(rows, projectId, projectNumber) <==> IsLessonComplete(rows, projectId, "step-1"))
  {
    var steps := ProjectSteps(projectNumber);
    var p := StepDone(rows, projectId);
    FilterKeepsAll(steps, p);
    if projectNumber == 1 {
      assert p(steps[1]) <==> IsLessonComplete(rows, projectId, "step-1");
    }
  }

  /** `completeStep`: nothing for the introduction or without a user. */
  function CompleteStep(user: Option<UserId>, rows: seq<ProgressRow>, projectId: string, stepId: string,
                        upsert: UpsertOutcome, clock: Clock, refetch: FetchOutcome): (r: seq<ProgressRow>)
    ensures user.None? || stepId == IntroId ==> r == rows
    ensures user.Some? && stepId != IntroId && upsert.UpsertOk? && refetch.FetchFailed? ==>
              IsLessonComplete(r, projectId, stepId)
  {
    if user.Some? && stepId != IntroId then MarkLessonComplete(user, rows, projectId, stepId, upsert, clock, refetch)
    else rows
  }

  /** Completing project 1's step with the write accepted completes the
      project. */
  lemma CompletingStepCompletesProject(user: UserId, rows: seq<ProgressRow>, projectId: string, clock: Clock)
    ensures IsProjectComplete(CompleteStep(Some(user), rows, projectId, "step-1", UpsertOk, clock, FetchFailed),
                              projectId, 1)
  {
    ProjectCompletion(CompleteStep(Some(user), rows, projectId, "step-1", UpsertOk, clock, FetchFailed),
                      projectId, 1);
  }

  /** `handleComplete`: records the `completed` marker for the project,
      signed-in users only. */
  function HandleComplete(user: Option<UserId>, rows: seq<ProgressRow>, projectId: string,
                          upsert: UpsertOutcome, clock: Clock, refetch: FetchOutcome): (r: seq<ProgressRow>)
    ensures user.None? ==> r == rows
    ensures user.Some? && upsert.UpsertOk? && refetch.FetchFailed? ==>
              IsLessonComplete(r, projectId, CompletedMarker)
  {
    if user.Some? then MarkLessonComplete(user, rows, projectId, CompletedMarker, upsert, clock, refetch)
    else rows
  }

  /** The `completed` marker is not a step: recording it neither completes
      nor un-completes a project's steps. */
  lemma MarkerLeavesStepsAlone(user: Option<UserId>, rows: seq<ProgressRow>, projectId: string,
                               upsert: UpsertOutcome, clock: Clock, projectNumber: int)
    ensures IsProjectComplete(HandleComplete(user, rows, projectId, upsert, clock, FetchFailed), projectId, projectNumber)
            <==> IsProjectComplete(rows, projectId, projectNumber)
  {
    var r := HandleComplete(user, rows, projectId, upsert, clock, FetchFailed);
    ProjectCompletion(rows, projectId, projectNumber);
    ProjectCompletion(r, projectId, projectNumber);
    MarkOnlyTouchesItsKey(user, rows, projectId, CompletedMarker, upsert, clock, projectId, "step-1");
  }

  /** The Previous button: `Math.max(0, currentStep - 1)`. */
  function PreviousStep(index: nat): (r: nat)
    ensures r <= index && index <= r + 1
    ensures r == index <==> index == 0
  {
    if index - 1 > 0 then index - 1 else 0
  }

  /** The Next button: `Math.min(steps.length - 1, currentStep + 1)`. */
  function NextStep(projectNumber: int, index: nat): (r: nat)
    ensures r < |ProjectSteps(projectNumber)|
    ensures index < |ProjectSteps(projectNumber)| ==> index <= r <= index + 1
    ensures index < |ProjectSteps(projectNumber)| ==> (r == index <==> index == |ProjectSteps(projectNumber)| - 1)
  {
    var last := |ProjectSteps(projectNumber)| - 1;
    if last < index + 1 then last else index + 1
  }

  predicate PreviousStepDisabled(index: nat) {
    index == 0
  }

  predicate NextStepDisabled(projectNumber: int, index: nat) {
    index == |ProjectSteps(projectNumber)| - 1
  }

  /** Within range, a button is disabled exactly when clicking it would do
      nothing, and clicking keeps the index in range. */
  lemma StepButtonsAgree(projectNumber: int, index: nat)
    requires index < |ProjectSteps(projectNumber)|
    ensures PreviousStepDisabled(index) <==> PreviousStep(index) == index
    ensures NextStepDisabled(projectNumber, index) <==> NextStep(projectNumber, index) == index
    ensures PreviousStep(index) < |ProjectSteps(projectNumber)|
  {
  }
}
