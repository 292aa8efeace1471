/** The state logic of the home page: six phases (the hook's five plus
    `social`), the progress stepper's step indices, navigation by clicking
    a step, the final image and starting over.

    `setPhase(targetPhase)` with an index past the end of the click
    handler's phase list stores `undefined`, so the page's phase is an
    `Option`; `None` is that `undefined`. */
module HomePage {
  import opened Wrappers
  import opened Artefacts

  datatype Phase = Ideation | Research | Writing | Social | Assets | Review

  type State = Session<Option<Phase>>

  /** The ids of `WORKFLOW_STEPS`, in order. */
  const WorkflowSteps: seq<Phase> := [Ideation, Research, Writing, Social, Assets, Review]

  /** `phaseToStepIndex`. */
  function StepIndex(p: Phase): (i: nat)
    ensures i < |WorkflowSteps| && WorkflowSteps[i] == p
  {
    match p
    case Ideation => 0
    case Research => 1
    case Writing => 2
    case Social => 3
    case Assets => 4
    case Review => 5
  }

  /** The index map is a bijection onto the steps: it inverts the step
      list, so distinct phases sit at distinct steps. */
  lemma StepIndexIsBijection(p: Phase, q: Phase, i: nat)
    ensures i < |WorkflowSteps| ==> StepIndex(WorkflowSteps[i]) == i
    ensures StepIndex(p) == StepIndex(q) ==> p == q
  {
  }

  /** `phases[stepIndex]` for a list of phases: `undefined` outside it. */
  function PhaseAt(phases: seq<Phase>, i: int): (p: Option<Phase>)
    ensures p.Some? <==> 0 <= i < |phases|
    ensures p.Some? ==> p.value == phases[i]
  {
    if 0 <= i < |phases| then Some(phases[i]) else None
  }

  /** The list `handleStepClick` reads the target from: `social` is missing. */
  const ClickPhases: seq<Phase> := [Ideation, Research, Writing, Assets, Review]

  /** `handleStepClick(stepIndex)` as written: the guard compares the index
      with the current phase's step, and the target is read from the
      five-entry list. An `undefined` phase fails the guard. */
  function StepClickAsWritten(s: State, stepIndex: int): (r: State)
    ensures SameExcept(s, r, {PhaseField})
    ensures s.phase.None? || stepIndex > StepIndex(s.phase.value) ==> r == s
    ensures s.phase.Some? && stepIndex <= StepIndex(s.phase.value) ==>
      r.phase == PhaseAt(ClickPhases, stepIndex)
  {
    if s.phase.Some? && stepIndex <= StepIndex(s.phase.value) then
      s.(phase := PhaseAt(ClickPhases, stepIndex))
    else s
  }

  /** From `social` (step 3), clicking step 3 moves forward to `assets`
      (step 4), a step not yet reached. */
  lemma SocialClickJumpsForward(s: State)
    requires s.phase == Some(Social)
    ensures StepClickAsWritten(s, 3).phase == Some(Assets)
    ensures StepIndex(Assets) > StepIndex(Social)
  {
  }

  /** From `review`, clicking its own step 5 leaves the phase `undefined`. */
  lemma ReviewClickLosesPhase(s: State)
    requires s.phase == Some(Review)
    ensures StepClickAsWritten(s, 5).phase.None?
  {
  }

  /** Every step from `social` on maps to the phase after it, or to none. */
  lemma AsWrittenMisreadsLateSteps(s: State, stepIndex: int)
    requires s.phase.Some? && 3 <= stepIndex <= StepIndex(s.phase.value)
    ensures var r := StepClickAsWritten(s, stepIndex);
      r.phase.None? || StepIndex(r.phase.value) == stepIndex + 1
  {
  }

  /** `handleStepClick` as its comment means it: the target is read from
      the stepper's own list, so a click goes to the clicked step when that
      step is completed or current, and nowhere otherwise. */
  function StepClick(s: State, stepIndex: int): (r: State)
    ensures SameExcept(s, r, {PhaseField})
    ensures s.phase.Some? && 0 <= stepIndex <= StepIndex(s.phase.value) ==>
      r.phase.Some? && StepIndex(r.phase.value) == stepIndex
    ensures !(s.phase.Some? && 0 <= stepIndex <= StepIndex(s.phase.value)) ==> r == s
  {
    if s.phase.Some? && 0 <= stepIndex <= StepIndex(s.phase.value) then
      s.(phase := PhaseAt(WorkflowSteps, stepIndex))
    else s
  }

  /** Clicking never moves forward and never loses the phase. */
  lemma StepClickNeverAdvances(s: State, stepIndex: int)
    requires s.phase.Some?
    ensures var r := StepClick(s, stepIndex);
      r.phase.Some? && StepIndex(r.phase.value) <= StepIndex(s.phase.value)
  {
  }

  /** On the steps before `social` the corrected click and the one as
      written agree. */
  lemma StepClickAgreesBeforeSocial(s: State, stepIndex: int)
    requires 0 <= stepIndex < 3
    ensures StepClick(s, stepIndex) == StepClickAsWritten(s, stepIndex)
  {
  }

  // ---------------------------------------------------------------------
  // Images
  // ---------------------------------------------------------------------

  /** `hasGeneratedImage`: the page has an image exactly when there is a
      final image to show. */
  function HasGeneratedImage(s: State): (b: bool)
    ensures b <==> FinalImage(s).Some?
  {
    |s.acceptedImages| > 0 || s.generatedImage.Some?
  }

  /** `finalImage`: the first accepted image, else the generated one; an
      image object is always truthy. */
  function FinalImage(s: State): (img: Option<GeneratedImage>)
    ensures |s.acceptedImages| > 0 ==> img == FirstValue(s.acceptedImages)
    ensures |s.acceptedImages| == 0 ==> img == s.generatedImage
  {
    if FirstValue(s.acceptedImages).Some? then FirstValue(s.acceptedImages) else s.generatedImage
  }

  /** Once an image is accepted the page has an image, and the final image
      is one of the accepted ones. */
  lemma AcceptedImageIsFinal(s: State, promptId: string, image: GeneratedImage)
    ensures var r := AcceptImage(s, promptId, image);
      && HasGeneratedImage(r)
      && exists i :: 0 <= i < |r.acceptedImages| && r.acceptedImages[i].1 == FinalImage(r).value
  {
    var r := AcceptImage(s, promptId, image);
    assert Lookup(r.acceptedImages, promptId).Some?;
  }

  // ---------------------------------------------------------------------
  // Starting over
  // ---------------------------------------------------------------------

  /** `handleStartOver`: phase `ideation`, every artefact and the topic
      emptied, and the new session id `freshId`. */
  function StartOver(s: State, freshId: string): (r: State)
    ensures r.phase == Some(Ideation) && r.sessionId == freshId
    ensures Cleared(r, {TopicField, AnglesField, SelectedAngleField, ResearchField, DraftField,
                        SocialPostField, ImagePromptsField, GeneratedImageField,
                        AcceptedImagesField, ErrorField})
  {
    Initial(Some(Ideation), freshId)
  }

  /** Starting over forgets the session entirely, leaves no image behind,
      and puts the stepper back on its first step. */
  lemma StartOverForgetsSession(s: State, t: State, freshId: string)
    ensures StartOver(s, freshId) == StartOver(t, freshId)
    ensures !HasGeneratedImage(StartOver(s, freshId))
    ensures StepIndex(StartOver(s, freshId).phase.value) == 0
  {
  }
}
