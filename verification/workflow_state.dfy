/** `useWorkflowState`: the session record with its five-phase workflow
    and the named transitions, each of which sets a phase and clears the
    artefacts downstream of it. `crypto.randomUUID()` is the parameter
    `freshId`; the raw setters the hook also returns are not transitions
    and are left out. */
module WorkflowState {
  import opened Wrappers
  import opened Artefacts

  datatype Phase = Ideation | Research | Writing | Assets | Review

  type State = Session<Phase>

  /** What every transition below the reset clears, beyond the phase. */
  const ResearchClears: set<Field> :=
    {ResearchField, DraftField, SocialPostField, ImagePromptsField, GeneratedImageField, ErrorField}
  const WritingClears: set<Field> := {DraftField, SocialPostField, ImagePromptsField, ErrorField}
  const AssetsClears: set<Field> := {ImagePromptsField, ErrorField}

  /** The hook's first render, with session id `sessionId`. */
  function InitialState(sessionId: string): (s: State)
    ensures s.phase == Ideation && s.sessionId == sessionId
    ensures Cleared(s, AllArtefacts())
  {
    Initial(Ideation, sessionId)
  }

  /** Every field but the phase and the session id. */
  function AllArtefacts(): set<Field> {
    {TopicField, AnglesField, SelectedAngleField, ResearchField, DraftField, SocialPostField,
     ImagePromptsField, GeneratedImageField, AcceptedImagesField, ErrorField}
  }

  /** `resetWorkflow`: back to the start under a new session id. */
  function ResetWorkflow(s: State, freshId: string): (r: State)
    ensures r.phase == Ideation && r.sessionId == freshId
    ensures Cleared(r, AllArtefacts())
  {
    InitialState(freshId)
  }

  /** `progressToResearch(angle)`. */
  function ProgressToResearch(s: State, angle: Angle): (r: State)
    ensures r.phase == Research && r.selectedAngle == Some(angle)
    ensures Cleared(r, ResearchClears)
    ensures SameExcept(s, r, {PhaseField, SelectedAngleField} + ResearchClears)
  {
    s.(selectedAngle := Some(angle), phase := Research, research := None, draft := None,
       socialPost := "", imagePrompts := None, generatedImage := None, error := None)
  }

  /** `progressToWriting()`: the research, the angle and any generated
      image are kept. */
  function ProgressToWriting(s: State): (r: State)
    ensures r.phase == Writing
    ensures Cleared(r, WritingClears)
    ensures SameExcept(s, r, {PhaseField} + WritingClears)
  {
    s.(phase := Writing, draft := None, socialPost := "", imagePrompts := None, error := None)
  }

  /** `progressToAssets()`. */
  function ProgressToAssets(s: State): (r: State)
    ensures r.phase == Assets
    ensures Cleared(r, AssetsClears)
    ensures SameExcept(s, r, {PhaseField} + AssetsClears)
  {
    s.(phase := Assets, imagePrompts := None, error := None)
  }

  /** `progressToReview()`. */
  function ProgressToReview(s: State): (r: State)
    ensures r.phase == Review
    ensures SameExcept(s, r, {PhaseField})
  {
    s.(phase := Review)
  }

  // ---------------------------------------------------------------------
  // Properties
  // ---------------------------------------------------------------------

  /** The reset forgets everything about the session it ends: two
      sessions reset under the same id are equal. */
  lemma ResetForgetsSession(s: State, t: State, freshId: string)
    ensures ResetWorkflow(s, freshId) == ResetWorkflow(t, freshId)
    ensures SameExcept(ResetWorkflow(s, freshId), InitialState(s.sessionId), {SessionIdField})
  {
  }

  /** Each transition is idempotent: taking it twice is taking it once. */
  lemma TransitionsIdempotent(s: State, angle: Angle, freshId: string)
    ensures ProgressToResearch(ProgressToResearch(s, angle), angle) == ProgressToResearch(s, angle)
    ensures ProgressToWriting(ProgressToWriting(s)) == ProgressToWriting(s)
    ensures ProgressToAssets(ProgressToAssets(s)) == ProgressToAssets(s)
    ensures ProgressToReview(ProgressToReview(s)) == ProgressToReview(s)
    ensures ResetWorkflow(ResetWorkflow(s, freshId), freshId) == ResetWorkflow(s, freshId)
  {
  }

  /** A later transition never clears what an earlier step produced
      upstream of it: going research, writing, assets, review keeps the
      chosen angle, the topic and the angles offered, and whatever research
      was stored after the first step. */
  lemma ForwardRunKeepsUpstream(s: State, angle: Angle, found: ResearchResult)
    ensures var r := ProgressToResearch(s, angle).(research := Some(found));
      var e := ProgressToReview(ProgressToAssets(ProgressToWriting(r)));
      && e.phase == Review
      && e.selectedAngle == Some(angle)
      && e.research == Some(found)
      && e.topic == s.topic && e.angles == s.angles
      && e.acceptedImages == s.acceptedImages && e.sessionId == s.sessionId
  {
  }

  /** Accepting an image is independent of the phase transitions: it
      commutes with each of them. */
  lemma AcceptImageCommutes(s: State, angle: Angle, promptId: string, image: GeneratedImage)
    ensures AcceptImage(ProgressToResearch(s, angle), promptId, image)
         == ProgressToResearch(AcceptImage(s, promptId, image), angle)
    ensures AcceptImage(ProgressToWriting(s), promptId, image)
         == ProgressToWriting(AcceptImage(s, promptId, image))
    ensures AcceptImage(ProgressToAssets(s), promptId, image)
         == ProgressToAssets(AcceptImage(s, promptId, image))
    ensures AcceptImage(ProgressToReview(s), promptId, image)
         == ProgressToReview(AcceptImage(s, promptId, image))
  {
  }
}
