/** Which limit class and cost each rate-limited server action is wrapped
    with, and what sharing one bucket per client means across actions. */
module Actions {
  import opened RateLimit
  import opened RateLimitMiddleware

  /** `generateImageAction = withRateLimit('image')(...)`. */
  const GenerateImageGate: Gate := DefaultGate(Image)

  /** `generateImagePromptsAction = withRateLimit('writing')(...)`. */
  const GenerateImagePromptsGate: Gate := DefaultGate(Writing)

  /** `generateDraftAction = withRateLimit('writing', 2)(...)`. */
  const GenerateDraftGate: Gate := Gate(Writing, 2)

  /** `generateSocialPostAction` and `refineDraftAction`. */
  const GenerateSocialPostGate: Gate := DefaultGate(Writing)
  const RefineDraftGate: Gate := DefaultGate(Writing)

  /** `generateAnglesAction` and `researchTopicAction`. */
  const GenerateAnglesGate: Gate := DefaultGate(Ideation)
  const ResearchTopicGate: Gate := DefaultGate(Research)

  /** The asset actions' wiring: image generation costs one image token,
      prompt generation one writing token. A new client's first image
      leaves 29 image tokens, and a full bucket funds 30 images or 20
      prompt generations within the hour. */
  lemma AssetActionGates(store: Store, id: string, now: int)
    requires id !in store
    ensures GenerateImageGate == Gate(Image, 1)
    ensures GenerateImagePromptsGate == Gate(Writing, 1)
    ensures var r := CheckRateLimit(store, id, GenerateImageGate.limitClass, GenerateImageGate.cost, now);
      r.value.allowed && r.value.tokensRemaining == 29
    ensures Limits(GenerateImageGate.limitClass).maxTokens / GenerateImageGate.cost == 30
    ensures Limits(GenerateImagePromptsGate.limitClass).maxTokens / GenerateImagePromptsGate.cost == 20
  {
  }

  /** The writing actions' wiring: a draft costs two writing tokens, a
      social post or a refinement one. A new client's first draft leaves 18
      writing tokens, and a full bucket funds 10 drafts or 20 posts or
      refinements within the hour. */
  lemma WritingActionGates(store: Store, id: string, now: int)
    requires id !in store
    ensures GenerateDraftGate == Gate(Writing, 2)
    ensures GenerateSocialPostGate == Gate(Writing, 1) && RefineDraftGate == Gate(Writing, 1)
    ensures var r := CheckRateLimit(store, id, GenerateDraftGate.limitClass, GenerateDraftGate.cost, now);
      r.value.allowed && r.value.tokensRemaining == 18
    ensures Limits(GenerateDraftGate.limitClass).maxTokens / GenerateDraftGate.cost == 10
    ensures Limits(RefineDraftGate.limitClass).maxTokens / RefineDraftGate.cost == 20
  {
  }

  /** Angle generation costs one ideation token: a new client's first call
      leaves 9, and a full bucket funds 10 calls within the hour. */
  lemma IdeationActionGate(store: Store, id: string, now: int)
    requires id !in store
    ensures GenerateAnglesGate == Gate(Ideation, 1)
    ensures var r := CheckRateLimit(store, id, GenerateAnglesGate.limitClass, GenerateAnglesGate.cost, now);
      r.value.allowed && r.value.tokensRemaining == 9
    ensures Limits(GenerateAnglesGate.limitClass).maxTokens / GenerateAnglesGate.cost == 10
  {
  }

  /** Topic research costs one research token: a new client's first call
      leaves 9, and a full bucket funds 10 calls within the hour. */
  lemma ResearchActionGate(store: Store, id: string, now: int)
    requires id !in store
    ensures ResearchTopicGate == Gate(Research, 1)
    ensures var r := CheckRateLimit(store, id, ResearchTopicGate.limitClass, ResearchTopicGate.cost, now);
      r.value.allowed && r.value.tokensRemaining == 9
    ensures Limits(ResearchTopicGate.limitClass).maxTokens / ResearchTopicGate.cost == 10
  {
  }

  /** Since every class refills on the same hourly interval, an admitted
      call leaves the client's bucket exactly one cost lower for the next
      call at the same instant, whatever class that call is gated by:
      image generation spends the tokens prompt generation then sees. */
  lemma ActionsShareOneBucket<A, R>(gate: Gate, other: LimitClass, handler: A -> R, h: Headers, args: A, store: Store, now: int)
    requires CheckRateLimit(store, ClientIdentifier(h), gate.limitClass, gate.cost, now).value.allowed
    ensures var r := Invoke(gate, handler, h, args, store, now);
      Available(r.store, ClientIdentifier(h), other, now).tokens
        == Available(store, ClientIdentifier(h), gate.limitClass, now).tokens - gate.cost
  {
    var id := ClientIdentifier(h);
    var b := Available(store, id, gate.limitClass, now);
    var r := Invoke(gate, handler, h, args, store, now);
    assert r.store[id] == Bucket(b.tokens - gate.cost, b.lastRefill);
    if id in store && IntervalsElapsed(store[id], Limits(gate.limitClass), now) > 0 {
      assert b.lastRefill == now;
      assert IntervalsElapsed(r.store[id], Limits(other), now) == 0;
    } else {
      assert b.lastRefill == now || b.lastRefill == store[id].lastRefill;
      assert IntervalsElapsed(r.store[id], Limits(other), now) <= 0;
    }
  }
}
