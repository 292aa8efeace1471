# blog-writer studio: the pure rules, in Dafny

This project models the logic that the blog-writer studio runs between its user interface, its
database and its AI calls. It covers:

- **The token-bucket rate limiter.** This includes its bucket store, the lazy catch-up refill, the
  admission check, the status, reset and clear operations, and the hourly limit table.
- **The server-action wrapper.** It derives a client identifier from request headers and gates
  every AI server action on one rate-limit check. The model also records which limit class and
  cost each action is wrapped with.
- **The sanitisers and `truncate`.** Every global `replace` is modelled as one left-to-right pass.
- **The zod validation schemas.** The length limits, the forbidden characters and the five
  case-insensitive prompt-injection patterns are included. The patterns get two semantics: a
  greedy matcher and a backtracking reference, proved to agree.
- **Asset grouping** (`getGroupedAssets` after the database read): group by `groupId`, take
  `latestAt` from each group's head, and sort stably newest first.
- **The workflow session record.** This covers the hook's named transitions and the home page's
  phase stepper, final image and start-over.
- **The post-processing of `generateDraft`.** It has the empty-title guard, a heading-based title
  taken from the regular expression `/^#\s+(.+)$/m`, and the whitespace word count.
- **The elapsed-time label of the auto-save indicator.**

Modelling choices:

- The clock, `crypto.randomUUID()`, the request headers, the AI model's reply and the wrapped
  handler are all parameters.
- The rate limiter's process-wide map is a `map<string, Bucket>` value that each operation takes
  and returns.
- Strings are `seq<char>`.
- The JavaScript primitives used are written out in module `Strings`: the `trim`/`\s` whitespace
  set, ASCII case folding, and the decimal rendering of integers.

Where the design description and the code disagree, the model follows the code:

- **Bucket keying.** The design describes one bucket per identifier and limit class. The map in
  `studio/lib/rate-limit/index.ts` is keyed by the identifier alone. So every class shares one
  bucket, which is sized by the class that created it and capped by the class that next refills
  it (`RateLimit.ClassesShareOneBucket`).
- **Refill.** The design calls the refill exact for the elapsed wall-clock time. The code sets
  `lastRefill` to the refill instant, so the leftover part of an interval is lost
  (`RateLimit.RefillRestartsSchedule`).

## Model

| member | source | states |
|---|---|---|
| RateLimit.Limits | studio/lib/rate-limit/index.ts:23-48 | every class refills its whole capacity (`maxTokens == refillRate > 0`) once an hour, and no capacity exceeds 30 |
| RateLimit.ConfiguredLimits | studio/lib/rate-limit/index.ts:23-48 | the table's values: 10, 10, 20 and 30 tokens for ideation, research, writing and image, each with a 3,600,000 ms interval |
| RateLimit.Refill | studio/lib/rate-limit/index.ts:52-64 | with no whole interval elapsed the bucket is unchanged; otherwise the refill instant becomes `lastRefill`, and the tokens become the capacity or the old count plus the refills, whichever is smaller |
| RateLimit.RefillAfterIntervals | studio/lib/rate-limit/index.ts:52-64 | after exactly `k > 0` intervals the count is `min(maxTokens, tokens + k * refillRate)` |
| RateLimit.RefillIdempotent | studio/lib/rate-limit/index.ts:52-64 | a second refill at the same instant changes nothing |
| RateLimit.RefillRestartsSchedule | studio/lib/rate-limit/index.ts:62 | after a refill at `now`, no refill happens before `now + interval`, whatever the previous schedule: the leftover fraction of an interval is discarded |
| RateLimit.RefillDiscardsFractionExample | studio/lib/rate-limit/index.ts:55-62 | a bucket refilled at 1.5 h is not refilled at 2 h, although two intervals have passed since its creation |
| RateLimit.RefillNeverLowersWithinCap | studio/lib/rate-limit/index.ts:57-61 | a bucket at or below the capacity is never lowered by a refill and stays within the capacity |
| RateLimit.GetBucket | studio/lib/rate-limit/index.ts:66-77 | an absent identifier gets a full bucket stamped `now` before the refill; a present one is refilled; the result is stored back under that identifier only |
| RateLimit.CheckRateLimit | studio/lib/rate-limit/index.ts:90-114 | admits iff the refilled bucket holds at least `cost`; on admission the tokens drop by exactly `cost` and that count is reported; on denial the bucket stays as refilled and `retryAfter` is the class's positive interval; no other identifier's bucket changes |
| RateLimit.GetRateLimitStatus | studio/lib/rate-limit/index.ts:119-130 | reports the refilled count and the class capacity without debiting; only the caller's bucket may change |
| RateLimit.ResetRateLimit | studio/lib/rate-limit/index.ts:135-137 | removes the identifier's bucket and no other |
| RateLimit.ClearAllRateLimits | studio/lib/rate-limit/index.ts:142-144 | no identifier has a bucket afterwards |
| RateLimit.ClassesShareOneBucket | studio/lib/rate-limit/index.ts:20-77 | an image call creates a 30-token bucket; an ideation status call sees 29 of 10, and an hour later the ideation refill lowers it to 10 |
| RateLimit.CheckPreservesCapacity | studio/lib/rate-limit/index.ts:90-114 | with non-negative costs, checks keep every bucket between 0 and 30 tokens |
| RateLimit.StatusPreservesCapacity | studio/lib/rate-limit/index.ts:119-130 | status calls keep every bucket between 0 and 30 tokens |
| RateLimit.NegativeCostAddsTokens | studio/lib/rate-limit/index.ts:93-99 | the cost is not validated: a negative cost is always admitted and raises the count |
| RateLimit.StatusDoesNotAffectCheck | studio/lib/rate-limit/index.ts:119-130 | a status call before a check at the same instant leaves the check's answer and store exactly as without it |
| RateLimit.DenialIsStable | studio/lib/rate-limit/index.ts:106-113 | a denial changes no token count, and repeating it yields the same result and store |
| RateLimit.Burst | studio/lib/rate-limit/index.ts:66-104 | starting with no bucket and with no time passing, exactly `maxTokens / cost` calls are admitted, the k-th leaving `maxTokens - k * cost`; the next is denied with `maxTokens % cost` tokens left and a one-hour retry |
| RateLimit.RefillAfterIntervalScenario | studio/lib/rate-limit/index.ts:52-104 | an empty ideation bucket is full again one interval later and admits a call, leaving 9 |
| RateLimit.PartialIntervalScenario | studio/lib/rate-limit/index.ts:52-113 | half an interval refills nothing, so the empty bucket still denies |
| RateLimit.CostTwoScenario | studio/lib/rate-limit/index.ts:90-113 | a cost-2 writing call takes 3 tokens to 1; the next is denied and leaves the 1 |
| RateLimitMiddleware.FirstSegment | studio/lib/rate-limit/middleware.ts:10 | `split(',')[0]`: the longest comma-free prefix, which ends at the first comma |
| RateLimitMiddleware.ClientIp | studio/lib/rate-limit/middleware.ts:9-10 | the first forwarded-for segment when it is non-empty, else a non-empty `x-real-ip`, else `unknown`; never empty |
| RateLimitMiddleware.ClientIdentifier | studio/lib/rate-limit/middleware.ts:4-15 | the prefix of `ip-userAgent` (user agent defaulting to `unknown`) of length `min(100, length)`, and never empty |
| RateLimitMiddleware.FirstSegmentOfList | studio/lib/rate-limit/middleware.ts:10 | a forwarded-for list contributes its first entry, whatever follows the comma |
| RateLimitMiddleware.ForwardedForExample | studio/lib/rate-limit/middleware.ts:9-14 | `203.0.113.7, 10.0.0.1` without a user agent gives `203.0.113.7-unknown` |
| RateLimitMiddleware.NoHeadersExample | studio/lib/rate-limit/middleware.ts:9-14 | an empty first segment, an empty real IP and an empty user agent give `unknown-unknown` |
| RateLimitMiddleware.DefaultGate | studio/lib/rate-limit/middleware.ts:26-29 | the cost defaults to 1 |
| RateLimitMiddleware.RetryAfterSeconds | studio/lib/rate-limit/middleware.ts:36-38 | a present non-zero `retryAfter` gives the smallest whole number of seconds covering it (`Math.ceil`); an absent or zero one gives 3600 |
| RateLimitMiddleware.Invoke | studio/lib/rate-limit/middleware.ts:26-51 | exactly one check with the wrapped class and cost for the caller's identifier; on denial no handler call and an error carrying the seconds and the message built from them; on admission one handler call with the caller's arguments, its result returned as is |
| RateLimitMiddleware.RateLimitErrorIffDenied | studio/app/page.tsx:84-86 | the page's `isRateLimitError` (`IsRateLimitError`) holds exactly when the check denied; the handler then ran zero times, otherwise exactly once with the original arguments |
| RateLimitMiddleware.DenialReportsOneHour | studio/lib/rate-limit/middleware.ts:35-44 | for every configured class a denial is `retryAfter` 3600 with the message "Rate limit exceeded. Please try again in 3600 seconds." |
| RateLimitMiddleware.OneHourMessage | studio/lib/rate-limit/middleware.ts:41 | the message for 3600 seconds, character for character |
| RateLimitMiddleware.RateLimitMessage | studio/lib/rate-limit/middleware.ts:41 | the message is the fixed prefix, the seconds as JavaScript renders them (a `-` before a negative number) and the fixed suffix, and the number between prefix and suffix reads back as the seconds |
| Actions.AssetActionGates | studio/app/actions/assets.ts:23-35 | image generation costs one image token and prompt generation one writing token; a new client's first image leaves 29 tokens, and a full bucket funds 30 images or 20 prompt generations |
| Actions.WritingActionGates | studio/app/actions/writing.ts:24-64 | a draft costs two writing tokens, a social post or refinement one; a new client's first draft leaves 18 tokens, and a full bucket funds 10 drafts or 20 posts |
| Actions.IdeationActionGate | studio/app/actions/ideation.ts:22 | angle generation costs one ideation token; a new client's first call leaves 9, and a full bucket funds 10 calls |
| Actions.ResearchActionGate | studio/app/actions/research.ts:19 | topic research costs one research token; a new client's first call leaves 9, and a full bucket funds 10 calls |
| Actions.ActionsShareOneBucket | studio/lib/rate-limit/index.ts:20-104 | after an admitted call, a call of any class at the same instant sees the bucket exactly `cost` lower |
| Sanitize.ClosingTagEnd | studio/lib/validation/sanitize.ts:19 | the end of the lazy `.*?<\/script>` from a position: the first closing tag reachable without crossing a line terminator, or 0 when every closing tag lies behind one |
| Sanitize.MatchLength | studio/lib/validation/sanitize.ts:7-21 | the length of each pattern's match at the start of a string: one for a leading `<` or `>`; 11 exactly for `javascript:` in any case; for `on\w+=` the one end where an `=` follows a word run; for a script element the least end any match can have, and 0 exactly when no match exists |
| Sanitize.Truncate | studio/lib/validation/sanitize.ts:28-31 | a string within the limit is returned as is. A longer one becomes a prefix plus `...`. That result is exactly `maxLength` long when the limit is at least 3, and just `...` below 3 |
| Sanitize.TruncateBelowThreeExceedsLimit | studio/lib/validation/sanitize.ts:30 | with a limit of 2 the result `...` is longer than the limit |
| Sanitize.RemoveAll | studio/lib/validation/sanitize.ts:7-21 | a global removal pass only deletes characters |
| Sanitize.RemoveAllUnchangedIffFree | studio/lib/validation/sanitize.ts:7-21 | a pass returns its input unchanged iff the pattern matches at no position of it |
| Sanitize.NoAngleBracketsAfterRemoval | studio/lib/validation/sanitize.ts:7 | no `<` or `>` survives the first pass |
| Sanitize.SanitizeInput | studio/lib/validation/sanitize.ts:5-11 | the output only deletes characters of the input, contains no `<` or `>`, and has no surrounding whitespace |
| Sanitize.SanitizeMarkdown | studio/lib/validation/sanitize.ts:17-23 | the output only deletes characters of the input and has no surrounding whitespace |
| Sanitize.SanitizeMarkdownFixedPoints | studio/lib/validation/sanitize.ts:13-23 | markdown is returned unchanged iff it has no script element, no `javascript:` in any case, no `on<word>=` and no surrounding whitespace; other markup, `<` and `>` included, passes through |
| Sanitize.ScriptRemovalReassembles | studio/lib/validation/sanitize.ts:19 | the single script pass turns `<scr<script></script>ipt>x</script>` into `<script>x</script>`, which the pattern matches whole |
| Sanitize.SanitizeInputFixedPoints | studio/lib/validation/sanitize.ts:5-11 | a string is returned unchanged iff it has no angle bracket, no `javascript:` in any case, no `on<word>=` and no surrounding whitespace |
| Strings.Trim | studio/lib/validation/sanitize.ts:10 | `trim()` keeps a contiguous slice framed by whitespace only, with no outer whitespace. It is empty iff the input is all whitespace, and identity on strings without outer whitespace |
| Schemas.ParseTopic | studio/lib/validation/schemas.ts:13-25 | accepted iff the raw length is within 5..500 and there is no `<` or `>`; the value is the trimmed string |
| Schemas.ParseContent | studio/lib/validation/schemas.ts:28-33 | accepted iff the length is within 1..50000, value untouched |
| Schemas.ParseImagePrompt | studio/lib/validation/schemas.ts:59-65 | accepted iff the raw length is within 5..1000; the value is the trimmed string |
| Schemas.GreedyMatchesReference | studio/lib/validation/schemas.ts:46-52 | for patterns whose whitespace runs are followed by a non-space literal, greedy `\s` runs match exactly when backtracking matches |
| Schemas.PatternsWellFormed | studio/lib/validation/schemas.ts:46-52 | the five injection patterns have that shape |
| Schemas.SearchFrom | studio/lib/validation/schemas.ts:53 | `test` finds a match iff the pattern matches at some position |
| Schemas.AnyMatchReference | studio/lib/validation/schemas.ts:53 | `some(pattern.test)` holds iff some pattern matches somewhere under backtracking semantics |
| Schemas.ParseInstruction | studio/lib/validation/schemas.ts:36-56 | an accepted instruction's value is the trimmed string |
| Schemas.ParseInstructionSpec | studio/lib/validation/schemas.ts:36-56 | an instruction is accepted iff its raw length is within 3..2000 and no injection pattern matches anywhere in the trimmed string |
| Schemas.SystemMarkerDetected | studio/lib/validation/schemas.ts:50 | `system:` is caught whatever surrounds it |
| Schemas.SystemMarkerRejected | studio/lib/validation/schemas.ts:36-56 | an instruction containing `system:` is never accepted, since trimming cannot remove it |
| Schemas.ParseAssetType | studio/lib/validation/schemas.ts:68 | an accepted string is the name of the parsed type |
| Schemas.ParseAssetStatus | studio/lib/validation/schemas.ts:71 | an accepted string is the name of the parsed status |
| Schemas.EnumerationsRoundTrip | studio/lib/validation/schemas.ts:68-71 | exactly `image`, `social_post`, `article` and `draft`, `published` are accepted, and each name parses back to its member |
| AssetGrouping.GroupIdsAreTheOccurringIds | studio/app/actions/assets.ts:85-91 | a group id is listed iff some asset carries it |
| AssetGrouping.Collect | studio/app/actions/assets.ts:85-91 | the grouping record has one entry per distinct group id, in first-appearance order, each holding exactly that id's assets in input order |
| AssetGrouping.PushStep | studio/app/actions/assets.ts:86-90 | one `forEach` step appends the asset to its group, or opens a new group for it, and keeps the record faithful |
| AssetGrouping.RecordGroups | studio/app/actions/assets.ts:95-98 | before sorting: distinct ids, one group per id, each non-empty, holding its id's assets, with `latestAt` its head's `createdAt` |
| AssetGrouping.SortByLatest | studio/app/actions/assets.ts:99-103 | a permutation, sorted newest first (missing time as 0), keeping groups of equal time in their input order |
| AssetGrouping.InsertSorted | studio/app/actions/assets.ts:99-103 | inserting into a sorted list keeps it sorted and adds exactly the one group |
| AssetGrouping.InsertKeepsOrderOfEqualKeys | studio/app/actions/assets.ts:99-103 | insertion places a group after every group of the same time (stability) |
| AssetGrouping.StableSortIsUnique | studio/app/actions/assets.ts:99-103 | two newest-first lists with the same groups per time, in the same order, are equal, so the stable sort's result is determined |
| AssetGrouping.SortedIsFixed | studio/app/actions/assets.ts:99-103 | a list already newest first is left as it is |
| AssetGrouping.PermutationKeepsDistinctIds | studio/app/actions/assets.ts:99-103 | reordering keeps the group ids distinct |
| AssetGrouping.SortedGroupContents | studio/app/actions/assets.ts:85-98 | every output group holds exactly its id's assets, is non-empty, and has `latestAt` its head's `createdAt` |
| AssetGrouping.SortedGroupsCover | studio/app/actions/assets.ts:85-91 | every input asset is in the output group of its own id |
| AssetGrouping.GroupedAssets | studio/app/actions/assets.ts:80-110 | the output is newest first, has one group per distinct id, has distinct ids, and every asset is in exactly the group of its id, each group holding its id's assets in input order with its head's time as `latestAt` |
| AssetGrouping.WithGroupNewestFirst | studio/app/actions/assets.ts:82-90 | a group keeps the input order, so its items are newest first |
| AssetGrouping.FirstTimesDescend | studio/app/actions/assets.ts:82-98 | for newest-first input, groups in first-appearance order have descending head times |
| AssetGrouping.RecordAlreadySorted | studio/app/actions/assets.ts:82-103 | for newest-first input the record's groups are already sorted |
| AssetGrouping.GroupItemsNewestFirst | studio/app/actions/assets.ts:82-98 | for newest-first input every group's items are newest first and none is newer than its `latestAt` |
| AssetGrouping.DatabaseOrderIsKept | studio/app/actions/assets.ts:82-103 | for newest-first input the sort changes nothing: groups come in first-appearance order, each headed by its newest asset |
| Artefacts.Lookup | studio/lib/hooks/use-workflow-state.ts:20 | a key has a value iff some property carries it, and the value is that property's |
| Artefacts.Put | studio/lib/hooks/use-workflow-state.ts:69-72 | a spread-and-set keeps every existing property in place and appends a new key last |
| Artefacts.PutLookup | studio/lib/hooks/use-workflow-state.ts:69-72 | after setting `k` it reads `v`, and every other key reads as before |
| Artefacts.PutKeepsKeysDistinct | studio/lib/hooks/use-workflow-state.ts:69-72 | the record's keys stay distinct |
| Artefacts.LeastIndexKey | studio/app/page.tsx:97 | finds the property whose key is the numerically least canonical array index, if any |
| Artefacts.FirstValue | studio/app/page.tsx:97 | `Object.values(r)[0]` exists iff the record is non-empty, is one of its values, and is the first-created value when no key is an array index |
| Artefacts.FieldsCoverRecord | studio/lib/hooks/use-workflow-state.ts:11-22 | agreeing on every named field is being the same session |
| Artefacts.AcceptImage | studio/lib/hooks/use-workflow-state.ts:68-73 | only the accepted images change, and `promptId` then maps to the image |
| Artefacts.AcceptImageKeepsOthers | studio/app/page.tsx:141-146 | every other prompt's image is as before, and keys stay distinct |
| WorkflowState.InitialState | studio/lib/hooks/use-workflow-state.ts:11-22 | phase `ideation` with every artefact empty |
| WorkflowState.ResetWorkflow | studio/lib/hooks/use-workflow-state.ts:24-37 | phase `ideation`, every artefact empty, the fresh session id |
| WorkflowState.ResetForgetsSession | studio/lib/hooks/use-workflow-state.ts:24-37 | any two sessions reset with the same id are equal, and a reset equals the initial state apart from the session id |
| WorkflowState.ProgressToResearch | studio/lib/hooks/use-workflow-state.ts:39-48 | phase `research` and the chosen angle; research, draft, social post, prompts, image and error cleared; topic, angles, accepted images and session id untouched |
| WorkflowState.ProgressToWriting | studio/lib/hooks/use-workflow-state.ts:50-56 | phase `writing`; draft, social post, prompts and error cleared; everything else kept |
| WorkflowState.ProgressToAssets | studio/lib/hooks/use-workflow-state.ts:58-62 | phase `assets`; prompts and error cleared; everything else kept |
| WorkflowState.ProgressToReview | studio/lib/hooks/use-workflow-state.ts:64-66 | only the phase changes |
| WorkflowState.TransitionsIdempotent | studio/lib/hooks/use-workflow-state.ts:24-66 | each transition taken twice is taken once |
| WorkflowState.ForwardRunKeepsUpstream | studio/lib/hooks/use-workflow-state.ts:39-66 | the research-writing-assets-review run keeps the angle, the stored research, topic, angles, accepted images and session id |
| WorkflowState.AcceptImageCommutes | studio/lib/hooks/use-workflow-state.ts:39-73 | accepting an image commutes with every forward transition |
| HomePage.StepIndex | studio/app/page.tsx:41-57 | each phase's index is its position in the step list |
| HomePage.StepIndexIsBijection | studio/app/page.tsx:41-57 | the index map inverts the step list, so distinct phases have distinct steps |
| HomePage.PhaseAt | studio/app/page.tsx:361 | indexing a list is defined exactly inside its bounds and `undefined` outside |
| HomePage.StepClickAsWritten | studio/app/page.tsx:359-367 | only the phase may change. When the clicked index is past the current phase's step, or the phase is undefined, nothing changes. Otherwise the phase is read from the five-entry list |
| HomePage.SocialClickJumpsForward | studio/app/page.tsx:360-365 | from `social`, clicking step 3 moves forward to `assets` |
| HomePage.ReviewClickLosesPhase | studio/app/page.tsx:360-365 | from `review`, clicking step 5 leaves the phase undefined |
| HomePage.AsWrittenMisreadsLateSteps | studio/app/page.tsx:360-365 | every allowed click from step 3 on lands one step too far or on no phase |
| HomePage.StepClick | studio/app/page.tsx:363-366 | only the phase may change. A click on a completed or current step goes to exactly that step. Any other click changes nothing |
| HomePage.StepClickNeverAdvances | studio/app/page.tsx:363 | a click never moves forward and never loses the phase |
| HomePage.StepClickAgreesBeforeSocial | studio/app/page.tsx:360-361 | on the steps before `social` the two lists agree |
| HomePage.FinalImage | studio/app/page.tsx:97 | the first accepted image when there is one, else the generated image |
| HomePage.HasGeneratedImage | studio/app/page.tsx:96-97 | `hasGeneratedImage` holds exactly when there is a final image |
| HomePage.AcceptedImageIsFinal | studio/app/page.tsx:96-146 | after accepting an image the page has one, and the final image is an accepted one |
| HomePage.StartOver | studio/app/page.tsx:369-382 | phase `ideation`, topic and every artefact cleared, the fresh session id |
| HomePage.StartOverForgetsSession | studio/app/page.tsx:369-382 | starting over forgets everything about the session, leaves no image and puts the stepper on step 0 |
| Writing.LineEnd | studio/lib/ai/writing.ts:83 | where a greedy `.+` stops: the next line terminator or the end |
| Writing.AttemptAt | studio/lib/ai/writing.ts:83 | a match attempt at one position succeeds iff some `#`, whitespace and rest-of-line match starts there, and it yields the backtracking regex's capture (the latest possible start of `.+`) |
| Writing.CaptureEndsAtLineEnd | studio/lib/ai/writing.ts:83 | every match's capture ends at the end of its line |
| Writing.FirstHeading | studio/lib/ai/writing.ts:83 | the first position where an attempt succeeds, with every earlier position failing |
| Writing.HeadingTitle | studio/lib/ai/writing.ts:83-84 | the captured title is non-empty and contains no line terminator |
| Writing.DoubleHashNeverMatches | studio/lib/ai/writing.ts:83 | a `##` heading never supplies a title |
| Writing.HeadingOnFirstLine | studio/lib/ai/writing.ts:83-84 | `# Title` on the first line gives `Title` |
| Writing.BareHashTakesNextLine | studio/lib/ai/writing.ts:83 | a bare `#` line takes the whole next line as the title, since `\s+` crosses the line break |
| Writing.SplitDecomposes | studio/lib/ai/writing.ts:87 | the pieces of `split(/\s+/)` after `filter(Boolean)` are whitespace-free words that interleave with whitespace gaps to rebuild the text |
| Writing.Words | studio/lib/ai/writing.ts:87 | the counted words and some whitespace gaps, non-empty between words, rebuild the text exactly |
| Writing.InterleaveAllWhitespace | studio/lib/ai/writing.ts:87 | an interleaving is all whitespace iff it has no words |
| Writing.WordCountZeroIffBlank | studio/lib/ai/writing.ts:87 | the word count is 0 iff the text is all whitespace |
| Writing.GenerateDraft | studio/lib/ai/writing.ts:45-93 | fails with "Angle title cannot be empty" iff the angle's title is blank. Otherwise the content is the text verbatim, the title is the heading's capture or else the angle's title, and the count is the number of words |
| Writing.DraftTitleNeverEmpty | studio/lib/ai/__tests__/writing.test.ts:53-56 | a draft's title is never empty |
| AutoSave.FloorDiv | studio/components/ui/auto-save-indicator.tsx:24-25 | `Math.floor(x / n)` is the `q` with `q * n <= x < (q + 1) * n`, for negative `x` too |
| AutoSave.Classify | studio/components/ui/auto-save-indicator.tsx:22-30 | the four branches are exhaustive and first-match. `Just now` holds iff `diff < 5000`, future saves included. Seconds hold iff `5000 <= diff < 60000`, and minutes iff `60000 <= diff < 3600000`, each count being the floored number. The clock time covers everything else |
| AutoSave.FormatTime | studio/components/ui/auto-save-indicator.tsx:21-31 | the text of each branch: `Just now`, `<seconds>s ago`, `<minutes>m ago`, the clock time |
| AutoSave.ClassifyMonotone | studio/components/ui/auto-save-indicator.tsx:27-30 | as time passes the branch never goes back, and within a branch the count never decreases |
| AutoSave.RelativeLabelsAreFaithful | studio/components/ui/auto-save-indicator.tsx:28-29 | two relative labels read the same only for times in the same whole second (or minute) |
| Strings.NatToStringRoundTrip | studio/components/ui/auto-save-indicator.tsx:28 | the decimal rendering of a count reads back as the count |

## Left out

- I/O is not modelled: the database reads and writes, storage, the `next/headers` access, and the AI
  SDK calls with their prompt texts. Their results are parameters (`text`, the assets list, the
  `Headers` value) or they are absent.
- `Date.now()`, `new Date()` and `crypto.randomUUID()` are parameters (`now`, `diff`, `freshId`).
  The locale-formatted clock time of the auto-save label is the parameter `clock`.
- Concurrency is not modelled: bucket updates run one at a time on a single thread, so a call
  threads the store through.
- The hook's raw setters (`setTopic`, `setAngles`, …) are assignments, not transitions. The page's
  other handlers (generation, saving, dialogs) call the AI and the database, and rendering is left
  out.
- The zod error messages are not modelled: a failed parse is `None`. `assetSchema` (a UUID check
  on an object) and the asset `metadata` column are left out.
- Strings are sequences of code points, not the UTF-16 code units that JavaScript `length`,
  `substring` and the regular expressions count. The models agree on text without astral
  characters.
- Artefacts.FirstValue: the model covers canonical array-index keys (the least one comes first)
  and creation order, not keys named after `Object.prototype` properties. Such keys are not
  reachable from prompt ids.
- AssetGrouping.Collect: `Object.entries` lists integer-like group ids first. The model keeps
  creation order throughout, because no group id is integer-like. Saved assets take the session
  id as group id (studio/app/page.tsx:111, studio/components/assets/asset-studio.tsx:127), and
  session ids come from `crypto.randomUUID()` (studio/app/page.tsx:77). The other ids are the
  column default `legacy_migration` (studio/lib/db/schema.ts:11) and the fixed `test-group` of
  studio/app/actions/test-db.ts:46. None of these names an `Object.prototype` member either (an id
  such as `constructor` would find an inherited value, make the `push` throw, and turn the call into
  `{ success: false }`).
- AssetGrouping.Asset: `createdAt` is a timestamp column declared not null, so it is always a
  `Date`, which JavaScript treats as true even at epoch 0. The `latestAt ? … : 0` fallback of the
  sort is unreachable for every group the code builds; the model keeps it for a missing time only.
- Sanitize.SanitizeInput: idempotence is not claimed. One pass of `javascript:` removal can
  assemble a new occurrence (`javajavascript:script:`), so the model states only what a single call
  does.
- Sanitize.SanitizeMarkdown: neither idempotence nor freedom from script elements is claimed. The
  script pass runs once, so pieces around a removed element can join into a new one
  (`Sanitize.ScriptRemovalReassembles`). The promise to prevent script injection does not hold for
  such input.
- HomePage.StepClickAsWritten: only indices the stepper passes (0 to 5) are meaningful. A negative
  index would pass the guard and is modelled as giving no phase, like JavaScript's `phases[-1]`.
- RateLimit.CheckRateLimit: the source mutates the stored bucket in place and returns fresh
  objects. Here, the new store and the reported values are one `Outcome`.

## Findings

| source | as written | input that shows it | evidently intended | confidence | as-written member | corrected member |
|---|---|---|---|---|---|---|
| studio/app/page.tsx:360-364 | the click target is read from a five-phase list without `social`, while the guard compares against the six-step index map | phase `social`, click step 3: the phase becomes `assets`, a step not yet reached; phase `review`, click step 5: the phase becomes `undefined` | the target is the clicked step of the stepper's own six-step order, so a click goes only to a completed or the current step | not executed | HomePage.StepClickAsWritten (HomePage.SocialClickJumpsForward, HomePage.ReviewClickLosesPhase) | HomePage.StepClick (HomePage.StepClickNeverAdvances) |

Also modelled as written, without a correction: a bare `#` line followed by text makes the next
line the title, because `\s+` crosses the line break (`Writing.BareHashTakesNextLine`).
