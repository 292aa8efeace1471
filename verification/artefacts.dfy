/** The artefacts the workflow produces and the session record that both
    the workflow hook and the home page keep, generic in the phase type
    since the hook has five phases and the page six.

    The accepted images live in a plain JavaScript object keyed by prompt
    id. Its own properties are kept here in creation order; reading them
    back (`Object.keys`, `Object.values`) lists array-index keys first in
    ascending numeric order and the other keys in creation order. */
module Artefacts {
  import opened Wrappers
  import opened Strings

  datatype Angle = Angle(id: string, title: string, hook: string, pitch: string)
  datatype Citation = Citation(title: string, url: string, snippet: Option<string>)
  datatype ResearchResult = ResearchResult(summary: string, citations: seq<Citation>, keyStats: seq<string>)
  datatype DraftResult = DraftResult(title: string, content: string, wordCount: nat)
  datatype ImageStyle = Professional | Abstract | Editorial | Infographic
  datatype ImagePrompt = ImagePrompt(id: string, description: string, style: ImageStyle)
  datatype GeneratedImage = GeneratedImage(base64: string, mediaType: string)

  // ---------------------------------------------------------------------
  // Record<string, GeneratedImage>
  // ---------------------------------------------------------------------

  /** Own properties in creation order. */
  type ImageRecord = seq<(string, GeneratedImage)>

  predicate DistinctKeys(r: ImageRecord) {
    forall i, j :: 0 <= i < j < |r| ==> r[i].0 != r[j].0
  }

  function Lookup(r: ImageRecord, k: string): (v: Option<GeneratedImage>)
    ensures v.Some? <==> exists i :: 0 <= i < |r| && r[i].0 == k
    ensures v.Some? ==> exists i :: 0 <= i < |r| && r[i] == (k, v.value)
  {
    if |r| == 0 then None
    else if r[0].0 == k then Some(r[0].1)
    else
      var v := Lookup(r[1..], k);
      assert forall i :: 1 <= i < |r| ==> r[i] == r[1..][i - 1];
      v
  }

  /** `{ ...prev, [k]: v }`: a present key keeps its place and takes the
      new value, a new key is added last. */
  function Put(r: ImageRecord, k: string, v: GeneratedImage): (r': ImageRecord)
    ensures |r'| == (if Lookup(r, k).Some? then |r| else |r| + 1)
    ensures forall i :: 0 <= i < |r| ==> r'[i].0 == r[i].0
    ensures Lookup(r, k).None? ==> r'[|r|] == (k, v)
  {
    if |r| == 0 then [(k, v)]
    else if r[0].0 == k then [(k, v)] + r[1..]
    else [r[0]] + Put(r[1..], k, v)
  }

  /** Putting keeps the keys distinct. */
  lemma {:induction false} PutKeepsKeysDistinct(r: ImageRecord, k: string, v: GeneratedImage)
    requires DistinctKeys(r)
    ensures DistinctKeys(Put(r, k, v))
    decreases |r|
  {
    if |r| > 0 {
      var r' := Put(r, k, v);
      if r[0].0 == k {
        forall i, j | 0 <= i < j < |r'| ensures r'[i].0 != r'[j].0 {
          assert r'[j] == r[j];
          assert i == 0 || r'[i] == r[i];
        }
      } else {
        assert DistinctKeys(r[1..]) by {
          forall i, j | 0 <= i < j < |r[1..]| ensures r[1..][i].0 != r[1..][j].0 {
            assert r[1..][i] == r[i + 1] && r[1..][j] == r[j + 1];
          }
        }
        PutKeepsKeysDistinct(r[1..], k, v);
        var t := Put(r[1..], k, v);
        assert r' == [r[0]] + t;
        assert Lookup(r[1..], k).None? ==> t[|r| - 1] == (k, v);
        forall j | 1 <= j < |r'| ensures r'[0].0 != r'[j].0 {
          assert r'[j] == t[j - 1];
          if j - 1 < |r[1..]| {
            assert t[j - 1].0 == r[1..][j - 1].0 == r[j].0;
          }
        }
      }
    }
  }

  /** Putting sets the one key and leaves every other key's value as it
      was. */
  lemma {:induction false} PutLookup(r: ImageRecord, k: string, v: GeneratedImage, k': string)
    ensures Lookup(Put(r, k, v), k') == if k' == k then Some(v) else Lookup(r, k')
    decreases |r|
  {
    if |r| > 0 {
      if r[0].0 == k {
        assert Put(r, k, v)[1..] == r[1..];
      } else {
        PutLookup(r[1..], k, v, k');
        assert Put(r, k, v)[1..] == Put(r[1..], k, v);
      }
    }
  }

  /** A canonical array index: a decimal numeral without leading zeros
      below 2^32 - 1. */
  predicate IsArrayIndex(k: string) {
    && |k| > 0
    && (forall i :: 0 <= i < |k| ==> IsDigit(k[i]))
    && (k[0] != '0' || |k| == 1)
    && DigitsValue(k) < 0xFFFF_FFFF
  }

  /** Position of the property whose key is the numerically least array
      index, if any key is one. */
  function LeastIndexKey(r: ImageRecord): (p: Option<nat>)
    ensures p.Some? ==> p.value < |r| && IsArrayIndex(r[p.value].0)
    ensures p.Some? ==> forall q :: 0 <= q < |r| && IsArrayIndex(r[q].0) ==>
      DigitsValue(r[p.value].0) <= DigitsValue(r[q].0)
    ensures p.None? ==> forall q :: 0 <= q < |r| ==> !IsArrayIndex(r[q].0)
  {
    if |r| == 0 then None
    else
      var rest := LeastIndexKey(r[1..]);
      assert forall q :: 1 <= q < |r| ==> r[q] == r[1..][q - 1];
      if !IsArrayIndex(r[0].0) then
        (if rest.Some? then Some(rest.value + 1) else None)
      else if rest.Some? && DigitsValue(r[1..][rest.value].0) < DigitsValue(r[0].0) then
        Some(rest.value + 1)
      else Some(0)
  }

  /** `Object.values(record)[0]`: the value of the least array-index key,
      or else of the first property created. */
  function FirstValue(r: ImageRecord): (v: Option<GeneratedImage>)
    ensures v.Some? <==> |r| > 0
    ensures v.Some? ==> exists i :: 0 <= i < |r| && r[i].1 == v.value
    ensures (forall q :: 0 <= q < |r| ==> !IsArrayIndex(r[q].0)) && |r| > 0 ==> v == Some(r[0].1)
    ensures (exists q :: 0 <= q < |r| && IsArrayIndex(r[q].0)) ==>
      exists p :: 0 <= p < |r| && IsArrayIndex(r[p].0) && v == Some(r[p].1)
        && forall q :: 0 <= q < |r| && IsArrayIndex(r[q].0) ==> DigitsValue(r[p].0) <= DigitsValue(r[q].0)
  {
    match LeastIndexKey(r)
    case Some(p) => Some(r[p].1)
    case None => if |r| > 0 then Some(r[0].1) else None
  }

  // ---------------------------------------------------------------------
  // The session record
  // ---------------------------------------------------------------------

  datatype Session<P> = Session(
    phase: P,
    topic: string,
    angles: seq<Angle>,
    selectedAngle: Option<Angle>,
    research: Option<ResearchResult>,
    draft: Option<DraftResult>,
    socialPost: string,
    imagePrompts: Option<seq<ImagePrompt>>,
    generatedImage: Option<GeneratedImage>,
    acceptedImages: ImageRecord,
    sessionId: string,
    error: Option<string>)

  /** The state a session starts in: every artefact empty. */
  function Initial<P>(start: P, sessionId: string): Session<P> {
    Session(start, "", [], None, None, None, "", None, None, [], sessionId, None)
  }

  /** The names of the record's fields, for stating what a transition may
      change. */
  datatype Field =
    | PhaseField | TopicField | AnglesField | SelectedAngleField | ResearchField
    | DraftField | SocialPostField | ImagePromptsField | GeneratedImageField
    | AcceptedImagesField | SessionIdField | ErrorField

  /** `s` and `t` hold the same value in field `f`. */
  predicate Agree<P(==)>(s: Session<P>, t: Session<P>, f: Field) {
    match f
    case PhaseField => s.phase == t.phase
    case TopicField => s.topic == t.topic
    case AnglesField => s.angles == t.angles
    case SelectedAngleField => s.selectedAngle == t.selectedAngle
    case ResearchField => s.research == t.research
    case DraftField => s.draft == t.draft
    case SocialPostField => s.socialPost == t.socialPost
    case ImagePromptsField => s.imagePrompts == t.imagePrompts
    case GeneratedImageField => s.generatedImage == t.generatedImage
    case AcceptedImagesField => s.acceptedImages == t.acceptedImages
    case SessionIdField => s.sessionId == t.sessionId
    case ErrorField => s.error == t.error
  }

  /** Every field outside `fs` is the same in `s` and `t`. */
  predicate SameExcept<P(==)>(s: Session<P>, t: Session<P>, fs: set<Field>) {
    forall f :: f !in fs ==> Agree(s, t, f)
  }

  /** Every field in `fs` holds its initial, empty value. */
  predicate Cleared<P(==)>(s: Session<P>, fs: set<Field>) {
    forall f :: f in fs ==> Agree(s, Initial(s.phase, s.sessionId), f)
  }

  /** The field names cover the whole record: agreeing on all of them is
      being equal. */
  lemma FieldsCoverRecord<P>(s: Session<P>, t: Session<P>)
    ensures SameExcept(s, t, {}) <==> s == t
  {
    if SameExcept(s, t, {}) {
      assert Agree(s, t, PhaseField) && Agree(s, t, TopicField) && Agree(s, t, AnglesField);
      assert Agree(s, t, SelectedAngleField) && Agree(s, t, ResearchField) && Agree(s, t, DraftField);
      assert Agree(s, t, SocialPostField) && Agree(s, t, ImagePromptsField);
      assert Agree(s, t, GeneratedImageField) && Agree(s, t, AcceptedImagesField);
      assert Agree(s, t, SessionIdField) && Agree(s, t, ErrorField);
    }
  }

  /** `handleAcceptImage(promptId, image)`, the same in the hook and the
      page: only the accepted images change, and among them only the value
      under `promptId`. */
  function AcceptImage<P(==)>(s: Session<P>, promptId: string, image: GeneratedImage): (r: Session<P>)
    ensures SameExcept(s, r, {AcceptedImagesField})
    ensures Lookup(r.acceptedImages, promptId) == Some(image)
  {
    var r := s.(acceptedImages := Put(s.acceptedImages, promptId, image));
    PutLookup(s.acceptedImages, promptId, image, promptId);
    OnlyImagesChange(s, r);
    r
  }

  lemma OnlyImagesChange<P>(s: Session<P>, r: Session<P>)
    requires r == s.(acceptedImages := r.acceptedImages)
    ensures SameExcept(s, r, {AcceptedImagesField})
  {
    forall f | f != AcceptedImagesField ensures Agree(s, r, f) {
    }
  }

  /** Accepting an image leaves every other prompt's image as it was. */
  lemma AcceptImageKeepsOthers<P>(s: Session<P>, promptId: string, image: GeneratedImage, other: string)
    requires DistinctKeys(s.acceptedImages)
    requires other != promptId
    ensures DistinctKeys(AcceptImage(s, promptId, image).acceptedImages)
    ensures Lookup(AcceptImage(s, promptId, image).acceptedImages, other) == Lookup(s.acceptedImages, other)
  {
    PutKeepsKeysDistinct(s.acceptedImages, promptId, image);
    PutLookup(s.acceptedImages, promptId, image, other);
  }
}
