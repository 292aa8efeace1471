/** The zod schemas of the validation layer, as parsers returning the
    validated (possibly trimmed) value or `None`.

    In zod the `.min`/`.max` checks declared before `.trim()` look at the raw
    string; `.trim()` then replaces the value, and a later `.refine` looks
    at the trimmed value. Failing checks do not stop the later ones, but any
    failure fails the parse, so only the conjunction matters here. */
module Schemas {
  import opened Wrappers
  import opened Strings

  const TOPIC_MIN_LENGTH: nat := 5
  const TOPIC_MAX_LENGTH: nat := 500
  const CONTENT_MAX_LENGTH: nat := 50000
  const INSTRUCTION_MAX_LENGTH: nat := 2000
  const PROMPT_MAX_LENGTH: nat := 1000

  const CONTENT_MIN_LENGTH: nat := 1
  const INSTRUCTION_MIN_LENGTH: nat := 3
  const PROMPT_MIN_LENGTH: nat := 5

  /** Removing surrounding whitespace neither adds nor removes any other
      character. */
  lemma TrimKeepsNonWhitespace(s: string, c: char)
    requires !IsWhitespace(c)
    ensures c in Trim(s) <==> c in s
  {
    var r := Trim(s);
    if c in s {
      var k :| 0 <= k < |s| && s[k] == c;
      var i, j := TrimKeepsSpan(s, k, k + 1);
      assert r[k - i] == c;
    }
    if c in r {
      var k :| 0 <= k < |r| && r[k] == c;
      TrimIsSlice(s, r, k);
    }
  }

  /** `topicSchema`. */
  function ParseTopic(s: string): (r: Option<string>)
    ensures r.Some? <==> TOPIC_MIN_LENGTH <= |s| <= TOPIC_MAX_LENGTH && '<' !in s && '>' !in s
    ensures r.Some? ==> r.value == Trim(s)
  {
    if TOPIC_MIN_LENGTH <= |s| <= TOPIC_MAX_LENGTH then
      var t := Trim(s);
      TrimKeepsNonWhitespace(s, '<');
      TrimKeepsNonWhitespace(s, '>');
      if '<' in t || '>' in t then None else Some(t)
    else None
  }

  /** `contentSchema`: no trimming, the value is kept as it is. */
  function ParseContent(s: string): (r: Option<string>)
    ensures r.Some? <==> CONTENT_MIN_LENGTH <= |s| <= CONTENT_MAX_LENGTH
    ensures r.Some? ==> r.value == s
  {
    if CONTENT_MIN_LENGTH <= |s| <= CONTENT_MAX_LENGTH then Some(s) else None
  }

  /** `imagePromptSchema`. */
  function ParseImagePrompt(s: string): (r: Option<string>)
    ensures r.Some? <==> PROMPT_MIN_LENGTH <= |s| <= PROMPT_MAX_LENGTH
    ensures r.Some? ==> r.value == Trim(s) && NoOuterWhitespace(r.value)
  {
    if PROMPT_MIN_LENGTH <= |s| <= PROMPT_MAX_LENGTH then Some(Trim(s)) else None
  }

  // ---------------------------------------------------------------------
  // Prompt-injection patterns
  // ---------------------------------------------------------------------

  /** A piece of one of the injection patterns: a case-insensitive literal
      (lower case), or a run of `\s` (`+` when `atLeastOne`, else `*`). */
  datatype Token = Word(text: string) | Spaces(atLeastOne: bool)

  /** The five case-insensitive patterns of `instructionSchema`. */
  function InjectionPatterns(): seq<seq<Token>> {
    [ [Word("ignore"), Spaces(true), Word("previous"), Spaces(true), Word("instructions")],
      [Word("forget"), Spaces(true), Word("everything")],
      [Word("you"), Spaces(true), Word("are"), Spaces(true), Word("now")],
      [Word("system"), Spaces(false), Word(":"), Spaces(false)],
      [Word("role"), Spaces(false), Word(":"), Spaces(false), Word("system")] ]
  }

  lemma SliceSplit(t: string, i: nat, m: nat, n: nat, j: nat)
    requires i <= m <= n <= j <= |t|
    ensures t[i..j] == t[i..m] + t[m..n] + t[n..j]
  {
  }

  /** Every character of the trimmed string comes from the string. */
  lemma TrimIsSlice(s: string, r: string, k: nat)
    requires r == Trim(s) && k < |r|
    ensures r[k] in s
  {
    var i := SkipWhitespace(s, 0);
    assert s[i + k] == r[k];
  }

  /** Lower-casing leaves whitespace alone. */
  lemma WhitespaceHasNoCase(c: char)
    ensures IsWhitespace(c) ==> Lower(c) == c
  {
  }

  /** Matching `toks` at position `i`, each `\s` run taking all the
      whitespace there is. */
  function MatchTokens(s: string, i: nat, toks: seq<Token>): bool
    requires i <= |s|
    decreases |toks|
  {
    if |toks| == 0 then true
    else match toks[0]
      case Word(w) => MatchesAt(s, i, w) && MatchTokens(s, i + |w|, toks[1..])
      case Spaces(atLeastOne) =>
        var j := SkipWhitespace(s, i);
        (!atLeastOne || j > i) && MatchTokens(s, j, toks[1..])
  }

  /** Backtracking semantics of the same pattern: a `\s` run may take any
      number of whitespace characters that lets the rest match. */
  ghost predicate MatchesRef(s: string, i: nat, toks: seq<Token>)
    requires i <= |s|
    decreases |toks|
  {
    if |toks| == 0 then true
    else match toks[0]
      case Word(w) => MatchesAt(s, i, w) && MatchesRef(s, i + |w|, toks[1..])
      case Spaces(atLeastOne) =>
        exists k :: i <= k <= |s| && (!atLeastOne || k > i)
          && AllWhitespace(s[i..k]) && MatchesRef(s, k, toks[1..])
  }

  /** Every whitespace run is last or followed by a non-empty literal whose
      first character is not whitespace. */
  predicate WellFormed(toks: seq<Token>) {
    forall n :: 0 <= n < |toks| && toks[n].Spaces? ==>
      n + 1 == |toks|
      || (toks[n + 1].Word? && |toks[n + 1].text| > 0 && !IsWhitespace(toks[n + 1].text[0]))
  }

  lemma PatternsWellFormed()
    ensures forall n :: 0 <= n < |InjectionPatterns()| ==> WellFormed(InjectionPatterns()[n])
  {
    var ps := InjectionPatterns();
    forall n | 0 <= n < |ps| ensures WellFormed(ps[n]) {
      var toks := ps[n];
      forall m | 0 <= m < |toks| && toks[m].Spaces? && m + 1 < |toks|
        ensures toks[m + 1].Word? && |toks[m + 1].text| > 0 && !IsWhitespace(toks[m + 1].text[0])
      {
        var c := toks[m + 1].text[0];
        assert c in "piean:s";
      }
    }
  }

  /** For well-formed patterns, taking the longest whitespace run is exactly
      as permissive as backtracking. */
  lemma {:induction false} GreedyMatchesReference(s: string, i: nat, toks: seq<Token>)
    requires i <= |s|
    requires WellFormed(toks)
    ensures MatchTokens(s, i, toks) <==> MatchesRef(s, i, toks)
    decreases |toks|
  {
    if |toks| > 0 {
      assert WellFormed(toks[1..]) by {
        forall n | 0 <= n < |toks[1..]| && toks[1..][n].Spaces?
          ensures n + 1 == |toks[1..]|
            || (toks[1..][n + 1].Word? && |toks[1..][n + 1].text| > 0
                && !IsWhitespace(toks[1..][n + 1].text[0]))
        {
          assert toks[n + 1].Spaces?;
        }
      }
      match toks[0]
      case Word(w) =>
        if MatchesAt(s, i, w) {
          GreedyMatchesReference(s, i + |w|, toks[1..]);
        }
      case Spaces(atLeastOne) =>
        var j := SkipWhitespace(s, i);
        GreedyMatchesReference(s, j, toks[1..]);
        if MatchTokens(s, i, toks) {
          assert AllWhitespace(s[i..j]) by {
            forall k | 0 <= k < j - i ensures IsWhitespace(s[i..j][k]) {
              assert s[i..j][k] == s[i + k];
            }
          }
        }
        if MatchesRef(s, i, toks) {
          var k :| i <= k <= |s| && (!atLeastOne || k > i)
            && AllWhitespace(s[i..k]) && MatchesRef(s, k, toks[1..]);
          forall m | i <= m < k ensures IsWhitespace(s[m]) {
            assert s[i..k][m - i] == s[m];
          }
          assert j == |s| || !IsWhitespace(s[j]);
          assert k <= j;
          if |toks| == 1 {
            assert MatchTokens(s, j, toks[1..]);
          } else {
            var w := toks[1].text;
            assert MatchesAt(s, k, w) && |w| > 0 && !IsWhitespace(w[0]);
            assert Lower(s[k + 0]) == w[0];
            WhitespaceHasNoCase(s[k]);
            assert k == j;
          }
        }
    }
  }

  /** `pattern.test(s)`: the pattern matches somewhere at or after `i`. */
  function SearchFrom(s: string, i: nat, toks: seq<Token>): (found: bool)
    requires i <= |s|
    ensures found ==> exists j :: i <= j <= |s| && MatchTokens(s, j, toks)
    ensures !found ==> forall j :: i <= j <= |s| ==> !MatchTokens(s, j, toks)
    decreases |s| - i
  {
    if MatchTokens(s, i, toks) then true
    else if i == |s| then false
    else SearchFrom(s, i + 1, toks)
  }

  /** Some pattern of `ps` matches somewhere in `s`. */
  predicate AnyMatch(s: string, ps: seq<seq<Token>>) {
    exists n :: 0 <= n < |ps| && SearchFrom(s, 0, ps[n])
  }

  /** For well-formed patterns the search finds a match exactly when the
      backtracking semantics has one at some position. */
  lemma AnyMatchReference(s: string, ps: seq<seq<Token>>)
    requires forall n :: 0 <= n < |ps| ==> WellFormed(ps[n])
    ensures AnyMatch(s, ps) <==> exists n, i :: 0 <= n < |ps| && 0 <= i <= |s| && MatchesRef(s, i, ps[n])
  {
    if AnyMatch(s, ps) {
      var n :| 0 <= n < |ps| && SearchFrom(s, 0, ps[n]);
      var i :| 0 <= i <= |s| && MatchTokens(s, i, ps[n]);
      GreedyMatchesReference(s, i, ps[n]);
    }
    if exists n, i :: 0 <= n < |ps| && 0 <= i <= |s| && MatchesRef(s, i, ps[n]) {
      var n, i :| 0 <= n < |ps| && 0 <= i <= |s| && MatchesRef(s, i, ps[n]);
      GreedyMatchesReference(s, i, ps[n]);
      assert SearchFrom(s, 0, ps[n]);
    }
  }

  /** `dangerousPatterns.some(pattern => pattern.test(val))`. */
  predicate HasInjection(s: string) {
    AnyMatch(s, InjectionPatterns())
  }

  /** `instructionSchema`. */
  function ParseInstruction(s: string): (r: Option<string>)
    ensures r.Some? ==> r.value == Trim(s)
  {
    if INSTRUCTION_MIN_LENGTH <= |s| <= INSTRUCTION_MAX_LENGTH && !HasInjection(Trim(s)) then
      Some(Trim(s))
    else None
  }

  /** An instruction is accepted exactly when its raw length is between 3
      and 2000 and, once trimmed, no injection pattern matches anywhere in
      it under backtracking regular-expression semantics. */
  lemma ParseInstructionSpec(s: string)
    ensures var ps := InjectionPatterns();
      ParseInstruction(s).Some? <==>
        INSTRUCTION_MIN_LENGTH <= |s| <= INSTRUCTION_MAX_LENGTH
        && !exists n, i :: 0 <= n < |ps| && 0 <= i <= |Trim(s)| && MatchesRef(Trim(s), i, ps[n])
  {
    PatternsWellFormed();
    AnyMatchReference(Trim(s), InjectionPatterns());
  }

  /** Whatever surrounds it, a `system:` marker is caught. */
  lemma SystemMarkerDetected(a: string, b: string)
    ensures HasInjection(a + "system:" + b)
  {
    var t := a + "system:" + b;
    var p := InjectionPatterns()[3];
    assert p == [Word("system"), Spaces(false), Word(":"), Spaces(false)];
    var i := |a|;
    assert MatchesAt(t, i, "system") by {
      forall k | 0 <= k < 6 ensures Lower(t[i + k]) == "system"[k] {
        assert t[i + k] == "system:"[k];
      }
    }
    assert t[i + 6] == ':';
    assert SkipWhitespace(t, i + 6) == i + 6;
    assert MatchesAt(t, i + 6, ":");
    var q := [Word(":"), Spaces(false)];
    assert p[1..] == [Spaces(false)] + q;
    assert MatchTokens(t, i + 7, q[1..]) by {
      assert MatchTokens(t, SkipWhitespace(t, i + 7), []);
    }
    assert MatchTokens(t, i + 6, q);
    assert MatchTokens(t, i + 6, p[1..]);
    assert MatchTokens(t, i, p);
    assert SearchFrom(t, 0, p);
  }

  /** An instruction containing a `system:` marker is rejected, since
      trimming cannot remove the marker. */
  lemma SystemMarkerRejected(a: string, b: string)
    ensures ParseInstruction(a + "system:" + b) == None
  {
    var a', b' := TrimKeepsMarker(a, b);
    SystemMarkerDetected(a', b');
  }

  /** Trimming stops at the marker's first and last characters, neither of
      which is whitespace. */
  lemma TrimKeepsMarker(a: string, b: string) returns (a': string, b': string)
    ensures Trim(a + "system:" + b) == a' + "system:" + b'
  {
    var t := a + "system:" + b;
    var m := |a|;
    assert t[m..m + 7] == "system:" by {
      assert t == a + ("system:" + b);
    }
    var i, j := TrimKeepsSpan(t, m, m + 7);
    a', b' := t[i..m], t[m + 7..j];
    SliceSplit(t, i, m, m + 7, j);
  }

  // ---------------------------------------------------------------------
  // Enumerations
  // ---------------------------------------------------------------------

  datatype AssetType = ImageAsset | SocialPost | Article
  datatype AssetStatus = Draft | Published

  function AssetTypeName(t: AssetType): string {
    match t
    case ImageAsset => "image"
    case SocialPost => "social_post"
    case Article => "article"
  }

  function AssetStatusName(t: AssetStatus): string {
    match t
    case Draft => "draft"
    case Published => "published"
  }

  /** `assetTypeSchema`. */
  function ParseAssetType(s: string): (r: Option<AssetType>)
    ensures r.Some? ==> AssetTypeName(r.value) == s
  {
    if s == "image" then Some(ImageAsset)
    else if s == "social_post" then Some(SocialPost)
    else if s == "article" then Some(Article)
    else None
  }

  /** `assetStatusSchema`. */
  function ParseAssetStatus(s: string): (r: Option<AssetStatus>)
    ensures r.Some? ==> AssetStatusName(r.value) == s
  {
    if s == "draft" then Some(Draft)
    else if s == "published" then Some(Published)
    else None
  }

  /** The enumerations accept exactly their names, and each name parses
      back to its member. */
  lemma EnumerationsRoundTrip(s: string, t: AssetType, u: AssetStatus)
    ensures ParseAssetType(AssetTypeName(t)) == Some(t)
    ensures ParseAssetStatus(AssetStatusName(u)) == Some(u)
    ensures ParseAssetType(s).Some? <==> s in {"image", "social_post", "article"}
    ensures ParseAssetStatus(s).Some? <==> s in {"draft", "published"}
  {
  }
}
